/**
 Descriptor tables, shared open files and pipe ends (kernel/src/proc/fd.rs, fd_open.rs,
 fd_pipe.rs and the tables of state.rs).
 */
module Descriptors {
  import opened Physical
  import opened Pipes

  const MAX_FDS: nat := 16
  const MAX_OPEN_FILES: nat := 32
  const MAX_PIPES: nat := 16
  const MAX_PROCESSES: nat := 8
  const FD_CLOEXEC: nat := 1

  datatype FdTarget = Empty | Stdio(index: nat) | Tty | Null | Zero | Open(file: nat) | PipeRead(pipe: nat) | PipeWrite(pipe: nat)

  datatype OpenFile = OpenFile(fileIdx: nat, offset: nat, statusFlags: nat, refs: nat, inUse: bool)

  const NO_FILE := OpenFile(0, 0, 0, 0, false)

  datatype Pipe = Pipe(readRefs: nat, writeRefs: nat, readFlags: nat, writeFlags: nat, inUse: bool)

  const NO_PIPE := Pipe(0, 0, 0, 0, false)

  datatype Process = Process(fds: seq<FdTarget>, fdFlags: seq<nat>, zombie: bool, exitCode: int)

  function DefaultFds(): (fds: seq<FdTarget>)
    ensures |fds| == MAX_FDS && forall i :: 0 <= i < MAX_FDS ==> fds[i] == if i < 3 then Stdio(i) else Empty
  {
    seq(MAX_FDS, i => if 0 <= i < 3 then Stdio(i) else Empty)
  }

  predicate ProcessOk(p: Option<Process>) { p.Some? ==> |p.value.fds| == MAX_FDS == |p.value.fdFlags| }

  // ----- Who names what -----

  ghost function Names(p: Option<Process>): multiset<FdTarget> {
    if p.None? then multiset{} else multiset(p.value.fds)
  }

  /** Every descriptor of every process, with multiplicity. */
  ghost function Held(ps: seq<Option<Process>>): multiset<FdTarget> {
    if ps == [] then multiset{} else Held(ps[..|ps| - 1]) + Names(ps[|ps| - 1])
  }

  lemma HeldSplit(ps: seq<Option<Process>>)
    requires ps != []
    ensures Held(ps) == Held(ps[..|ps| - 1]) + Names(ps[|ps| - 1])
  {
  }

  lemma {:induction false} HeldUpdate(ps: seq<Option<Process>>, i: nat, p: Option<Process>)
    requires i < |ps|
    ensures Held(ps[i := p]) + Names(ps[i]) == Held(ps) + Names(p)
  {
    hide Held, Names;
    var n := |ps| - 1;
    HeldSplit(ps);
    HeldSplit(ps[i := p]);
    if i == n {
      assert ps[i := p][..n] == ps[..n];
      Commute(Held(ps[..n]), Names(p), Names(ps[i]));
    } else {
      assert ps[i := p][..n] == ps[..n][i := p];
      HeldUpdate(ps[..n], i, p);
      AddBoth(Held(ps[..n][i := p]), Held(ps[..n]), Names(ps[n]), Names(ps[i]), Names(p));
    }
  }

  lemma Commute(a: multiset<FdTarget>, x: multiset<FdTarget>, y: multiset<FdTarget>)
    ensures (a + x) + y == (a + y) + x
  {
  }

  lemma AddBoth(a': multiset<FdTarget>, a: multiset<FdTarget>, b: multiset<FdTarget>, x: multiset<FdTarget>, y: multiset<FdTarget>)
    requires a' + x == a + y
    ensures (a' + b) + x == (a + b) + y
  {
    assert (a' + b) + x == (a' + x) + b;
    assert (a + b) + y == (a + y) + b;
  }

  /** If one member of a part is exchanged, so it is in the whole. */
  lemma Exchange(h': multiset<FdTarget>, h: multiset<FdTarget>, n: multiset<FdTarget>, o: FdTarget, t: FdTarget)
    requires o in n && o in h && h' + n == h + (n - multiset{o} + multiset{t})
    ensures h' == h - multiset{o} + multiset{t}
  {
    forall e: FdTarget
      ensures h'[e] == (h - multiset{o} + multiset{t})[e]
    {
      assert h'[e] + n[e] == (h' + n)[e];
      assert (h + (n - multiset{o} + multiset{t}))[e] == h[e] + (n - multiset{o} + multiset{t})[e];
    }
  }

  /** Every descriptor is held. */
  lemma {:induction false} HeldBy(ps: seq<Option<Process>>, i: nat, fd: nat)
    requires i < |ps| && ps[i].Some? && fd < |ps[i].value.fds|
    ensures ps[i].value.fds[fd] in Held(ps)
  {
    var n := |ps| - 1;
    if i == n {
      assert ps[i].value.fds[fd] in Names(ps[n]);
    } else {
      HeldBy(ps[..n], i, fd);
    }
  }

  function WithFd(p: Process, fd: nat, t: FdTarget, flags: nat): Process
    requires fd < |p.fds| == |p.fdFlags|
  {
    p.(fds := p.fds[fd := t], fdFlags := p.fdFlags[..fd] + [flags] + p.fdFlags[fd + 1..])
  }

  lemma HeldFd(ps: seq<Option<Process>>, g: nat, fd: nat, t: FdTarget, flags: nat)
    requires g < |ps| && ps[g].Some? && ProcessOk(ps[g]) && fd < MAX_FDS
    ensures Held(ps[g := Some(WithFd(ps[g].value, fd, t, flags))]) == Held(ps) - multiset{ps[g].value.fds[fd]} + multiset{t}
    ensures ps[g].value.fds[fd] in Held(ps)
  {
    var p := ps[g].value;
    HeldUpdate(ps, g, Some(WithFd(p, fd, t, flags)));
    HeldBy(ps, g, fd);
    assert multiset(p.fds[fd := t]) == multiset(p.fds) - multiset{p.fds[fd]} + multiset{t};
    assert p.fds[fd] in multiset(p.fds);
    Exchange(Held(ps[g := Some(WithFd(p, fd, t, flags))]), Held(ps), multiset(p.fds), p.fds[fd], t);
  }

  // ----- Reference counts -----

  /** Every reference in `r` is backed: its table entry is in use and counts at least as many.  Free entries are blank. */
  ghost predicate Backed(files: seq<OpenFile>, pipes: seq<Pipe>, r: multiset<FdTarget>) {
    && |files| == MAX_OPEN_FILES && |pipes| == MAX_PIPES
    && (forall i: nat :: i < MAX_OPEN_FILES && !files[i].inUse ==> files[i] == NO_FILE)
    && (forall i: nat :: i < MAX_PIPES && !pipes[i].inUse ==> pipes[i] == NO_PIPE)
    && (forall i: nat :: Open(i) in r ==> i < MAX_OPEN_FILES && files[i].inUse && r[Open(i)] <= files[i].refs)
    && (forall i: nat :: PipeRead(i) in r ==> i < MAX_PIPES && pipes[i].inUse && r[PipeRead(i)] <= pipes[i].readRefs)
    && (forall i: nat :: PipeWrite(i) in r ==> i < MAX_PIPES && pipes[i].inUse && r[PipeWrite(i)] <= pipes[i].writeRefs)
  }

  /** The counts are exact, and entries nobody names are free. */
  ghost predicate Exact(files: seq<OpenFile>, pipes: seq<Pipe>, r: multiset<FdTarget>) {
    && |files| == MAX_OPEN_FILES && |pipes| == MAX_PIPES
    && (forall i: nat :: i < MAX_OPEN_FILES ==>
          files[i].refs == r[Open(i)] && (files[i].inUse <==> r[Open(i)] > 0))
    && (forall i: nat :: i < MAX_PIPES ==>
          && pipes[i].readRefs == r[PipeRead(i)] && pipes[i].writeRefs == r[PipeWrite(i)]
          && (pipes[i].inUse <==> r[PipeRead(i)] + r[PipeWrite(i)] > 0))
  }

  /** Entries named by `r` keep everything but their counts. */
  ghost predicate Kept(files: seq<OpenFile>, pipes: seq<Pipe>, files': seq<OpenFile>, pipes': seq<Pipe>, r: multiset<FdTarget>) {
    && |files'| == |files| && |pipes'| == |pipes|
    && (forall i: nat :: i < |files| && Open(i) in r ==> files'[i] == files[i].(refs := files'[i].refs))
    && (forall i: nat :: i < |pipes| && (PipeRead(i) in r || PipeWrite(i) in r) ==>
          pipes'[i] == pipes[i].(readRefs := pipes'[i].readRefs, writeRefs := pipes'[i].writeRefs))
  }

  /** The lowest empty descriptor from `from` on. */
  predicate IsLowestEmpty(fds: seq<FdTarget>, from: nat, fd: nat) {
    from <= fd < |fds| && fds[fd].Empty? && forall k :: from <= k < fd ==> !fds[k].Empty?
  }

  /** The lowest pipe entry that is not in use, or the end of the table. */
  predicate IsFreePipe(pipes: seq<Pipe>, i: nat) {
    i <= |pipes| && (forall j :: 0 <= j < i ==> pipes[j].inUse) && (i < |pipes| ==> !pipes[i].inUse)
  }

  predicate AtMostOneEmpty(fds: seq<FdTarget>, from: nat) {
    forall j, k :: from <= j < k < |fds| ==> !fds[j].Empty? || !fds[k].Empty?
  }

  predicate NoneEmpty(fds: seq<FdTarget>, from: nat) {
    forall k :: from <= k < |fds| ==> !fds[k].Empty?
  }

  lemma FdShape(p: Process, fd: nat, t: FdTarget, flags: nat)
    requires |p.fds| == MAX_FDS == |p.fdFlags| && fd < MAX_FDS
    ensures ProcessOk(Some(WithFd(p, fd, t, flags)))
  {
  }

  predicate Counted(t: FdTarget) { t.Open? || t.PipeRead? || t.PipeWrite? }

  /** The two collections agree on everything that is counted. */
  ghost predicate SameCounts(r: multiset<FdTarget>, r': multiset<FdTarget>) {
    forall t: FdTarget :: Counted(t) ==> r[t] == r'[t]
  }

  /** Targets that are not counted do not matter. */
  lemma Bystanders(files: seq<OpenFile>, pipes: seq<Pipe>, r: multiset<FdTarget>, r': multiset<FdTarget>)
    requires SameCounts(r, r')
    ensures Backed(files, pipes, r) ==> Backed(files, pipes, r')
    ensures Exact(files, pipes, r) <==> Exact(files, pipes, r')
  {
  }

  lemma KeptBystanders(files: seq<OpenFile>, pipes: seq<Pipe>, files': seq<OpenFile>, pipes': seq<Pipe>,
                       r: multiset<FdTarget>, r': multiset<FdTarget>)
    requires SameCounts(r, r') && Kept(files, pipes, files', pipes', r)
    ensures Kept(files, pipes, files', pipes', r')
  {
  }

  lemma KeptSame(files: seq<OpenFile>, pipes: seq<Pipe>, r: multiset<FdTarget>)
    ensures Kept(files, pipes, files, pipes, r)
  {
  }

  lemma KeptTwice(files: seq<OpenFile>, pipes: seq<Pipe>, files': seq<OpenFile>, pipes': seq<Pipe>,
                  files'': seq<OpenFile>, pipes'': seq<Pipe>, r: multiset<FdTarget>, r': multiset<FdTarget>, r'': multiset<FdTarget>)
    requires Kept(files, pipes, files', pipes', r) && Kept(files', pipes', files'', pipes'', r')
    requires forall t: FdTarget :: Counted(t) && t in r'' ==> t in r && t in r'
    ensures Kept(files, pipes, files'', pipes'', r'')
  {
  }

  // ----- Taking and dropping one reference -----

  /** The table entry of a target exists and is in use. */
  predicate Usable(files: seq<OpenFile>, pipes: seq<Pipe>, t: FdTarget)
    requires |files| == MAX_OPEN_FILES && |pipes| == MAX_PIPES
  {
    match t
    case Empty => false
    case Open(i) => i < MAX_OPEN_FILES && files[i].inUse
    case PipeRead(i) => i < MAX_PIPES && pipes[i].inUse
    case PipeWrite(i) => i < MAX_PIPES && pipes[i].inUse
    case _ => true
  }

  function Taken(t: FdTarget, files: seq<OpenFile>, pipes: seq<Pipe>): (r: (seq<OpenFile>, seq<Pipe>))
    requires |files| == MAX_OPEN_FILES && |pipes| == MAX_PIPES && Usable(files, pipes, t)
    ensures |r.0| == |files| && |r.1| == |pipes|
  {
    match t
    case Open(i) => (files[i := files[i].(refs := files[i].refs + 1)], pipes)
    case PipeRead(i) => (files, pipes[i := pipes[i].(readRefs := pipes[i].readRefs + 1)])
    case PipeWrite(i) => (files, pipes[i := pipes[i].(writeRefs := pipes[i].writeRefs + 1)])
    case _ => (files, pipes)
  }

  /** A target that is named by someone can be retained, and the new reference is backed. */
  lemma TakeRef(t: FdTarget, files: seq<OpenFile>, pipes: seq<Pipe>, r: multiset<FdTarget>)
    requires Backed(files, pipes, r) && t in r && !t.Empty?
    ensures Usable(files, pipes, t)
    ensures var (f, p) := Taken(t, files, pipes); Backed(f, p, r + multiset{t}) && Kept(files, pipes, f, p, r)
    ensures var (f, p) := Taken(t, files, pipes); Exact(files, pipes, r) <==> Exact(f, p, r + multiset{t})
  {
    hide Backed, Kept, Exact;
    TakenBacked(t, files, pipes, r);
    TakenKept(t, files, pipes, r);
    TakenExact(t, files, pipes, r);
  }

  lemma TakenBacked(t: FdTarget, files: seq<OpenFile>, pipes: seq<Pipe>, r: multiset<FdTarget>)
    requires Backed(files, pipes, r) && t in r && !t.Empty?
    ensures Usable(files, pipes, t)
    ensures var (f, p) := Taken(t, files, pipes); Backed(f, p, r + multiset{t})
  {
  }

  lemma TakenKept(t: FdTarget, files: seq<OpenFile>, pipes: seq<Pipe>, r: multiset<FdTarget>)
    requires |files| == MAX_OPEN_FILES && |pipes| == MAX_PIPES && Usable(files, pipes, t)
    ensures var (f, p) := Taken(t, files, pipes); Kept(files, pipes, f, p, r)
  {
  }

  lemma TakenExact(t: FdTarget, files: seq<OpenFile>, pipes: seq<Pipe>, r: multiset<FdTarget>)
    requires Backed(files, pipes, r) && t in r && !t.Empty?
    ensures var (f, p) := Taken(t, files, pipes); Exact(files, pipes, r) <==> Exact(f, p, r + multiset{t})
  {
  }

  function DropFile(f: OpenFile): OpenFile { if f.refs > 1 then f.(refs := f.refs - 1) else NO_FILE }

  function DropPipe(p: Pipe): Pipe { if p.readRefs == 0 && p.writeRefs == 0 then NO_PIPE else p }

  function Minus(n: nat): nat { if n > 0 then n - 1 else 0 }

  function Dropped(t: FdTarget, files: seq<OpenFile>, pipes: seq<Pipe>): (r: (seq<OpenFile>, seq<Pipe>))
    requires |files| == MAX_OPEN_FILES && |pipes| == MAX_PIPES && Usable(files, pipes, t)
    ensures |r.0| == |files| && |r.1| == |pipes|
  {
    match t
    case Open(i) => (files[i := DropFile(files[i])], pipes)
    case PipeRead(i) => (files, pipes[i := DropPipe(pipes[i].(readRefs := Minus(pipes[i].readRefs)))])
    case PipeWrite(i) => (files, pipes[i := DropPipe(pipes[i].(writeRefs := Minus(pipes[i].writeRefs)))])
    case _ => (files, pipes)
  }

  /** Dropping a reference frees an entry only when nobody names it any more. */
  lemma DropRef(t: FdTarget, files: seq<OpenFile>, pipes: seq<Pipe>, r: multiset<FdTarget>)
    requires Backed(files, pipes, r) && t in r && !t.Empty?
    ensures Usable(files, pipes, t)
    ensures var (f, p) := Dropped(t, files, pipes); Backed(f, p, r - multiset{t}) && Kept(files, pipes, f, p, r - multiset{t})
    ensures var (f, p) := Dropped(t, files, pipes); Exact(files, pipes, r) <==> Exact(f, p, r - multiset{t})
  {
    hide Backed, Kept, Exact;
    DroppedBacked(t, files, pipes, r);
    DroppedExact(t, files, pipes, r);
  }

  lemma DroppedBacked(t: FdTarget, files: seq<OpenFile>, pipes: seq<Pipe>, r: multiset<FdTarget>)
    requires Backed(files, pipes, r) && t in r && !t.Empty?
    ensures Usable(files, pipes, t)
    ensures var (f, p) := Dropped(t, files, pipes); Backed(f, p, r - multiset{t}) && Kept(files, pipes, f, p, r - multiset{t})
  {
  }

  lemma DroppedExact(t: FdTarget, files: seq<OpenFile>, pipes: seq<Pipe>, r: multiset<FdTarget>)
    requires Backed(files, pipes, r) && t in r && !t.Empty?
    ensures var (f, p) := Dropped(t, files, pipes); Exact(files, pipes, r) <==> Exact(f, p, r - multiset{t})
  {
  }

  datatype ReadOutcome = NotReadable | WouldBlock | Got(bytes: seq<byte>)

  ghost predicate Apart(rs: seq<Ring>) {
    forall i, j :: 0 <= i < j < |rs| ==> rs[i] != rs[j] && rs[i].buf != rs[j].buf
  }

  lemma NoneApart()
    ensures Apart([])
  {
  }

  lemma Longer(rs: seq<Ring>, r: Ring)
    requires Apart(rs) && forall i :: 0 <= i < |rs| ==> rs[i] != r && rs[i].buf != r.buf
    ensures Apart(rs + [r])
  {
  }

  method MakeRings() returns (made: seq<Ring>)
    ensures |made| == MAX_PIPES && fresh(made) && fresh(set r | r in made :: r.buf)
    ensures Apart(made)
    ensures forall i :: 0 <= i < |made| ==> made[i].Valid() && made[i].accepted == [] == made[i].delivered
  {
    hide Ring.Valid, Apart;
    made := [];
    NoneApart();
    while |made| < MAX_PIPES
      invariant |made| <= MAX_PIPES && fresh(made) && fresh(set r | r in made :: r.buf)
      invariant Apart(made)
      invariant forall i :: 0 <= i < |made| ==> made[i].Valid() && made[i].accepted == [] == made[i].delivered
      decreases MAX_PIPES - |made|
    {
      var r := new Ring();
      assert forall i :: 0 <= i < |made| ==> made[i] != r && made[i].buf != r.buf;
      Longer(made, r);
      made := made + [r];
    }
  }

  class Tables {
    var current: Option<nat>        // group slot of the running thread, if there is one
    var procs: seq<Option<Process>>
    var files: seq<OpenFile>
    var pipes: seq<Pipe>
    const rings: seq<Ring>

    constructor ()
      ensures Valid() && Tidy() && current.None? && fresh(rings) && fresh(Bufs())
      ensures forall i :: 0 <= i < MAX_PROCESSES ==> procs[i].None?
      ensures forall i :: 0 <= i < MAX_OPEN_FILES ==> files[i] == NO_FILE
      ensures forall i :: 0 <= i < MAX_PIPES ==> rings[i].accepted == [] == rings[i].delivered
    {
      hide Ring.Valid, Backed, Exact, Held;
      var made := MakeRings();
      current := None;
      procs := seq(MAX_PROCESSES, _ => None);
      files := seq(MAX_OPEN_FILES, _ => NO_FILE);
      pipes := seq(MAX_PIPES, _ => NO_PIPE);
      rings := made;
      new;
      HeldNone(procs);
      EmptyTables(files, pipes);
    }

    ghost predicate Shape()
      reads this
    {
      && (current.Some? ==> current.value < MAX_PROCESSES)
      && |procs| == MAX_PROCESSES && (forall i :: 0 <= i < MAX_PROCESSES ==> ProcessOk(procs[i]))
      && |files| == MAX_OPEN_FILES && |pipes| == MAX_PIPES && |rings| == MAX_PIPES
    }

    /** No descriptor of any process dangles. */
    ghost predicate Sound()
      reads this
    {
      Shape() && Backed(files, pipes, Held(procs))
    }

    ghost predicate Tidy()
      reads this
    {
      Exact(files, pipes, Held(procs))
    }

    /** The arrays of the pipe rings. */
    ghost function Bufs(): set<object> { set r | r in rings :: r.buf }

    ghost predicate RingsApart() {
      && |rings| == MAX_PIPES
      && Apart(rings)
    }

    ghost predicate RingsOk()
      reads rings, Bufs()
    {
      RingsApart() && forall i :: 0 <= i < |rings| ==> rings[i].Valid()
    }

    ghost predicate Valid()
      reads this, rings, Bufs()
    {
      Sound() && RingsApart() && RingsOk()
    }

    predicate HasProcess()
      requires Shape()
      reads this
    {
      current.Some? && procs[current.value].Some?
    }

    function Fds(): seq<FdTarget>
      requires Shape() && HasProcess()
      reads this
    {
      procs[current.value].value.fds
    }

    // ----- Counting -----

    method Retain(t: FdTarget) returns (ok: bool)
      requires Shape()
      modifies this`files, this`pipes
      ensures ok == Usable(old(files), old(pipes), t)
      ensures (files, pipes) == if ok then Taken(t, old(files), old(pipes)) else (old(files), old(pipes))
    {
      match t {
        case Empty => return false;
        case Open(i) =>
          if i >= MAX_OPEN_FILES || !files[i].inUse { return false; }
          files := files[i := files[i].(refs := files[i].refs + 1)];
        case PipeRead(i) =>
          if i >= MAX_PIPES || !pipes[i].inUse { return false; }
          pipes := pipes[i := pipes[i].(readRefs := pipes[i].readRefs + 1)];
        case PipeWrite(i) =>
          if i >= MAX_PIPES || !pipes[i].inUse { return false; }
          pipes := pipes[i := pipes[i].(writeRefs := pipes[i].writeRefs + 1)];
        case _ =>
      }
      return true;
    }

    method Release(t: FdTarget)
      requires Shape()
      modifies this`files, this`pipes
      ensures (files, pipes) == if Usable(old(files), old(pipes), t) then Dropped(t, old(files), old(pipes)) else (old(files), old(pipes))
    {
      match t {
        case Open(i) =>
          if i < MAX_OPEN_FILES && files[i].inUse {
            files := files[i := if files[i].refs > 1 then files[i].(refs := files[i].refs - 1) else NO_FILE];
          }
        case PipeRead(i) =>
          if i < MAX_PIPES && pipes[i].inUse {
            var p := pipes[i];
            if p.readRefs > 0 { p := p.(readRefs := p.readRefs - 1); }
            if p.readRefs == 0 && p.writeRefs == 0 { p := NO_PIPE; }
            pipes := pipes[i := p];
          }
        case PipeWrite(i) =>
          if i < MAX_PIPES && pipes[i].inUse {
            var p := pipes[i];
            if p.writeRefs > 0 { p := p.(writeRefs := p.writeRefs - 1); }
            if p.readRefs == 0 && p.writeRefs == 0 { p := NO_PIPE; }
            pipes := pipes[i := p];
          }
        case _ =>
      }
    }

    // ----- Descriptors -----

    /** The current process's table after one entry has been set. */
    method SetFd(fd: nat, t: FdTarget, flags: nat)
      requires Shape() && HasProcess() && fd < MAX_FDS
      modifies this`procs
      ensures Shape() && HasProcess()
      ensures procs == old(procs)[current.value := Some(WithFd(old(procs)[current.value].value, fd, t, flags))]
      ensures old(Fds())[fd] in Held(old(procs))
      ensures Held(procs) == Held(old(procs)) - multiset{old(Fds())[fd]} + multiset{t}
    {
      hide Held, WithFd;
      HeldFd(procs, current.value, fd, t, flags);
      FdShape(procs[current.value].value, fd, t, flags);
      procs := procs[current.value := Some(WithFd(procs[current.value].value, fd, t, flags))];
    }

    method FindEmpty(from: nat) returns (fd: Option<nat>)
      requires Shape() && HasProcess()
      ensures fd.Some? ==> IsLowestEmpty(Fds(), from, fd.value)
      ensures fd.None? ==> NoneEmpty(Fds(), from)
    {
      var k := from;
      while k < MAX_FDS
        invariant from <= k && forall j :: from <= j < k && j < MAX_FDS ==> !Fds()[j].Empty?
      {
        if Fds()[k].Empty? { return Some(k); }
        k := k + 1;
      }
      return None;
    }

    /** alloc_specific_fd: the lowest empty descriptor from 3 on. */
    method AllocFd(t: FdTarget, flags: nat) returns (fd: Option<nat>)
      requires Shape()
      modifies this`procs
      ensures Shape() && old(HasProcess()) == HasProcess()
      ensures fd.None? ==> procs == old(procs) && (HasProcess() ==> NoneEmpty(Fds(), 3))
      ensures fd.Some? ==> HasProcess() && fd.value < MAX_FDS && old(Fds())[fd.value].Empty? && IsLowestEmpty(old(Fds()), 3, fd.value)
      ensures fd.Some? ==> procs == old(procs)[current.value := Some(WithFd(old(procs)[current.value].value, fd.value, t, flags))]
      ensures fd.Some? ==> Held(procs) == Held(old(procs)) - multiset{Empty} + multiset{t}
    {
      if !HasProcess() { return None; }
      fd := FindEmpty(3);
      if fd.Some? { SetFd(fd.value, t, flags); }
    }

    /** close_fd: the reference goes with the descriptor. */
    method CloseFd(fd: nat) returns (ok: bool)
      requires Sound()
      modifies this`procs, this`files, this`pipes
      ensures Sound() && (Tidy() <==> old(Tidy()))
      ensures ok == (old(HasProcess()) && fd < MAX_FDS && !old(Fds())[fd].Empty?)
      ensures !ok ==> procs == old(procs) && files == old(files) && pipes == old(pipes)
      ensures ok ==> procs == old(procs)[current.value := Some(WithFd(old(procs)[current.value].value, fd, Empty, 0))]
      ensures ok ==> Usable(old(files), old(pipes), old(Fds())[fd]) && (files, pipes) == Dropped(old(Fds())[fd], old(files), old(pipes))
      ensures Kept(old(files), old(pipes), files, pipes, Held(procs))
    {
      hide Backed, Exact, Kept, Held, WithFd, Dropped;
      KeptSame(files, pipes, Held(procs));
      if !HasProcess() || fd >= MAX_FDS { return false; }
      var t := Fds()[fd];
      if t.Empty? { return false; }
      ghost var h := Held(procs);
      SetFd(fd, Empty, 0);
      DropRef(t, files, pipes, h);
      Release(t);
      Bystanders(files, pipes, h - multiset{t}, Held(procs));
      KeptBystanders(old(files), old(pipes), files, pipes, h - multiset{t}, Held(procs));
      return true;
    }

    /** Empties a descriptor that is about to be overwritten, leaving its flags. */
    method Vacate(fd: nat)
      requires Sound() && HasProcess() && fd < MAX_FDS
      modifies this`procs, this`files, this`pipes
      ensures Sound() && (Tidy() <==> old(Tidy())) && HasProcess()
      ensures procs == old(procs)[current.value := Some(WithFd(old(procs)[current.value].value, fd, Empty, old(procs)[current.value].value.fdFlags[fd]))]
      ensures Kept(old(files), old(pipes), files, pipes, Held(procs))
    {
      hide Backed, Exact, Kept, Held, WithFd, Dropped;
      ghost var h := Held(procs);
      KeptSame(files, pipes, h);
      var t := Fds()[fd];
      if !t.Empty? {
        SetFd(fd, Empty, procs[current.value].value.fdFlags[fd]);
        DropRef(t, files, pipes, h);
        Release(t);
        Bystanders(files, pipes, h - multiset{t}, Held(procs));
        KeptBystanders(old(files), old(pipes), files, pipes, h - multiset{t}, Held(procs));
      } else {
        SameFd(procs[current.value].value, fd);
        assert procs == procs[current.value := procs[current.value]];
      }
    }

    method DupOnto(oldFd: nat, dest: nat, flags: nat)
      requires Sound() && HasProcess() && oldFd < MAX_FDS && dest < MAX_FDS && oldFd != dest && !Fds()[oldFd].Empty?
      modifies this`procs, this`files, this`pipes
      ensures Sound() && (Tidy() <==> old(Tidy()))
      ensures procs == old(procs)[current.value := Some(WithFd(old(procs)[current.value].value, dest, old(Fds())[oldFd], flags))]
      ensures Kept(old(files), old(pipes), files, pipes, Held(procs))
    {
      hide Backed, Exact, Kept, Held, WithFd, Taken, SameCounts;
      var t := Fds()[oldFd];
      ghost var p := procs[current.value].value;
      FdAt(p, dest, Empty, p.fdFlags[dest], t, flags);
      Vacate(dest);
      ghost var h, files1, pipes1 := Held(procs), files, pipes;
      HeldBy(procs, current.value, oldFd);
      TakeRef(t, files, pipes, h);
      var ok := Retain(t);
      SetFd(dest, t, flags);
      OneMore(h, t, Held(procs));
      Bystanders(files, pipes, h + multiset{t}, Held(procs));
      KeptTwice(old(files), old(pipes), files1, pipes1, files, pipes, h, h, Held(procs));
    }

    /** dup_fd: onto a given descriptor, closing what it named, or onto the lowest empty one. */
    method DupFd(oldFd: nat, minFd: nat, newFd: Option<nat>, cloexec: bool) returns (fd: Option<nat>)
      requires Sound()
      modifies this`procs, this`files, this`pipes
      ensures Sound() && (Tidy() <==> old(Tidy()))
      ensures fd.Some? <==>
                && old(HasProcess()) && oldFd < MAX_FDS && !old(Fds())[oldFd].Empty?
                && (newFd.Some? ==> newFd.value < MAX_FDS) && (newFd.None? ==> !NoneEmpty(old(Fds()), minFd))
      ensures fd.Some? && newFd.Some? ==> fd == newFd
      ensures fd.Some? && newFd.None? ==> IsLowestEmpty(old(Fds()), minFd, fd.value)
      ensures fd.None? || fd == Some(oldFd) ==> procs == old(procs) && files == old(files) && pipes == old(pipes)
      ensures fd.Some? && fd.value != oldFd ==>
                fd.value < MAX_FDS &&
                procs == old(procs)[current.value := Some(WithFd(old(procs)[current.value].value, fd.value, old(Fds())[oldFd],
                                                                 if cloexec then FD_CLOEXEC else 0))]
      ensures Kept(old(files), old(pipes), files, pipes, Held(procs))
    {
      hide Backed, Exact, Kept, Held, WithFd;
      KeptSame(files, pipes, Held(procs));
      if !HasProcess() || oldFd >= MAX_FDS { return None; }
      if Fds()[oldFd].Empty? { return None; }
      if newFd.Some? {
        if newFd.value >= MAX_FDS { return None; }
        if newFd.value == oldFd { return newFd; }
        fd := newFd;
      } else {
        fd := FindEmpty(minFd);
        if fd.None? { return None; }
      }
      DupOnto(oldFd, fd.value, if cloexec then FD_CLOEXEC else 0);
    }

    // ----- Open files -----

    method FindFile() returns (i: nat)
      requires Shape()
      ensures i <= MAX_OPEN_FILES && (forall j :: 0 <= j < i ==> files[j].inUse) && (i < MAX_OPEN_FILES ==> !files[i].inUse)
    {
      i := 0;
      while i < MAX_OPEN_FILES && files[i].inUse
        invariant i <= MAX_OPEN_FILES && forall j :: 0 <= j < i ==> files[j].inUse
      {
        i := i + 1;
      }
    }

    /** open_file: a new open file named by the lowest empty descriptor. */
    method OpenFd(fileIdx: nat, statusFlags: nat) returns (fd: Option<nat>)
      requires Sound()
      modifies this`procs, this`files, this`pipes
      ensures Sound() && old(HasProcess()) == HasProcess() && pipes == old(pipes)
      ensures Tidy() <==> old(Tidy()) && (HasProcess() || forall i :: 0 <= i < MAX_OPEN_FILES ==> old(files)[i].inUse)
      ensures fd.Some? ==> HasProcess() && IsLowestEmpty(old(Fds()), 3, fd.value)
      ensures fd.Some? ==>
                exists i: nat :: i < MAX_OPEN_FILES && !old(files)[i].inUse && Open(i) !in Held(old(procs))
                  && files == old(files)[i := OpenFile(fileIdx, 0, statusFlags, 1, true)]
                  && procs == old(procs)[current.value := Some(WithFd(old(procs)[current.value].value, fd.value, Open(i), 0))]
      ensures fd.None? ==> procs == old(procs)
      ensures fd.None? && (HasProcess() || forall i :: 0 <= i < MAX_OPEN_FILES ==> old(files)[i].inUse) ==> files == old(files)
      ensures !HasProcess() && !(forall i :: 0 <= i < MAX_OPEN_FILES ==> old(files)[i].inUse) ==>
                exists i: nat :: i < MAX_OPEN_FILES && !old(files)[i].inUse && files == old(files)[i := OpenFile(fileIdx, 0, statusFlags, 1, true)]
      ensures fd.None? && HasProcess() ==> NoneEmpty(Fds(), 3) || forall i :: 0 <= i < MAX_OPEN_FILES ==> old(files)[i].inUse
      ensures Kept(old(files), old(pipes), files, pipes, Held(old(procs)))
    {
      hide Backed, Exact, Kept, Held, WithFd, SameCounts, IsLowestEmpty, NoneEmpty;
      ghost var h := Held(procs);
      KeptSame(files, pipes, h);
      var i := FindFile();
      if i == MAX_OPEN_FILES { return None; }
      files := files[i := OpenFile(fileIdx, 0, statusFlags, 1, true)];
      ghost var files1 := files;
      NewFile(old(files), pipes, h, i, fileIdx, statusFlags);
      if !HasProcess() {
        Leaked(old(files), pipes, h, i, fileIdx, statusFlags);
        return None;
      }
      fd := AllocFd(Open(i), 0);
      if fd.Some? {
        HeldEmpty(old(procs), current.value, fd.value);
        NamedFile(files, pipes, h, i, Held(procs));
      } else {
        Unnamed(files, pipes, h, i);
        UnusedBlank(old(files), pipes, h, i);
        Release(Open(i));
        assert files == old(files);
        KeptTwice(old(files), old(pipes), files1, pipes, files, pipes, h, h, h);
      }
    }

    // ----- Pipes -----

    /** Names both ends of a new pipe, or neither. */
    method NameEnds(i: nat, ghost h: multiset<FdTarget>) returns (ends: Option<(nat, nat)>)
      requires Shape() && h == Held(procs) && i < MAX_PIPES && PipeRead(i) !in h && PipeWrite(i) !in h
      requires Backed(files, pipes, h + multiset{PipeRead(i), PipeWrite(i)})
      modifies this`procs, this`files, this`pipes
      ensures Shape() && files == old(files) && old(HasProcess()) == HasProcess()
      ensures ends.Some? ==> pipes == old(pipes) && SameCounts(h + multiset{PipeRead(i), PipeWrite(i)}, Held(procs))
      ensures ends.Some? ==> HasProcess() && IsLowestEmpty(old(Fds()), 3, ends.value.0) && ends.value.0 < ends.value.1 < MAX_FDS
      ensures ends.Some? ==> old(Fds())[ends.value.1].Empty? && forall k :: ends.value.0 < k < ends.value.1 ==> !old(Fds())[k].Empty?
      ensures ends.Some? ==> Fds() == old(Fds())[ends.value.0 := PipeRead(i)][ends.value.1 := PipeWrite(i)]
      ensures ends.None? ==> SameCounts(h, Held(procs)) && pipes[i := NO_PIPE] == old(pipes)[i := NO_PIPE]
      ensures ends.None? && HasProcess() ==> Fds() == old(Fds()) && AtMostOneEmpty(Fds(), 3)
      ensures ends.None? ==> procs == old(procs) || (HasProcess() && Touched(old(procs), current.value, procs))
      ensures forall j :: 0 <= j < MAX_PROCESSES && Some(j) != current ==> procs[j] == old(procs)[j]
    {
      hide Backed, Exact, Kept, Held, WithFd, SameCounts, IsLowestEmpty, Touched, AtMostOneEmpty, NoneEmpty;
      SameCountsSelf(h);
      var rd := AllocFd(PipeRead(i), 0);
      if rd.None? {
        if HasProcess() { NotTwo(Fds()); }
        return None;
      }
      ghost var h1, ps, p0 := Held(procs), procs, old(procs)[current.value].value;
      HeldEmpty(old(procs), current.value, rd.value);
      FdAt(p0, rd.value, PipeRead(i), 0, Empty, 0);
      HalfNamed(files, pipes, h, h1, i);
      var wr := NameWrite(i, rd.value);
      Named(h, h1, Held(procs), i, wr.Some?);
      if wr.None? {
        GivenUp(old(procs), current.value, rd.value, PipeRead(i), ps, procs);
        return None;
      }
      NextEmpty(p0.fds, rd.value, PipeRead(i), wr.value);
      return Some((rd.value, wr.value));
    }

    /** Names the write end too, or gives up the read end again. */
    method NameWrite(i: nat, rd: nat) returns (wr: Option<nat>)
      requires Sound() && HasProcess() && i < MAX_PIPES && rd < MAX_FDS && Fds()[rd] == PipeRead(i)
      modifies this`procs, this`files, this`pipes
      ensures Shape() && HasProcess() && files == old(files)
      ensures wr.Some? ==> pipes == old(pipes) && IsLowestEmpty(old(Fds()), 3, wr.value) && Fds() == old(Fds())[wr.value := PipeWrite(i)]
      ensures wr.Some? ==> Empty in Held(old(procs)) && Held(procs) == Held(old(procs)) - multiset{Empty} + multiset{PipeWrite(i)}
      ensures wr.None? ==> pipes[i := NO_PIPE] == old(pipes)[i := NO_PIPE] && Fds() == old(Fds())[rd := Empty]
      ensures wr.None? ==> Held(procs) == Held(old(procs)) - multiset{PipeRead(i)} + multiset{Empty}
      ensures wr.None? ==> NoneEmpty(old(Fds()), 3)
      ensures wr.None? ==> procs == old(procs)[current.value := Some(WithFd(old(procs)[current.value].value, rd, Empty, 0))]
      ensures forall j :: 0 <= j < MAX_PROCESSES && Some(j) != current ==> procs[j] == old(procs)[j]
    {
      hide Backed, Exact, Kept, Held, WithFd;
      ghost var p := procs[current.value].value;
      wr := AllocFd(PipeWrite(i), 0);
      if wr.Some? {
        HeldEmpty(old(procs), current.value, wr.value);
        FdAt(p, wr.value, PipeWrite(i), 0, Empty, 0);
      } else {
        FdAt(p, rd, Empty, 0, Empty, 0);
        HeldFd(procs, current.value, rd, Empty, 0);
        var ok := CloseFd(rd);
      }
    }

    method ResetRing(i: nat)
      requires RingsOk() && i < MAX_PIPES
      modifies rings[i], rings[i].buf
      ensures RingsOk() && rings[i].len == 0 && rings[i].accepted == [] && rings[i].delivered == []
    {
      rings[i].Reset();
    }

    /** The entry the next pipe goes to. */
    method FindPipe() returns (i: nat)
      requires Shape()
      ensures IsFreePipe(pipes, i)
    {
      i := 0;
      while i < MAX_PIPES && pipes[i].inUse
        invariant i <= MAX_PIPES && forall j :: 0 <= j < i ==> pipes[j].inUse
      {
        i := i + 1;
      }
    }

    /** A free entry becomes a pipe that two descriptors name, or stays as it was. */
    method InstallPipe(i: nat) returns (ends: Option<(nat, nat)>)
      requires Sound() && i < MAX_PIPES && !pipes[i].inUse
      modifies this`procs, this`files, this`pipes
      ensures Sound() && (Tidy() <==> old(Tidy())) && files == old(files) && old(HasProcess()) == HasProcess()
      ensures PipeRead(i) !in Held(old(procs)) && PipeWrite(i) !in Held(old(procs))
      ensures ends.Some? <==> old(HasProcess()) && !AtMostOneEmpty(old(Fds()), 3)
      ensures ends.Some? ==> HasProcess() && IsLowestEmpty(old(Fds()), 3, ends.value.0) && ends.value.0 < ends.value.1 < MAX_FDS
      ensures ends.Some? ==> old(Fds())[ends.value.1].Empty? && forall k :: ends.value.0 < k < ends.value.1 ==> !old(Fds())[k].Empty?
      ensures ends.Some? ==> Fds() == old(Fds())[ends.value.0 := PipeRead(i)][ends.value.1 := PipeWrite(i)]
      ensures ends.Some? ==> pipes == old(pipes)[i := Pipe(1, 1, 0, 0, true)]
      ensures ends.None? ==> pipes == old(pipes) && (procs == old(procs) || (HasProcess() && Touched(old(procs), current.value, procs)))
      ensures ends.None? && HasProcess() ==> Fds() == old(Fds())
      ensures forall j :: 0 <= j < MAX_PROCESSES && Some(j) != current ==> procs[j] == old(procs)[j]
      ensures Kept(old(files), old(pipes), files, pipes, Held(old(procs)))
    {
      hide Backed, Exact, Kept, Held, WithFd, SameCounts, IsLowestEmpty, AtMostOneEmpty, Touched;
      ghost var h := Held(procs);
      NewPipe(files, pipes, h, i);
      ClearPipe(files, pipes, h, i);
      pipes := pipes[i := Pipe(1, 1, 0, 0, true)];
      ghost var ps := pipes;
      ends := NameEnds(i, h);
      if ends.None? {
        KeptSame(files, old(pipes), h);
        assert ps[i := NO_PIPE] == old(pipes)[i := NO_PIPE];
        pipes := pipes[i := NO_PIPE];
        Bystanders(files, pipes, h, Held(procs));
      } else {
        TwoEmpty(old(Fds()), ends.value.0, ends.value.1);
        Bystanders(files, pipes, h + multiset{PipeRead(i), PipeWrite(i)}, Held(procs));
      }
    }

    /** alloc_pipe: both ends or nothing. */
    method AllocPipe() returns (ends: Option<(nat, nat)>)
      requires Valid()
      modifies this`procs, this`files, this`pipes, rings, Bufs()
      ensures Valid() && (Tidy() <==> old(Tidy())) && files == old(files) && old(HasProcess()) == HasProcess()
      ensures ends.Some? <==> old(HasProcess()) && !AtMostOneEmpty(old(Fds()), 3) && !IsFreePipe(old(pipes), MAX_PIPES)
      ensures ends.Some? ==>
                && HasProcess() && IsLowestEmpty(old(Fds()), 3, ends.value.0) && ends.value.0 < ends.value.1 < MAX_FDS
                && old(Fds())[ends.value.1].Empty? && (forall k :: ends.value.0 < k < ends.value.1 ==> !old(Fds())[k].Empty?)
                && exists i: nat :: IsFreePipe(old(pipes), i) && i < MAX_PIPES
                     && Fds() == old(Fds())[ends.value.0 := PipeRead(i)][ends.value.1 := PipeWrite(i)]
                     && pipes == old(pipes)[i := Pipe(1, 1, 0, 0, true)]
      ensures ends.None? ==> pipes == old(pipes) && (procs == old(procs) || (HasProcess() && Touched(old(procs), current.value, procs)))
      ensures ends.None? && HasProcess() ==> Fds() == old(Fds())
      ensures forall j :: 0 <= j < MAX_PROCESSES && Some(j) != current ==> procs[j] == old(procs)[j]
      ensures Kept(old(files), old(pipes), files, pipes, Held(old(procs)))
      ensures forall i: nat :: i < MAX_PIPES && IsFreePipe(old(pipes), i) ==>
                && PipeRead(i) !in Held(old(procs)) && PipeWrite(i) !in Held(old(procs))
                && rings[i].len == 0 && rings[i].accepted == [] && rings[i].delivered == []
      ensures forall i: nat :: i < MAX_PIPES && !IsFreePipe(old(pipes), i) ==> unchanged(rings[i]) && unchanged(rings[i].buf)
    {
      hide Backed, Exact, Kept, Held, Ring.Valid, IsLowestEmpty, AtMostOneEmpty, Touched;
      KeptSame(files, pipes, Held(procs));
      var i := FindPipe();
      if i == MAX_PIPES { return None; }
      ResetRing(i);
      ends := InstallPipe(i);
    }

    /** open_char_device: terminals and the null and zero devices are not counted. */
    method OpenDevice(t: FdTarget) returns (fd: Option<nat>)
      requires Sound()
      modifies this`procs
      ensures Sound() && (Tidy() <==> old(Tidy())) && old(HasProcess()) == HasProcess()
      ensures fd.Some? ==> (t.Tty? || t.Null? || t.Zero?) && HasProcess() && IsLowestEmpty(old(Fds()), 3, fd.value)
      ensures fd.Some? ==> procs == old(procs)[current.value := Some(WithFd(old(procs)[current.value].value, fd.value, t, 0))]
      ensures fd.None? ==> procs == old(procs) && (!(t.Tty? || t.Null? || t.Zero?) || !HasProcess() || NoneEmpty(Fds(), 3))
    {
      hide Backed, Exact, Held, WithFd, IsLowestEmpty, NoneEmpty;
      if !(t.Tty? || t.Null? || t.Zero?) { return None; }
      ghost var h := Held(procs);
      fd := AllocFd(t, 0);
      if fd.Some? {
        HeldEmpty(old(procs), current.value, fd.value);
        Bystanders(files, pipes, h, Held(procs));
      }
    }

    // ----- Processes -----

    /** fork_current: the child names everything the parent names; each name is counted again. */
    method Fork(slot: nat) returns (ok: bool)
      requires Sound() && slot < MAX_PROCESSES
      modifies this`procs, this`files, this`pipes
      ensures Sound() && ok == old(HasProcess())
      ensures !ok ==> procs == old(procs) && files == old(files) && pipes == old(pipes)
      ensures ok ==> procs == old(procs)[slot := Some(Process(old(Fds()), old(procs)[current.value].value.fdFlags, false, 0))]
      ensures Tidy() <==> old(Tidy()) && (ok ==> NamesNothing(old(procs)[slot]))
      ensures Kept(old(files), old(pipes), files, pipes, Held(procs))
    {
      hide Backed, Exact, Kept, Held, Taken, NamesNothing;
      ghost var h := Held(procs);
      KeptSame(files, pipes, h);
      if !HasProcess() { return false; }
      var parent := procs[current.value].value;
      ghost var r := h;
      for k := 0 to MAX_FDS
        invariant Shape() && procs == old(procs)
        invariant r == h + multiset(parent.fds[..k])
        invariant Backed(files, pipes, r) && (Exact(files, pipes, r) <==> old(Tidy()))
        invariant Kept(old(files), old(pipes), files, pipes, h)
      {
        var t := parent.fds[k];
        HeldBy(procs, current.value, k);
        assert parent.fds[..k + 1] == parent.fds[..k] + [t];
        ghost var files1, pipes1 := files, pipes;
        if !t.Empty? { TakeRef(t, files, pipes, r); }
        var counted := Retain(t);
        if t.Empty? { Bystanders(files, pipes, r, r + multiset{t}); KeptSame(files, pipes, r); }
        KeptTwice(old(files), old(pipes), files1, pipes1, files, pipes, h, r, h);
        r := r + multiset{t};
      }
      assert parent.fds[..MAX_FDS] == parent.fds;
      procs := procs[slot := Some(Process(parent.fds, parent.fdFlags, false, 0))];
      Overwrite(files, pipes, old(procs), slot, procs[slot].value);
      KeptForked(old(files), old(pipes), files, pipes, old(procs), current.value, slot, procs[slot].value);
      return true;
    }

    /** spawn_named: a fresh process with the three standard descriptors. */
    method Spawn(slot: nat)
      requires Sound() && slot < MAX_PROCESSES
      modifies this`procs
      ensures Sound() && procs == old(procs)[slot := Some(Process(DefaultFds(), seq(MAX_FDS, _ => 0), false, 0))]
      ensures Tidy() <==> old(Tidy()) && NamesNothing(old(procs)[slot])
    {
      hide Backed, Exact, Held, NamesNothing;
      var p := Process(DefaultFds(), seq(MAX_FDS, _ => 0), false, 0);
      procs := procs[slot := Some(p)];
      ghost var h := Held(old(procs));
      Bystanders(files, pipes, h, h + multiset(p.fds));
      Overwrite(files, pipes, old(procs), slot, p);
    }

    /** exit of the last thread: the process keeps its descriptors until it is reaped. */
    method Exit(code: int)
      requires Sound()
      modifies this`procs
      ensures Sound() && (Tidy() <==> old(Tidy()))
      ensures procs == if old(HasProcess()) then old(procs)[current.value := Some(old(procs)[current.value].value.(zombie := true, exitCode := code))]
                       else old(procs)
    {
      hide Backed, Exact, Held;
      if HasProcess() {
        var p := procs[current.value].value.(zombie := true, exitCode := code);
        HeldUpdate(procs, current.value, Some(p));
        procs := procs[current.value := Some(p)];
        Cancel(Held(procs), Held(old(procs)), multiset(p.fds));
      }
    }

    /** release_fds: drops one reference per descriptor. */
    method ReleaseFds(fds: seq<FdTarget>, ghost h: multiset<FdTarget>)
      requires Shape() && |fds| == MAX_FDS && Backed(files, pipes, h + multiset(fds))
      modifies this`files, this`pipes
      ensures Shape() && Backed(files, pipes, h) && (Exact(files, pipes, h) <==> old(Exact(files, pipes, h + multiset(fds))))
      ensures Kept(old(files), old(pipes), files, pipes, h)
    {
      hide Backed, Exact, Kept, Dropped, SameCounts;
      assert fds[0..] == fds;
      KeptSame(files, pipes, h);
      for k := 0 to MAX_FDS
        invariant Shape()
        invariant Backed(files, pipes, h + multiset(fds[k..]))
        invariant Exact(files, pipes, h + multiset(fds[k..])) <==> old(Exact(files, pipes, h + multiset(fds)))
        invariant Kept(old(files), old(pipes), files, pipes, h)
      {
        ghost var r, files1, pipes1 := h + multiset(fds[k..]), files, pipes;
        FrontName(h, fds, k);
        if !fds[k].Empty? { DropRef(fds[k], files, pipes, r); }
        Release(fds[k]);
        if fds[k].Empty? {
          OneEmpty(r);
          Bystanders(files, pipes, r, r - multiset{fds[k]});
          KeptSame(files, pipes, r - multiset{fds[k]});
        }
        KeptTwice(old(files), old(pipes), files1, pipes1, files, pipes, h, r - multiset{fds[k]}, h);
      }
      assert fds[MAX_FDS..] == [];
      assert h + multiset{} == h;
    }

    /** reap_slot: every name of a dead process is dropped with it. */
    method Reap(slot: nat) returns (code: Option<int>)
      requires Sound() && slot < MAX_PROCESSES
      modifies this`procs, this`files, this`pipes
      ensures Sound() && (Tidy() <==> old(Tidy()))
      ensures code == if old(procs)[slot].Some? && old(procs)[slot].value.zombie then Some(old(procs)[slot].value.exitCode) else None
      ensures code.None? ==> procs == old(procs) && files == old(files) && pipes == old(pipes)
      ensures code.Some? ==> procs == old(procs)[slot := None]
      ensures Kept(old(files), old(pipes), files, pipes, Held(procs))
    {
      hide Backed, Exact, Kept, Held;
      KeptSame(files, pipes, Held(procs));
      if procs[slot].None? || !procs[slot].value.zombie { return None; }
      var p := procs[slot].value;
      HeldUpdate(procs, slot, None);
      assert Held(procs) + multiset{} == Held(procs);
      ReleaseFds(p.fds, Held(procs[slot := None]));
      procs := procs[slot := None];
      return Some(p.exitCode);
    }

    // ----- Pipe data -----

    predicate IsWriteEnd(fd: nat)
      requires Shape()
      reads this
    {
      HasProcess() && fd < MAX_FDS && Fds()[fd].PipeWrite?
    }

    predicate IsReadEnd(fd: nat)
      requires Shape()
      reads this
    {
      HasProcess() && fd < MAX_FDS && Fds()[fd].PipeRead?
    }

    /** Writes to a pipe: as much as fits, in order; nothing once every read end is gone. */
    method WritePipe(fd: nat, src: seq<byte>) returns (n: Option<nat>)
      requires Valid()
      modifies rings, Bufs()
      ensures Valid() && (n.Some? <==> IsWriteEnd(fd))
      ensures n.Some? ==>
                var i := Fds()[fd].pipe;
                && i < MAX_PIPES
                && n.value == (if pipes[i].readRefs == 0 then 0 else Least(|src|, PIPE_CAPACITY - old(rings[i].len)))
                && rings[i].accepted == old(rings[i].accepted) + src[..n.value] && rings[i].delivered == old(rings[i].delivered)
      ensures forall j :: 0 <= j < MAX_PIPES && (n.None? || j != Fds()[fd].pipe) ==> unchanged(rings[j]) && unchanged(rings[j].buf)
    {
      hide Held;
      if !IsWriteEnd(fd) { return None; }
      HeldBy(procs, current.value, fd);
      var i := Fds()[fd].pipe;
      if pipes[i].readRefs == 0 { return Some(0); }
      var written := rings[i].Fill(src);
      return Some(written);
    }

    /** One pass of the read loop: the oldest bytes, end of file, or wait. */
    method ReadPipe(fd: nat, count: nat) returns (out: ReadOutcome)
      requires Valid()
      modifies rings, Bufs()
      ensures Valid() && (out.NotReadable? <==> !IsReadEnd(fd))
      ensures IsReadEnd(fd) ==> Fds()[fd].pipe < MAX_PIPES
      ensures out.WouldBlock? ==> rings[Fds()[fd].pipe].len == 0 && pipes[Fds()[fd].pipe].writeRefs > 0
      ensures out.Got? ==>
                var i := Fds()[fd].pipe;
                && |out.bytes| == Least(count, old(rings[i].len)) && (old(rings[i].len) == 0 ==> pipes[i].writeRefs == 0)
                && rings[i].delivered == old(rings[i].delivered) + out.bytes && rings[i].accepted == old(rings[i].accepted)
                && (count > 0 && out.bytes == [] ==> rings[i].len == 0 && pipes[i].writeRefs == 0)
                && (count > 0 && out.bytes == [] && Tidy() ==> PipeWrite(i) !in Held(procs))
      ensures forall j :: 0 <= j < MAX_PIPES && (!out.Got? || j != Fds()[fd].pipe) ==> unchanged(rings[j]) && unchanged(rings[j].buf)
    {
      hide Held;
      if !IsReadEnd(fd) { return NotReadable; }
      HeldBy(procs, current.value, fd);
      var i := Fds()[fd].pipe;
      if rings[i].len > 0 {
        var bytes := rings[i].Drain(count);
        return Got(bytes);
      }
      if pipes[i].writeRefs == 0 { return Got([]); }
      return WouldBlock;
    }

    // ----- Whole runs -----

    ghost function Now(): View
      reads this
    {
      View(current, procs, files, pipes)
    }

    ghost function State(): Moment
      reads this, rings
    {
      Moment(Now(), Written(), Read())
    }

    /** Everything written to each pipe since it was created, and everything read from it. */
    ghost function Written(): (a: seq<seq<byte>>)
      reads rings
      ensures |a| == |rings| && forall i :: 0 <= i < |rings| ==> a[i] == rings[i].accepted
    {
      seq(|rings|, i requires 0 <= i < |rings| reads rings => rings[i].accepted)
    }

    ghost function Read(): (d: seq<seq<byte>>)
      reads rings
      ensures |d| == |rings| && forall i :: 0 <= i < |rings| ==> d[i] == rings[i].delivered
    {
      seq(|rings|, i requires 0 <= i < |rings| reads rings => rings[i].delivered)
    }

    lemma Lengths()
      requires RingsOk()
      ensures forall i :: 0 <= i < MAX_PIPES ==> rings[i].delivered <= rings[i].accepted && rings[i].len <= PIPE_CAPACITY
      ensures forall i :: 0 <= i < MAX_PIPES ==> rings[i].len == |rings[i].accepted| - |rings[i].delivered|
    {
    }

    method PipeStep() returns (e: Effect)
      requires Valid()
      modifies this`procs, this`files, this`pipes, rings, Bufs()
      ensures Valid() && (Tidy() <==> old(Tidy())) && PipeMove(old(Now()), Now()) && Answers(old(Now()), old(Written()), old(Read()), PipeCall, e)
      ensures Written() == AllWritten(old(Written()), e) && Read() == AllRead(old(Read()), e)
    {
      hide Backed, Exact, Held, Kept, Ring.Valid, WithFd, Touched, Answers;
      var i := FindPipe();
      ghost var v := Now();
      var ends := AllocPipe();
      PipeAnswers(v, old(Written()), old(Read()), i);
      if ends.Some? {
        assert NamesEnds(v, Now(), i, ends.value.0, ends.value.1);
      }
      e := if i < MAX_PIPES then Created(i) else Quiet;
      Changed(old(Written()), old(Read()), e);
    }

    method WriteStep(call: Call) returns (e: Effect)
      requires Valid() && call.WriteCall?
      modifies rings, Bufs()
      ensures Valid() && Answers(Now(), old(Written()), old(Read()), call, e)
      ensures Written() == AllWritten(old(Written()), e) && Read() == AllRead(old(Read()), e)
    {
      hide Backed, Exact, Held, Ring.Valid, Answers, AllWritten, AllRead;
      Lengths();
      var n := WritePipe(call.fd, call.bytes);
      e := if n.Some? then Wrote(Fds()[call.fd].pipe, call.bytes[..n.value]) else Quiet;
      WriteAnswers(Now(), old(Written()), old(Read()), call, if n.Some? then n.value else 0);
      Changed(old(Written()), old(Read()), e);
    }

    method ReadStep(call: Call) returns (e: Effect)
      requires Valid() && call.ReadCall?
      modifies rings, Bufs()
      ensures Valid() && Answers(Now(), old(Written()), old(Read()), call, e)
      ensures Written() == AllWritten(old(Written()), e) && Read() == AllRead(old(Read()), e)
    {
      hide Backed, Exact, Held, Ring.Valid;
      Lengths();
      var out := ReadPipe(call.fd, call.count);
      Lengths();
      e := if out.Got? then Took(Fds()[call.fd].pipe, out.bytes) else Quiet;
      Changed(old(Written()), old(Read()), e);
    }

    method OpenStep(call: Call)
      requires Sound() && call.OpenCall?
      modifies this`procs, this`files, this`pipes
      ensures Sound() && (Tidy() <==> old(Tidy()) && Careful(old(Now()), call)) && Moves(old(Now()), call, Now())
    {
      hide Backed, Exact, Held, Kept, WithFd;
      ghost var v, f := Now(), OpenFile(call.file, 0, call.flags, 1, true);
      var fd := OpenFd(call.file, call.flags);
      if fd.Some? {
        ghost var i: nat :| i < MAX_OPEN_FILES && !v.files[i].inUse && files == v.files[i := f] && procs == SetIn(v, fd.value, Open(i), 0);
        assert NamesFile(v, Now(), f, fd.value, i);
      } else if !HasProcess() && !(forall i :: 0 <= i < MAX_OPEN_FILES ==> v.files[i].inUse) {
        ghost var i: nat :| i < MAX_OPEN_FILES && !v.files[i].inUse && files == v.files[i := f];
        assert FillsFile(v, Now(), f, i);
      }
    }

    method DupStep(call: Call)
      requires Sound() && call.DupCall?
      modifies this`procs, this`files, this`pipes
      ensures Sound() && (Tidy() <==> old(Tidy())) && Moves(old(Now()), call, Now())
    {
      hide Backed, Exact, Held, Kept, WithFd;
      ghost var v := Now();
      var fd := DupFd(call.oldFd, call.minFd, call.newFd, call.cloexec);
      assert fd.Some? && fd.value != call.oldFd ==> NamesCopy(v, Now(), call, fd.value);
    }

    /** The calls that move descriptors but no data. */
    method FdStep(call: Call)
      requires Valid() && !call.PipeCall? && !call.WriteCall? && !call.ReadCall?
      modifies this
      ensures Sound() && (Tidy() <==> old(Tidy()) && Careful(old(Now()), call)) && Moves(old(Now()), call, Now())
    {
      hide Backed, Exact, Held, Kept, NamesNothing, WithFd, Dropped, SameCounts;
      match call {
        case Switch(next) => if next.None? || next.value < MAX_PROCESSES { current := next; }
        case SpawnInto(slot) => if slot < MAX_PROCESSES { Spawn(slot); }
        case ForkInto(slot) => if slot < MAX_PROCESSES { var ok := Fork(slot); }
        case ExitCall(code) => Exit(code);
        case ReapCall(slot) => if slot < MAX_PROCESSES { var code := Reap(slot); }
        case OpenCall(file, flags) => OpenStep(call);
        case CloseCall(fd) => var ok := CloseFd(fd);
        case DupCall(_, _, _, _) => DupStep(call);
        case DeviceCall(t) => var fd := OpenDevice(t);
        case _ =>
      }
    }

    /** One call of the current process, with what it did to pipe data. */
    method Step(call: Call) returns (e: Effect)
      requires Valid()
      modifies this, rings, Bufs()
      ensures Valid() && Did(old(State()), call, e, State())
    {
      hide Sound, Held, Exact, Ring.Valid, PipeMove, Answers, Moves, Careful, AllWritten, AllRead, RingsOk, RingsApart, Did;
      ghost var m := State();
      match call {
        case PipeCall =>
          e := PipeStep();
          MovesPipe(m.view, Now());
        case WriteCall(_, _) =>
          e := WriteStep(call);
          MovesData(m.view, call);
        case ReadCall(_, _) =>
          e := ReadStep(call);
          MovesData(m.view, call);
        case _ =>
          e := Quiet;
          FdStep(call);
          QuietAnswers(m.view, m.written, m.read, call);
      }
      DidIt(m, call, e, State());
    }

    /** What a call left of each ring is what its effect says. */
    lemma Changed(written: seq<seq<byte>>, read: seq<seq<byte>>, e: Effect)
      requires |written| == |read| == |rings|
      requires forall i :: 0 <= i < |rings| ==> rings[i].accepted == NowAccepted(written[i], e, i) && rings[i].delivered == NowDelivered(read[i], e, i)
      ensures Written() == AllWritten(written, e) && Read() == AllRead(read, e)
    {
    }

    /**
     Whatever processes do, in whatever order they are scheduled: every call does what it promises
     and at every moment no descriptor dangles and what has been read from each pipe is a prefix of
     what has been written to it since it was created.
     */
    method Run(calls: seq<Call>) returns (effects: seq<Effect>, ghost ms: seq<Moment>)
      requires Valid()
      modifies this, rings, Bufs()
      ensures Valid() && Trace(ms, calls, effects) && |effects| == |calls| && ms[0] == old(State()) && ms[|calls|] == State()
    {
      hide Sound, RingsApart, RingsOk, Did, Orderly;
      effects, ms := [], [State()];
      OrderlyNow();
      for n := 0 to |calls|
        invariant Valid() && |effects| == n && Trace(ms, calls, effects) && ms[0] == old(State()) && ms[n] == State()
      {
        var e := Step(calls[n]);
        OrderlyNow();
        effects, ms := effects + [e], ms + [State()];
      }
    }

    lemma OrderlyNow()
      requires Valid()
      ensures Orderly(State())
    {
      hide Backed, Held;
      Lengths();
    }
  }

  datatype Call =
    | Switch(to: Option<nat>)
    | SpawnInto(slot: nat)
    | ForkInto(slot: nat)
    | ExitCall(code: int)
    | ReapCall(slot: nat)
    | OpenCall(file: nat, flags: nat)
    | CloseCall(fd: nat)
    | DupCall(oldFd: nat, minFd: nat, newFd: Option<nat>, cloexec: bool)
    | PipeCall
    | DeviceCall(t: FdTarget)
    | WriteCall(fd: nat, bytes: seq<byte>)
    | ReadCall(fd: nat, count: nat)

  /** What the descriptor code sees of the kernel. */
  datatype View = View(current: Option<nat>, procs: seq<Option<Process>>, files: seq<OpenFile>, pipes: seq<Pipe>)

  predicate Runs(v: View) {
    v.current.Some? && v.current.value < |v.procs| && v.procs[v.current.value].Some?
  }

  function FdsOf(v: View): seq<FdTarget> { if Runs(v) then v.procs[v.current.value].value.fds else [] }

  function TargetAt(v: View, fd: nat): FdTarget { if fd < |FdsOf(v)| then FdsOf(v)[fd] else Empty }

  /** The processes after one descriptor of the current one has been set. */
  function SetIn(v: View, fd: nat, t: FdTarget, flags: nat): seq<Option<Process>> {
    if Runs(v) && fd < |FdsOf(v)| == |v.procs[v.current.value].value.fdFlags|
    then v.procs[v.current.value := Some(WithFd(v.procs[v.current.value].value, fd, t, flags))]
    else v.procs
  }

  predicate FillsFile(v: View, w: View, f: OpenFile, i: nat) { i < |v.files| && !v.files[i].inUse && w.files == v.files[i := f] }

  predicate NamesFile(v: View, w: View, f: OpenFile, fd: nat, i: nat) {
    IsLowestEmpty(FdsOf(v), 3, fd) && FillsFile(v, w, f, i) && w.procs == SetIn(v, fd, Open(i), 0)
  }

  predicate NamesCopy(v: View, w: View, call: Call, fd: nat)
    requires call.DupCall?
  {
    && (if call.newFd.Some? then fd == call.newFd.value else IsLowestEmpty(FdsOf(v), call.minFd, fd))
    && w.procs == SetIn(v, fd, TargetAt(v, call.oldFd), if call.cloexec then FD_CLOEXEC else 0)
  }

  ghost predicate PipeMove(v: View, w: View) {
    && w.current == v.current && w.files == v.files && |w.procs| == |v.procs|
    && (forall j :: 0 <= j < |v.procs| && Some(j) != v.current ==> w.procs[j] == v.procs[j])
    && if AtMostOneEmpty(FdsOf(v), 3) || IsFreePipe(v.pipes, |v.pipes|)
       then w.pipes == v.pipes && FdsOf(w) == FdsOf(v)
       else exists i: nat, rd: nat, wr: nat :: NamesEnds(v, w, i, rd, wr)
  }

  predicate NamesEnds(v: View, w: View, i: nat, rd: nat, wr: nat) {
    && IsFreePipe(v.pipes, i) && i < |v.pipes| && IsLowestEmpty(FdsOf(v), 3, rd) && IsLowestEmpty(FdsOf(v), rd + 1, wr)
    && FdsOf(w) == FdsOf(v)[rd := PipeRead(i)][wr := PipeWrite(i)] && w.pipes == v.pipes[i := Pipe(1, 1, 0, 0, true)]
  }

  /** What a call does to the processes and their descriptors. */
  ghost predicate Moves(v: View, call: Call, w: View) {
    match call
    case Switch(next) => w == if next.None? || next.value < MAX_PROCESSES then v.(current := next) else v
    case SpawnInto(slot) =>
      w == if slot < |v.procs| then v.(procs := v.procs[slot := Some(Process(DefaultFds(), seq(MAX_FDS, _ => 0), false, 0))]) else v
    case ForkInto(slot) =>
      && w.current == v.current
      && w.procs == if slot < |v.procs| && Runs(v)
                    then v.procs[slot := Some(v.procs[v.current.value].value.(zombie := false, exitCode := 0))] else v.procs
    case ExitCall(code) =>
      w == if Runs(v) then v.(procs := v.procs[v.current.value := Some(v.procs[v.current.value].value.(zombie := true, exitCode := code))]) else v
    case ReapCall(slot) =>
      && w.current == v.current
      && w.procs == if slot < |v.procs| && v.procs[slot].Some? && v.procs[slot].value.zombie then v.procs[slot := None] else v.procs
    case OpenCall(file, flags) =>
      && w.current == v.current && w.pipes == v.pipes
      && if forall i :: 0 <= i < |v.files| ==> v.files[i].inUse then w == v
         else if !Runs(v) then w.procs == v.procs && exists i: nat :: FillsFile(v, w, OpenFile(file, 0, flags, 1, true), i)
         else if NoneEmpty(FdsOf(v), 3) then w == v
         else exists fd: nat, i: nat :: NamesFile(v, w, OpenFile(file, 0, flags, 1, true), fd, i)
    case CloseCall(fd) =>
      if TargetAt(v, fd).Empty? then w == v
      else
        && w.current == v.current && w.procs == SetIn(v, fd, Empty, 0)
        && |v.files| == MAX_OPEN_FILES && |v.pipes| == MAX_PIPES && Usable(v.files, v.pipes, TargetAt(v, fd))
        && (w.files, w.pipes) == Dropped(TargetAt(v, fd), v.files, v.pipes)
    case DupCall(oldFd, minFd, newFd, cloexec) =>
      && w.current == v.current
      && if || TargetAt(v, oldFd).Empty? || (newFd.None? && NoneEmpty(FdsOf(v), minFd))
            || (newFd.Some? && (newFd.value >= MAX_FDS || newFd.value == oldFd)) then w.procs == v.procs
         else exists fd: nat :: NamesCopy(v, w, call, fd)
    case PipeCall => PipeMove(v, w)
    case DeviceCall(t) =>
      && w.current == v.current && w.files == v.files && w.pipes == v.pipes
      && if !(t.Tty? || t.Null? || t.Zero?) || NoneEmpty(FdsOf(v), 3) then w.procs == v.procs
         else exists fd: nat :: IsLowestEmpty(FdsOf(v), 3, fd) && w.procs == SetIn(v, fd, t, 0)
    case WriteCall(_, _) => w == v
    case ReadCall(_, _) => w == v
  }

  // ----- Pipe histories -----

  /** What a call does to pipe data. */
  datatype Effect = Quiet | Created(pipe: nat) | Wrote(pipe: nat, bytes: seq<byte>) | Took(pipe: nat, bytes: seq<byte>)

  /** The bytes waiting in pipe `i`, given everything written to the pipes and everything read from them. */
  function Waiting(written: seq<seq<byte>>, read: seq<seq<byte>>, i: nat): nat {
    if i < |written| && i < |read| && |read[i]| <= |written[i]| then |written[i]| - |read[i]| else 0
  }

  /** How much of a write goes in: what fits, and nothing once nobody can read it. */
  function Fits(v: View, written: seq<seq<byte>>, read: seq<seq<byte>>, i: nat, n: nat): (k: nat)
    ensures k <= n
  {
    if i >= |v.pipes| || v.pipes[i].readRefs == 0 || Waiting(written, read, i) > PIPE_CAPACITY then 0
    else Least(n, PIPE_CAPACITY - Waiting(written, read, i))
  }

  /**
   The effect a call must have.  A write puts what fits into the pipe its descriptor names; a read
   takes what there is, up to its count, and waits only while the pipe is empty and has a writer;
   and only creating a pipe, in the lowest free entry, which nobody names, starts a new history.
   */
  ghost predicate Answers(v: View, written: seq<seq<byte>>, read: seq<seq<byte>>, call: Call, e: Effect) {
    match call
    case WriteCall(fd, bytes) =>
      e == (match TargetAt(v, fd)
            case PipeWrite(i) => Wrote(i, bytes[..Fits(v, written, read, i, |bytes|)])
            case _ => Quiet)
    case ReadCall(fd, count) =>
      (match TargetAt(v, fd)
       case PipeRead(i) =>
         if i < |v.pipes| && Waiting(written, read, i) == 0 && v.pipes[i].writeRefs > 0 then e == Quiet
         else
           && e.Took? && e.pipe == i && |e.bytes| == Least(count, Waiting(written, read, i))
           && i < |written| && i < |read| && read[i] + e.bytes <= written[i]
       case _ => e == Quiet)
    case PipeCall =>
      if IsFreePipe(v.pipes, |v.pipes|) then e == Quiet
      else e.Created? && e.pipe < |v.pipes| && IsFreePipe(v.pipes, e.pipe) && PipeRead(e.pipe) !in Held(v.procs) && PipeWrite(e.pipe) !in Held(v.procs)
    case _ => e == Quiet
  }

  lemma WriteAnswers(v: View, written: seq<seq<byte>>, read: seq<seq<byte>>, call: Call, n: nat)
    requires call.WriteCall? && (TargetAt(v, call.fd).PipeWrite? ==> n == Fits(v, written, read, TargetAt(v, call.fd).pipe, |call.bytes|))
    ensures Answers(v, written, read, call, if TargetAt(v, call.fd).PipeWrite? then Wrote(TargetAt(v, call.fd).pipe, call.bytes[..n]) else Quiet)
  {
  }

  lemma PipeAnswers(v: View, written: seq<seq<byte>>, read: seq<seq<byte>>, i: nat)
    requires IsFreePipe(v.pipes, i) && (i < |v.pipes| ==> PipeRead(i) !in Held(v.procs) && PipeWrite(i) !in Held(v.procs))
    ensures Answers(v, written, read, PipeCall, if i < |v.pipes| then Created(i) else Quiet)
  {
    hide Held;
  }

  lemma MovesPipe(v: View, w: View)
    requires PipeMove(v, w)
    ensures Moves(v, PipeCall, w) && Careful(v, PipeCall)
  {
    hide PipeMove;
  }

  lemma MovesData(v: View, call: Call)
    requires call.WriteCall? || call.ReadCall?
    ensures Moves(v, call, v) && Careful(v, call)
  {
  }

  lemma QuietAnswers(v: View, written: seq<seq<byte>>, read: seq<seq<byte>>, call: Call)
    requires !call.PipeCall? && !call.WriteCall? && !call.ReadCall?
    ensures Answers(v, written, read, call, Quiet)
    ensures AllWritten(written, Quiet) == written && AllRead(read, Quiet) == read
  {
  }

  function NowAccepted(a: seq<byte>, e: Effect, i: nat): seq<byte> {
    match e
    case Created(j) => if i == j then [] else a
    case Wrote(j, bytes) => if i == j then a + bytes else a
    case _ => a
  }

  function NowDelivered(d: seq<byte>, e: Effect, i: nat): seq<byte> {
    match e
    case Created(j) => if i == j then [] else d
    case Took(j, bytes) => if i == j then d + bytes else d
    case _ => d
  }

  /** What has been written to each pipe since it was created, after one more effect. */
  function AllWritten(written: seq<seq<byte>>, e: Effect): (r: seq<seq<byte>>)
    ensures |r| == |written| && forall i :: 0 <= i < |r| ==> r[i] == NowAccepted(written[i], e, i)
  {
    seq(|written|, i requires 0 <= i < |written| => NowAccepted(written[i], e, i))
  }

  /** What has been read from it. */
  function AllRead(read: seq<seq<byte>>, e: Effect): (r: seq<seq<byte>>)
    ensures |r| == |read| && forall i :: 0 <= i < |r| ==> r[i] == NowDelivered(read[i], e, i)
  {
    seq(|read|, i requires 0 <= i < |read| => NowDelivered(read[i], e, i))
  }

  // ----- Whole runs -----

  /** The tables and the pipe histories between two calls. */
  datatype Moment = Moment(view: View, written: seq<seq<byte>>, read: seq<seq<byte>>)

  ghost predicate ExactView(v: View) { Exact(v.files, v.pipes, Held(v.procs)) }

  /** One call: what it does to descriptors, to pipe data, and to the exactness of the counts. */
  ghost predicate Did(m: Moment, call: Call, e: Effect, m': Moment) {
    && Moves(m.view, call, m'.view) && Answers(m.view, m.written, m.read, call, e)
    && m'.written == AllWritten(m.written, e) && m'.read == AllRead(m.read, e)
    && (ExactView(m'.view) <==> ExactView(m.view) && Careful(m.view, call))
  }

  lemma DidIt(m: Moment, call: Call, e: Effect, m': Moment)
    requires Moves(m.view, call, m'.view) && Answers(m.view, m.written, m.read, call, e)
    requires m'.written == AllWritten(m.written, e) && m'.read == AllRead(m.read, e)
    requires ExactView(m'.view) <==> ExactView(m.view) && Careful(m.view, call)
    ensures Did(m, call, e, m')
  {
    hide Moves, Answers, ExactView, Careful, AllWritten, AllRead;
  }

  /** No descriptor dangles, and what was read from each pipe is a prefix of what was written to it. */
  ghost predicate Orderly(m: Moment) {
    && Backed(m.view.files, m.view.pipes, Held(m.view.procs)) && |m.written| == |m.read| == MAX_PIPES
    && forall i :: 0 <= i < MAX_PIPES ==> m.read[i] <= m.written[i]
  }

  ghost predicate Trace(ms: seq<Moment>, calls: seq<Call>, effects: seq<Effect>) {
    && |effects| <= |calls| && |ms| == |effects| + 1
    && (forall n :: 0 <= n < |effects| ==> Did(ms[n], calls[n], effects[n], ms[n + 1]))
    && forall n :: 0 <= n <= |effects| ==> Orderly(ms[n])
  }

  /** Over every run the counts are exact at a moment if and only if they were at the start and every call was careful. */
  lemma {:induction false} ExactIff(ms: seq<Moment>, calls: seq<Call>, effects: seq<Effect>, n: nat)
    requires Trace(ms, calls, effects) && n <= |effects|
    ensures ExactView(ms[n].view) <==> ExactView(ms[0].view) && forall k :: 0 <= k < n ==> Careful(ms[k].view, calls[k])
    decreases n
  {
    hide ExactView, Careful, Moves, Answers, Orderly;
    if n > 0 {
      ExactIff(ms, calls, effects, n - 1);
      assert Did(ms[n - 1], calls[n - 1], effects[n - 1], ms[n]);
    }
  }

  /** What the effects of a run since a pipe was created wrote to it, after `a`. */
  function Accepted(a: seq<byte>, effects: seq<Effect>, i: nat): seq<byte> {
    if effects == [] then a else NowAccepted(Accepted(a, effects[..|effects| - 1], i), effects[|effects| - 1], i)
  }

  /** What they read from it. */
  function Delivered(d: seq<byte>, effects: seq<Effect>, i: nat): seq<byte> {
    if effects == [] then d else NowDelivered(Delivered(d, effects[..|effects| - 1], i), effects[|effects| - 1], i)
  }

  /** From empty pipes: what the reads of a run returned from a pipe is a prefix of what its writes put in. */
  lemma {:induction false} ReadsPrefix(ms: seq<Moment>, calls: seq<Call>, effects: seq<Effect>, i: nat, n: nat)
    requires Trace(ms, calls, effects) && n <= |effects| && i < MAX_PIPES
    ensures ms[n].written[i] == Accepted(ms[0].written[i], effects[..n], i) && ms[n].read[i] == Delivered(ms[0].read[i], effects[..n], i)
    ensures Delivered(ms[0].read[i], effects[..n], i) <= Accepted(ms[0].written[i], effects[..n], i)
    decreases n
  {
    hide ExactView, Careful, Moves, Answers, NowAccepted, NowDelivered, Backed;
    assert Orderly(ms[0]) && Orderly(ms[n]);
    if n > 0 {
      ReadsPrefix(ms, calls, effects, i, n - 1);
      assert Did(ms[n - 1], calls[n - 1], effects[n - 1], ms[n]) && Orderly(ms[n - 1]);
      assert effects[..n][..n - 1] == effects[..n - 1];
    }
  }

  /** The call overwrites no process that still names something, and fills no file entry outside a process. */
  ghost predicate Careful(v: View, call: Call) {
    match call
    case SpawnInto(slot) => slot < |v.procs| ==> NamesNothing(v.procs[slot])
    case ForkInto(slot) => slot < |v.procs| && Runs(v) ==> NamesNothing(v.procs[slot])
    case OpenCall(_, _) => Runs(v) || forall i :: 0 <= i < |v.files| ==> v.files[i].inUse
    case _ => true
  }

  lemma FrontName(h: multiset<FdTarget>, fds: seq<FdTarget>, k: nat)
    requires k < |fds|
    ensures fds[k] in h + multiset(fds[k..])
    ensures h + multiset(fds[k..]) - multiset{fds[k]} == h + multiset(fds[k + 1..])
    ensures forall t: FdTarget :: Counted(t) && t in h ==> t in h + multiset(fds[k..]) - multiset{fds[k]}
  {
    assert fds[k..] == [fds[k]] + fds[k + 1..];
    assert multiset(fds[k..]) == multiset{fds[k]} + multiset(fds[k + 1..]);
  }

  lemma OneEmpty(r: multiset<FdTarget>)
    ensures SameCounts(r, r - multiset{Empty})
  {
  }

  /** Empty tables back the empty collection exactly. */
  lemma EmptyTables(files: seq<OpenFile>, pipes: seq<Pipe>)
    requires files == seq(MAX_OPEN_FILES, _ => NO_FILE) && pipes == seq(MAX_PIPES, _ => NO_PIPE)
    ensures Backed(files, pipes, multiset{}) && Exact(files, pipes, multiset{})
  {
  }

  lemma {:induction false} HeldNone(ps: seq<Option<Process>>)
    requires forall i :: 0 <= i < |ps| ==> ps[i].None?
    ensures Held(ps) == multiset{}
  {
    if ps != [] { HeldNone(ps[..|ps| - 1]); }
  }

  lemma SameFd(p: Process, fd: nat)
    requires |p.fds| == MAX_FDS == |p.fdFlags| && fd < MAX_FDS && p.fds[fd].Empty?
    ensures WithFd(p, fd, Empty, p.fdFlags[fd]) == p
  {
  }

  lemma FdAt(p: Process, fd: nat, t: FdTarget, flags: nat, t': FdTarget, flags': nat)
    requires |p.fds| == MAX_FDS == |p.fdFlags| && fd < MAX_FDS
    ensures ProcessOk(Some(WithFd(p, fd, t, flags)))
    ensures WithFd(p, fd, t, flags).fds == p.fds[fd := t]
    ensures WithFd(WithFd(p, fd, t, flags), fd, t', flags') == WithFd(p, fd, t', flags')
  {
    var once := WithFd(p, fd, t, flags);
    assert once.fdFlags[..fd] == p.fdFlags[..fd];
    assert once.fdFlags[fd + 1..] == p.fdFlags[fd + 1..];
  }

  lemma OneMore(h: multiset<FdTarget>, t: FdTarget, h': multiset<FdTarget>)
    requires Empty in h && h' == h - multiset{Empty} + multiset{t}
    ensures SameCounts(h + multiset{t}, h')
    ensures forall x: FdTarget :: Counted(x) && x in h' ==> x in h || x == t
  {
  }

  lemma HeldEmpty(ps: seq<Option<Process>>, g: nat, fd: nat)
    requires g < |ps| && ps[g].Some? && fd < |ps[g].value.fds| && ps[g].value.fds[fd].Empty?
    ensures Empty in Held(ps)
  {
  }

  /** A free file entry is named by nobody; filling it adds one backed reference. */
  lemma NewFile(files: seq<OpenFile>, pipes: seq<Pipe>, r: multiset<FdTarget>, i: nat, fileIdx: nat, flags: nat)
    requires Backed(files, pipes, r) && i < MAX_OPEN_FILES && !files[i].inUse
    ensures Open(i) !in r
    ensures var fs := files[i := OpenFile(fileIdx, 0, flags, 1, true)];
            && Backed(fs, pipes, r) && Backed(fs, pipes, r + multiset{Open(i)}) && Kept(files, pipes, fs, pipes, r)
            && (Exact(files, pipes, r) <==> Exact(fs, pipes, r + multiset{Open(i)}))
  {
  }

  lemma NamedFile(files: seq<OpenFile>, pipes: seq<Pipe>, h: multiset<FdTarget>, i: nat, h': multiset<FdTarget>)
    requires Empty in h && h' == h - multiset{Empty} + multiset{Open(i)}
    ensures Backed(files, pipes, h + multiset{Open(i)}) ==> Backed(files, pipes, h')
    ensures Exact(files, pipes, h + multiset{Open(i)}) <==> Exact(files, pipes, h')
  {
  }

  lemma Unnamed(files: seq<OpenFile>, pipes: seq<Pipe>, h: multiset<FdTarget>, i: nat)
    requires Backed(files, pipes, h + multiset{Open(i)})
    ensures Usable(files, pipes, Open(i))
    ensures var (f, p) := Dropped(Open(i), files, pipes); Backed(f, p, h) && Kept(files, pipes, f, p, h)
    ensures var (f, p) := Dropped(Open(i), files, pipes); Exact(files, pipes, h + multiset{Open(i)}) <==> Exact(f, p, h)
  {
  }

  lemma UnusedBlank(files: seq<OpenFile>, pipes: seq<Pipe>, r: multiset<FdTarget>, i: nat)
    requires Backed(files, pipes, r) && i < MAX_OPEN_FILES && !files[i].inUse
    ensures files[i] == NO_FILE
  {
  }

  lemma Leaked(files: seq<OpenFile>, pipes: seq<Pipe>, r: multiset<FdTarget>, i: nat, fileIdx: nat, flags: nat)
    requires Backed(files, pipes, r) && i < MAX_OPEN_FILES && !files[i].inUse
    ensures !Exact(files[i := OpenFile(fileIdx, 0, flags, 1, true)], pipes, r)
  {
  }

  lemma NewPipe(files: seq<OpenFile>, pipes: seq<Pipe>, r: multiset<FdTarget>, i: nat)
    requires Backed(files, pipes, r) && i < MAX_PIPES && !pipes[i].inUse
    ensures PipeRead(i) !in r && PipeWrite(i) !in r
    ensures var ps := pipes[i := Pipe(1, 1, 0, 0, true)];
            && Backed(files, ps, r) && Backed(files, ps, r + multiset{PipeRead(i), PipeWrite(i)}) && Kept(files, pipes, files, ps, r)
            && (Exact(files, pipes, r) <==> Exact(files, ps, r + multiset{PipeRead(i), PipeWrite(i)}))
  {
  }

  lemma NextEmpty(fds: seq<FdTarget>, rd: nat, t: FdTarget, wr: nat)
    requires |fds| == MAX_FDS && IsLowestEmpty(fds, 3, rd) && !t.Empty? && IsLowestEmpty(fds[rd := t], 3, wr)
    ensures rd < wr < MAX_FDS && fds[wr].Empty? && forall k :: rd < k < wr ==> !fds[k].Empty?
  {
    assert forall k :: 0 <= k < MAX_FDS && k != rd ==> fds[rd := t][k] == fds[k];
  }

  lemma TwoEmpty(fds: seq<FdTarget>, rd: nat, wr: nat)
    requires IsLowestEmpty(fds, 3, rd) && rd < wr < |fds| && fds[wr].Empty?
    ensures !AtMostOneEmpty(fds, 3)
  {
  }

  lemma NotTwo(fds: seq<FdTarget>)
    requires NoneEmpty(fds, 3)
    ensures AtMostOneEmpty(fds, 3)
  {
  }

  lemma LastEmpty(fds: seq<FdTarget>, rd: nat, t: FdTarget)
    requires |fds| == MAX_FDS && rd < MAX_FDS && fds[rd].Empty? && NoneEmpty(fds[rd := t], 3)
    ensures AtMostOneEmpty(fds, 3) && fds[rd := t][rd := Empty] == fds
  {
    assert forall k :: 0 <= k < MAX_FDS && k != rd ==> fds[rd := t][k] == fds[k];
  }

  /** Nothing changed but the flags of the lowest empty descriptor, which are 0 now. */
  ghost predicate Touched(ps: seq<Option<Process>>, g: nat, ps': seq<Option<Process>>) {
    && g < |ps| && ps[g].Some? && |ps[g].value.fds| == |ps[g].value.fdFlags|
    && exists fd: nat :: IsLowestEmpty(ps[g].value.fds, 3, fd) && ps' == ps[g := Some(WithFd(ps[g].value, fd, Empty, 0))]
  }

  /** Naming the read end and emptying it again touches the flags of its descriptor at most. */
  lemma GivenUp(ps: seq<Option<Process>>, g: nat, rd: nat, t: FdTarget, ps1: seq<Option<Process>>, ps2: seq<Option<Process>>)
    requires g < |ps| && ps[g].Some? && ProcessOk(ps[g]) && IsLowestEmpty(ps[g].value.fds, 3, rd)
    requires ps1 == ps[g := Some(WithFd(ps[g].value, rd, t, 0))] && NoneEmpty(ps1[g].value.fds, 3)
    requires ProcessOk(ps1[g]) && ps2 == ps1[g := Some(WithFd(ps1[g].value, rd, Empty, 0))]
    ensures Touched(ps, g, ps2) && ps2[g].value.fds == ps[g].value.fds && AtMostOneEmpty(ps2[g].value.fds, 3)
  {
    FdAt(ps[g].value, rd, t, 0, Empty, 0);
    LastEmpty(ps[g].value.fds, rd, t);
    assert ps2 == ps[g := Some(WithFd(ps[g].value, rd, Empty, 0))];
  }

  lemma SameCountsSelf(r: multiset<FdTarget>)
    ensures SameCounts(r, r)
  {
  }

  /** Fewer references are backed too. */
  lemma Fewer(files: seq<OpenFile>, pipes: seq<Pipe>, r: multiset<FdTarget>, r': multiset<FdTarget>)
    requires Backed(files, pipes, r) && forall t: FdTarget :: Counted(t) ==> r'[t] <= r[t]
    ensures Backed(files, pipes, r')
  {
  }

  lemma HalfNamed(files: seq<OpenFile>, pipes: seq<Pipe>, h: multiset<FdTarget>, h1: multiset<FdTarget>, i: nat)
    requires Empty in h && h1 == h - multiset{Empty} + multiset{PipeRead(i)}
    requires Backed(files, pipes, h + multiset{PipeRead(i), PipeWrite(i)})
    ensures Backed(files, pipes, h1)
  {
  }

  lemma Named(h: multiset<FdTarget>, h1: multiset<FdTarget>, h2: multiset<FdTarget>, i: nat, both: bool)
    requires Empty in h && h1 == h - multiset{Empty} + multiset{PipeRead(i)}
    requires both ==> Empty in h1 && h2 == h1 - multiset{Empty} + multiset{PipeWrite(i)}
    requires !both ==> h2 == h1 - multiset{PipeRead(i)} + multiset{Empty}
    ensures SameCounts(if both then h + multiset{PipeRead(i), PipeWrite(i)} else h, h2)
  {
  }

  lemma ClearPipe(files: seq<OpenFile>, pipes: seq<Pipe>, r: multiset<FdTarget>, i: nat)
    requires Backed(files, pipes, r) && i < MAX_PIPES && !pipes[i].inUse
    ensures var ps := pipes[i := NO_PIPE];
            ps == pipes && Backed(files, ps, r) && Kept(files, pipes, files, ps, r)
  {
  }

  lemma Cancel(a: multiset<FdTarget>, b: multiset<FdTarget>, n: multiset<FdTarget>)
    requires a + n == b + n
    ensures a == b
  {
    forall t: FdTarget
      ensures a[t] == b[t]
    {
      assert (a + n)[t] == (b + n)[t];
    }
  }

  /** The process in a slot, if any, names nothing that is counted. */
  ghost predicate NamesNothing(p: Option<Process>) {
    forall t: FdTarget :: Counted(t) ==> t !in Names(p)
  }

  /** Overwriting a slot loses its old names: the counts stay exact iff there were none. */
  lemma Overwrite(files: seq<OpenFile>, pipes: seq<Pipe>, ps: seq<Option<Process>>, slot: nat, p: Process)
    requires slot < |ps| && Backed(files, pipes, Held(ps) + multiset(p.fds))
    ensures Backed(files, pipes, Held(ps[slot := Some(p)]))
    ensures Exact(files, pipes, Held(ps[slot := Some(p)])) <==>
              Exact(files, pipes, Held(ps) + multiset(p.fds)) && NamesNothing(ps[slot])
  {
    hide Held, Backed, Exact;
    var r, h' := Held(ps) + multiset(p.fds), Held(ps[slot := Some(p)]);
    HeldUpdate(ps, slot, Some(p));
    forall t: FdTarget
      ensures h'[t] + Names(ps[slot])[t] == r[t]
    {
      assert (h' + Names(ps[slot]))[t] == r[t];
    }
    Fewer(files, pipes, r, h');
    if NamesNothing(ps[slot]) {
      Bystanders(files, pipes, r, h');
    } else {
      var t :| Counted(t) && t in Names(ps[slot]);
      NotExact(files, pipes, r, h', t);
    }
  }

  lemma NotExact(files: seq<OpenFile>, pipes: seq<Pipe>, r: multiset<FdTarget>, r': multiset<FdTarget>, t: FdTarget)
    requires Backed(files, pipes, r) && Counted(t) && r'[t] < r[t]
    ensures !Exact(files, pipes, r')
  {
  }

  lemma KeptForked(files: seq<OpenFile>, pipes: seq<Pipe>, files': seq<OpenFile>, pipes': seq<Pipe>,
                   ps: seq<Option<Process>>, g: nat, slot: nat, p: Process)
    requires Kept(files, pipes, files', pipes', Held(ps)) && slot < |ps| && g < |ps| && ps[g].Some? && ps[g].value.fds == p.fds
    ensures Kept(files, pipes, files', pipes', Held(ps[slot := Some(p)]))
  {
    hide Held, Kept;
    var h, h' := Held(ps), Held(ps[slot := Some(p)]);
    HeldUpdate(ps, slot, Some(p));
    forall t: FdTarget | t in h'
      ensures t in h
    {
      assert (h' + Names(ps[slot]))[t] == (h + multiset(p.fds))[t];
      if t in p.fds {
        var fd :| 0 <= fd < |p.fds| && p.fds[fd] == t;
        HeldBy(ps, g, fd);
      }
    }
    KeptSame(files', pipes', h');
    KeptTwice(files, pipes, files', pipes', files', pipes', h, h', h');
  }

  /** What a descriptor names exists: the promise to every holder. */
  lemma NoDangling(s: Tables, g: nat, fd: nat)
    requires s.Sound() && g < MAX_PROCESSES && s.procs[g].Some? && fd < MAX_FDS
    ensures match s.procs[g].value.fds[fd]
            case Open(i) => i < MAX_OPEN_FILES && s.files[i].inUse && s.files[i].refs > 0
            case PipeRead(i) => i < MAX_PIPES && s.pipes[i].inUse && s.pipes[i].readRefs > 0
            case PipeWrite(i) => i < MAX_PIPES && s.pipes[i].inUse && s.pipes[i].writeRefs > 0
            case _ => true
  {
    HeldBy(s.procs, g, fd);
  }

  /** A file is open and nobody names it. */
  ghost predicate Orphan(s: Tables)
    reads s
  {
    exists i: nat :: i < |s.files| && s.files[i].inUse && Open(i) !in Held(s.procs)
  }

  lemma {:induction false} HeldFirst(ps: seq<Option<Process>>)
    requires ps != [] && forall i :: 0 < i < |ps| ==> ps[i].None?
    ensures Held(ps) == Names(ps[0])
  {
    if |ps| > 1 { HeldFirst(ps[..|ps| - 1]); }
  }

  /** The first process opens a file and exits. */
  method HoldFile() returns (s: Tables, ghost i: nat)
    ensures fresh(s) && s.Valid() && s.Tidy() && s.procs[0].Some? && s.procs[0].value.zombie && Open(i) in s.procs[0].value.fds
    ensures i < MAX_OPEN_FILES && s.files[i].inUse && forall j :: 0 < j < MAX_PROCESSES ==> s.procs[j].None?
  {
    hide Backed, Exact, Held, Kept, Ring.Valid, WithFd, NamesNothing;
    s := new Tables();
    assert NamesNothing(s.procs[0]) by { NoNames(); }
    s.Spawn(0);
    s.current := Some(0);
    assert s.Fds()[3].Empty? && !s.files[0].inUse;
    ghost var p := s.procs[0].value;
    var fd := s.OpenFd(0, 0);
    i :| i < MAX_OPEN_FILES && s.files[i] == OpenFile(0, 0, 0, 1, true) && s.procs[0] == Some(WithFd(p, fd.value, Open(i), 0));
    FdAt(p, fd.value, Open(i), 0, Open(i), 0);
    s.Exit(0);
    assert s.procs[0].value.fds[fd.value] == Open(i);
  }

  lemma NoNames()
    ensures NamesNothing(None)
  {
  }

  /** Spawning over it before it is reaped leaves the file open with no name. */
  method SpawnLeak() returns (s: Tables)
    ensures fresh(s) && s.Valid() && Orphan(s) && !s.Tidy()
  {
    hide Backed, Exact, Held, Ring.Valid;
    ghost var i: nat;
    s, i := HoldFile();
    assert Counted(Open(i)) && Open(i) in Names(s.procs[0]);
    s.Spawn(0);
    HeldFirst(s.procs);
    assert s.files[i].inUse && Open(i) !in Held(s.procs);
  }

  /** A file opened while no process runs stays open with no name. */
  method OpenLeak() returns (s: Tables)
    ensures fresh(s) && s.Valid() && Orphan(s) && !s.Tidy()
  {
    hide Backed, Exact, Held, Kept;
    s := new Tables();
    assert !s.files[0].inUse;
    ghost var files := s.files;
    var fd := s.OpenFd(0, 0);
    ghost var i: nat :| i < MAX_OPEN_FILES && s.files == files[i := OpenFile(0, 0, 0, 1, true)];
    HeldNone(s.procs);
    assert s.files[i].inUse && Open(i) !in Held(s.procs);
  }
}
