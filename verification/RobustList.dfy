/** Futex words; nothing but bit vectors. */
module FutexWords {
  const TID_MASK: bv32 := 0x3fff_ffff
  const OWNER_DIED: bv32 := 0x4000_0000
  const WAITERS: bv32 := 0x8000_0000

  /** The word a dead owner leaves behind. */
  function Orphan(w: bv32): bv32 { (w & !TID_MASK) | OWNER_DIED }

  /** Its owner field is empty, OWNER_DIED is set, the waiters bit is kept; doing it again changes nothing. */
  lemma OrphanMeaning(w: bv32)
    ensures Orphan(w) & TID_MASK == 0 && Orphan(w) & OWNER_DIED == OWNER_DIED && Orphan(w) & WAITERS == w & WAITERS
    ensures Orphan(Orphan(w)) == Orphan(w)
  {
  }

  /** The owner field names this thread. */
  predicate HeldBy(w: bv32, tid: bv32) { w & TID_MASK == tid }

  /** The low 30 bits are this number. */
  predicate LowBits(w: bv32, tid: bv32) { w % 0x4000_0000 == tid }

  /** The owner field is the low 30 bits. */
  lemma HeldByMeaning(w: bv32, tid: bv32)
    ensures HeldBy(w, tid) <==> LowBits(w, tid)
  {
  }

  lemma Numbers(w: bv32)
    ensures (w as nat) < 0x1_0000_0000 && ((w as nat) as bv32) == w
  {
  }
}

/**
 The robust-futex walk at thread exit and futex_wake (kernel/src/syscall/process.rs).
 */
module RobustList {
  import opened Physical
  import opened FlatMemory
  import opened FutexWords
  import LE = LittleEndian

  const LIMIT: nat := 64
  const HEAD_BYTES: nat := 24

  function ReadWord(mem: Flat, a: nat): u64 { DecodeWord(ReadMem(mem, a, 8)) }

  function Read32(mem: Flat, a: nat): bv32 {
    LE.EncodeDecode(ReadMem(mem, a, 4));
    U32Range();
    LE.FromLe(ReadMem(mem, a, 4)) as bv32
  }

  lemma U32Range()
    ensures LE.Pow256(4) == 0x1_0000_0000
  {
  }

  function Write32(mem: Flat, a: nat, w: bv32): Flat { WriteMem(mem, a, LE.ToLe(w as nat, 4)) }

  lemma Write32Read(mem: Flat, a: nat, w: bv32)
    ensures Read32(Write32(mem, a, w), a) == w
  {
    hide LE.ToLe, LE.FromLe, WriteMem, ReadMem;
    Numbers(w);
    WriteRead(mem, a, LE.ToLe(w as nat, 4));
    U32Range();
    LE.DecodeEncode(w as nat, 4);
  }

  lemma Write32Apart(mem: Flat, a: nat, w: bv32, c: nat)
    requires c + 4 <= a || a + 4 <= c
    ensures Read32(Write32(mem, a, w), c) == Read32(mem, c)
  {
    hide LE.ToLe, LE.FromLe, WriteMem, ReadMem;
    WriteApart(mem, a, LE.ToLe(w as nat, 4), c, 4);
  }

  // ----- What the walk does -----

  /** The word at `a` belongs to the exiting thread. */
  predicate Owned(mem: Flat, a: nat, tid: bv32) { UserRange(a, 4) && HeldBy(Read32(mem, a), tid) }

  /** wake_robust_futex, as far as memory goes. */
  function Visit(mem: Flat, a: nat, tid: bv32): Flat {
    if Owned(mem, a, tid) then Write32(mem, a, Orphan(Read32(mem, a))) else mem
  }

  /** The futex word of a node, with saturating arithmetic. */
  function FutexAddr(node: u64, offset: int): (a: nat)
    ensures 0 <= node + offset < U64 ==> a == node + offset
    ensures node + offset < 0 ==> a == 0
    ensures node + offset >= U64 ==> a == U64 - 1
  {
    if offset >= 0 then (if node + offset < U64 then node + offset else U64 - 1)
    else (if node + offset >= 0 then node + offset else 0)
  }

  /** Memory after the walk from `node` with `left` nodes to go. */
  ghost function Walk(mem: Flat, head: nat, node: u64, offset: int, tid: bv32, left: nat): Flat
    decreases left
  {
    if node == 0 || node == head || left == 0 then mem
    else
      var mem' := Visit(mem, FutexAddr(node, offset), tid);
      if !UserRange(node, 8) then mem'
      else Walk(mem', head, ReadWord(mem', node), offset, tid, left - 1)
  }

  /** The futex words the walk looks at, in order. */
  ghost function Visits(mem: Flat, head: nat, node: u64, offset: int, tid: bv32, left: nat): (s: seq<nat>)
    ensures |s| <= left
    decreases left
  {
    if node == 0 || node == head || left == 0 then []
    else
      var mem' := Visit(mem, FutexAddr(node, offset), tid);
      [FutexAddr(node, offset)] +
      if !UserRange(node, 8) then []
      else Visits(mem', head, ReadWord(mem', node), offset, tid, left - 1)
  }

  function Signed(w: u64): int { if w < 0x8000_0000_0000_0000 then w else w - U64 }

  ghost function ListVisits(mem: Flat, head: u64, tid: bv32): (s: seq<nat>)
    ensures |s| <= LIMIT
  {
    Visits(mem, head, ReadWord(mem, head), Signed(ReadWord(mem, head + 8)), tid, LIMIT)
  }

  ghost function ListWalk(mem: Flat, head: u64, tid: bv32): Flat {
    Walk(mem, head, ReadWord(mem, head), Signed(ReadWord(mem, head + 8)), tid, LIMIT)
  }

  /** All words the exit of a thread looks at: the list, and then the pending operation. */
  ghost function AllVisits(mem: Flat, head: u64, len: nat, tid: bv32): (s: seq<nat>)
    ensures |s| <= LIMIT + 1
  {
    if head == 0 || len != HEAD_BYTES || !UserRange(head, HEAD_BYTES) then []
    else
      ListVisits(mem, head, tid) +
      if ReadWord(mem, head + 16) == 0 then []
      else [FutexAddr(ReadWord(mem, head + 16), Signed(ReadWord(mem, head + 8)))]
  }

  /** Memory after the exit of a thread with this robust list. */
  ghost function Release(mem: Flat, head: u64, len: nat, tid: bv32): Flat {
    if head == 0 || len != HEAD_BYTES || !UserRange(head, HEAD_BYTES) then mem
    else
      var mem' := ListWalk(mem, head, tid);
      if ReadWord(mem, head + 16) == 0 then mem'
      else Visit(mem', FutexAddr(ReadWord(mem, head + 16), Signed(ReadWord(mem, head + 8))), tid)
  }

  // ----- What it means -----

  /** What visiting the words in `s` one after the other does. */
  ghost function VisitAll(mem: Flat, s: seq<nat>, tid: bv32): Flat
    decreases |s|
  {
    if s == [] then mem else VisitAll(Visit(mem, s[0], tid), s[1..], tid)
  }

  lemma {:induction false} WalkIsVisits(mem: Flat, head: nat, node: u64, offset: int, tid: bv32, left: nat)
    ensures Walk(mem, head, node, offset, tid, left) == VisitAll(mem, Visits(mem, head, node, offset, tid, left), tid)
    decreases left
  {
    hide Visit, ReadWord, FutexAddr;
    if node != 0 && node != head && left != 0 {
      var a := FutexAddr(node, offset);
      var mem' := Visit(mem, a, tid);
      if UserRange(node, 8) {
        var next := ReadWord(mem', node);
        WalkIsVisits(mem', head, next, offset, tid, left - 1);
        var rest := Visits(mem', head, next, offset, tid, left - 1);
        assert Visits(mem, head, node, offset, tid, left) == [a] + rest;
        assert ([a] + rest)[1..] == rest;
      } else {
        assert Visits(mem, head, node, offset, tid, left) == [a];
        assert [a][1..] == [];
      }
    }
  }

  lemma {:induction false} VisitAllAppend(mem: Flat, s: seq<nat>, a: nat, tid: bv32)
    ensures VisitAll(mem, s + [a], tid) == Visit(VisitAll(mem, s, tid), a, tid)
    decreases |s|
  {
    hide Visit;
    if s == [] {
      assert [a][1..] == [];
    } else {
      VisitAllAppend(Visit(mem, s[0], tid), s[1..], a, tid);
      assert (s + [a])[1..] == s[1..] + [a];
    }
  }

  /** For any list, cyclic or not, the exit visits at most 64 nodes and the pending one. */
  lemma ReleaseIsVisits(mem: Flat, head: u64, len: nat, tid: bv32)
    ensures |AllVisits(mem, head, len, tid)| <= LIMIT + 1
    ensures Release(mem, head, len, tid) == VisitAll(mem, AllVisits(mem, head, len, tid), tid)
  {
    hide Visit, ReadWord, FutexAddr, Walk, Visits;
    if !(head == 0 || len != HEAD_BYTES || !UserRange(head, HEAD_BYTES)) {
      var offset := Signed(ReadWord(mem, head + 8));
      WalkIsVisits(mem, head, ReadWord(mem, head), offset, tid, LIMIT);
      var pending := ReadWord(mem, head + 16);
      if pending != 0 { VisitAllAppend(mem, ListVisits(mem, head, tid), FutexAddr(pending, offset), tid); }
      assert ListVisits(mem, head, tid) + [] == ListVisits(mem, head, tid);
    }
  }

  ghost predicate Aligned(s: seq<nat>) { forall i :: 0 <= i < |s| ==> s[i] % 4 == 0 }

  lemma VisitWord(mem: Flat, a: nat, tid: bv32, c: nat)
    requires a % 4 == 0 && c % 4 == 0
    ensures Read32(Visit(mem, a, tid), c) == if c == a && Owned(mem, a, tid) then Orphan(Read32(mem, a)) else Read32(mem, c)
  {
    hide Read32, Write32, Orphan;
    if Owned(mem, a, tid) {
      Write32Read(mem, a, Orphan(Read32(mem, a)));
      if c != a { Write32Apart(mem, a, Orphan(Read32(mem, a)), c); }
    }
  }

  /**
   A word ends up marked exactly if it was visited and belonged to the exiting thread; every
   other word, visited or not, is untouched.
   */
  lemma {:induction false} VisitAllWords(mem: Flat, s: seq<nat>, tid: bv32, c: nat)
    requires Aligned(s) && c % 4 == 0
    ensures Read32(VisitAll(mem, s, tid), c) == if c in s && Owned(mem, c, tid) then Orphan(Read32(mem, c)) else Read32(mem, c)
    decreases |s|
  {
    hide Read32, Orphan, Visit, Owned;
    if s != [] {
      var mem' := Visit(mem, s[0], tid);
      VisitWord(mem, s[0], tid, c);
      VisitAllWords(mem', s[1..], tid, c);
      if c == s[0] && Owned(mem, c, tid) {
        OrphanTwice(Read32(mem, c));
      } else {
        OwnedSame(mem, mem', c, tid);
      }
    }
  }

  lemma OrphanTwice(w: bv32)
    ensures Orphan(Orphan(w)) == Orphan(w)
  {
  }

  lemma OwnedSame(mem: Flat, mem': Flat, c: nat, tid: bv32)
    requires Read32(mem', c) == Read32(mem, c)
    ensures Owned(mem', c, tid) <==> Owned(mem, c, tid)
  {
    hide Read32;
  }

  /** The words whose value a sequence of visits really changes, in order. */
  ghost function Changes(mem: Flat, s: seq<nat>, tid: bv32): seq<nat>
    decreases |s|
  {
    if s == [] then []
    else
      var mem' := Visit(mem, s[0], tid);
      (if Read32(mem', s[0]) != Read32(mem, s[0]) then [s[0]] else []) + Changes(mem', s[1..], tid)
  }

  lemma {:induction false} ChangesOf(mem: Flat, s: seq<nat>, tid: bv32, c: nat)
    requires Aligned(s) && c in Changes(mem, s, tid)
    ensures c in s && c % 4 == 0 && Owned(mem, c, tid) && Read32(mem, c) != Orphan(Read32(mem, c))
    decreases |s|
  {
    hide Read32, Orphan, Visit, Owned;
    var mem' := Visit(mem, s[0], tid);
    VisitWord(mem, s[0], tid, s[0]);
    if c in Changes(mem', s[1..], tid) {
      ChangesOf(mem', s[1..], tid, c);
      VisitWord(mem, s[0], tid, c);
      OrphanTwice(Read32(mem, c));
      OwnedSame(mem, mem', c, tid);
    }
  }

  /** No word is changed twice. */
  lemma {:induction false} ChangedOnce(mem: Flat, s: seq<nat>, tid: bv32)
    requires Aligned(s)
    ensures forall i, j :: 0 <= i < j < |Changes(mem, s, tid)| ==> Changes(mem, s, tid)[i] != Changes(mem, s, tid)[j]
    decreases |s|
  {
    hide Read32, Orphan, Visit, Owned;
    if s != [] {
      var mem' := Visit(mem, s[0], tid);
      ChangedOnce(mem', s[1..], tid);
      VisitWord(mem, s[0], tid, s[0]);
      OrphanTwice(Read32(mem, s[0]));
      if s[0] in Changes(mem', s[1..], tid) && Read32(mem', s[0]) != Read32(mem, s[0]) {
        ChangesOf(mem', s[1..], tid, s[0]);
      }
    }
  }

  /** The word at `a` is in user memory and its low 30 bits are the thread's number. */
  predicate Names(mem: Flat, a: nat, tid: bv32) { UserRange(a, 4) && LowBits(Read32(mem, a), tid) }

  lemma OwnedNames(mem: Flat, a: nat, tid: bv32)
    ensures Owned(mem, a, tid) <==> Names(mem, a, tid)
  {
    hide HeldBy, LowBits, Read32;
    HeldByMeaning(Read32(mem, a), tid);
  }

  /**
   The exit of a thread, for any list in user memory and aligned futex words: a word is marked
   (owner cleared, OWNER_DIED set, waiters bit kept) exactly if it was visited and named the
   thread, nothing else changes, and no word changes twice.
   */
  lemma ExitMeaning(mem: Flat, head: u64, len: nat, tid: bv32)
    requires Aligned(AllVisits(mem, head, len, tid))
    ensures var s := AllVisits(mem, head, len, tid);
            && |s| <= LIMIT + 1
            && (forall c: nat :: c % 4 == 0 ==>
                  Read32(Release(mem, head, len, tid), c) ==
                  if c in s && Names(mem, c, tid) then Orphan(Read32(mem, c)) else Read32(mem, c))
            && (forall i, j :: 0 <= i < j < |Changes(mem, s, tid)| ==> Changes(mem, s, tid)[i] != Changes(mem, s, tid)[j])
  {
    hide Read32, Orphan, Owned, Names, Release, AllVisits;
    var s := AllVisits(mem, head, len, tid);
    ReleaseIsVisits(mem, head, len, tid);
    ChangedOnce(mem, s, tid);
    forall c: nat | c % 4 == 0
      ensures Read32(Release(mem, head, len, tid), c) == if c in s && Names(mem, c, tid) then Orphan(Read32(mem, c)) else Read32(mem, c)
    {
      VisitAllWords(mem, s, tid, c);
      OwnedNames(mem, c, tid);
    }
  }

  // ----- A list as the C library builds it -----

  /** The pointers from `node` on run through `nodes`, one after the other, and back to the head. */
  ghost predicate Linked(mem: Flat, head: nat, node: nat, nodes: seq<u64>)
    decreases |nodes|
  {
    if nodes == [] then node == head
    else node == nodes[0] && node != 0 && node != head && UserRange(node, 8) && Linked(mem, head, ReadWord(mem, node), nodes[1..])
  }

  /** The futex word of each node: `offset` bytes from it. */
  function Locks(nodes: seq<u64>, offset: int): seq<int> { seq(|nodes|, i requires 0 <= i < |nodes| => nodes[i] + offset) }

  /** No lock lies outside memory or on a list pointer. */
  ghost predicate LocksApart(nodes: seq<u64>, offset: int) {
    && (forall i :: 0 <= i < |nodes| ==> 0 <= nodes[i] + offset < U64)
    && forall i, j :: 0 <= i < |nodes| && 0 <= j < |nodes| ==> nodes[i] + offset + 4 <= nodes[j] || nodes[j] + 8 <= nodes[i] + offset
  }

  lemma PointerKept(mem: Flat, a: nat, tid: bv32, node: nat)
    requires a + 4 <= node || node + 8 <= a
    ensures ReadWord(Visit(mem, a, tid), node) == ReadWord(mem, node)
  {
    hide LE.ToLe, LE.FromLe, WriteMem, ReadMem, Read32, Orphan;
    if Owned(mem, a, tid) { WriteApart(mem, a, LE.ToLe(Orphan(Read32(mem, a)) as nat, 4), node, 8); }
  }

  lemma {:induction false} LinkedKept(mem: Flat, mem': Flat, head: nat, node: nat, nodes: seq<u64>)
    requires Linked(mem, head, node, nodes) && forall j :: 0 <= j < |nodes| ==> ReadWord(mem', nodes[j]) == ReadWord(mem, nodes[j])
    ensures Linked(mem', head, node, nodes)
    decreases |nodes|
  {
    hide ReadWord;
    if nodes != [] {
      assert forall j :: 0 <= j < |nodes| - 1 ==> nodes[1..][j] == nodes[j + 1];
      LinkedKept(mem, mem', head, ReadWord(mem, node), nodes[1..]);
    }
  }

  /** The walk along such a list looks at the lock of every node, in order. */
  lemma {:induction false} VisitsOfList(mem: Flat, head: nat, node: u64, offset: int, tid: bv32, left: nat, nodes: seq<u64>)
    requires Linked(mem, head, node, nodes) && LocksApart(nodes, offset) && |nodes| <= left
    ensures Visits(mem, head, node, offset, tid, left) == Locks(nodes, offset)
    decreases |nodes|
  {
    hide ReadWord, Visit, LocksApart;
    LocksAre(nodes, offset);
    if nodes != [] {
      var a, rest := node + offset, nodes[1..];
      var mem' := Visit(mem, a, tid);
      PointersKept(mem, nodes, offset, tid);
      LinkedKept(mem, mem', head, ReadWord(mem, node), rest);
      VisitsOfList(mem', head, ReadWord(mem', node), offset, tid, left - 1, rest);
    }
  }

  lemma LocksAre(nodes: seq<u64>, offset: int)
    requires LocksApart(nodes, offset)
    ensures nodes != [] ==>
              && 0 <= nodes[0] + offset < U64 && LocksApart(nodes[1..], offset)
              && Locks(nodes, offset) == [nodes[0] + offset] + Locks(nodes[1..], offset)
  {
  }

  lemma PointersKept(mem: Flat, nodes: seq<u64>, offset: int, tid: bv32)
    requires nodes != [] && LocksApart(nodes, offset)
    ensures var mem' := Visit(mem, nodes[0] + offset, tid);
            && ReadWord(mem', nodes[0]) == ReadWord(mem, nodes[0])
            && forall j :: 0 <= j < |nodes| - 1 ==> ReadWord(mem', nodes[1..][j]) == ReadWord(mem, nodes[1..][j])
  {
    hide ReadWord, Visit;
    forall j | 0 <= j < |nodes|
      ensures ReadWord(Visit(mem, nodes[0] + offset, tid), nodes[j]) == ReadWord(mem, nodes[j])
    {
      assert nodes[0] + offset + 4 <= nodes[j] || nodes[j] + 8 <= nodes[0] + offset;
      PointerKept(mem, nodes[0] + offset, tid, nodes[j]);
    }
  }

  /** A robust list as the C library keeps it: at most 64 locked nodes, and no operation in progress. */
  ghost predicate RobustListAt(mem: Flat, head: u64, offset: int, nodes: seq<u64>) {
    && head != 0 && UserRange(head, HEAD_BYTES) && |nodes| <= LIMIT
    && Signed(ReadWord(mem, head + 8)) == offset && ReadWord(mem, head + 16) == 0
    && Linked(mem, head, ReadWord(mem, head), nodes) && LocksApart(nodes, offset)
    && forall i :: 0 <= i < |nodes| ==> (nodes[i] + offset) % 4 == 0
  }

  /** When a thread exits every lock on its list that names it is marked, and every other word is as it was. */
  lemma ExitReleasesLocks(mem: Flat, head: u64, offset: int, nodes: seq<u64>, tid: bv32, c: nat)
    requires RobustListAt(mem, head, offset, nodes) && c % 4 == 0
    ensures Read32(Release(mem, head, HEAD_BYTES, tid), c) ==
            if c in Locks(nodes, offset) && Names(mem, c, tid) then Orphan(Read32(mem, c)) else Read32(mem, c)
  {
    hide ReadWord, Read32, Orphan, Release, Visits, Names;
    VisitsOfList(mem, head, ReadWord(mem, head), offset, tid, LIMIT, nodes);
    assert AllVisits(mem, head, HEAD_BYTES, tid) == Locks(nodes, offset);
    ExitMeaning(mem, head, HEAD_BYTES, tid);
  }

  /** Whatever the alignment, only bytes of visited words can change. */
  lemma {:induction false} OnlyVisited(mem: Flat, s: seq<nat>, tid: bv32, x: nat)
    requires forall i :: 0 <= i < |s| ==> !(s[i] <= x < s[i] + 4)
    ensures VisitAll(mem, s, tid)(x) == mem(x)
    decreases |s|
  {
    if s != [] {
      assert Visit(mem, s[0], tid)(x) == mem(x);
      OnlyVisited(Visit(mem, s[0], tid), s[1..], tid, x);
    }
  }

  // ----- Waiters -----

  datatype Waiter = Waiter(inUse: bool, addr: nat)

  predicate WaitsFor(w: Waiter, a: nat) { w.inUse && w.addr == a }

  function Waiting(ws: seq<Waiter>, a: nat): nat {
    if ws == [] then 0 else (if WaitsFor(ws[0], a) then 1 else 0) + Waiting(ws[1..], a)
  }

  /** The first waiters on `a`, up to position `cut`, have been released; nobody else has. */
  ghost predicate WokenUpTo(ws: seq<Waiter>, ws': seq<Waiter>, a: nat, cut: nat) {
    && cut <= |ws| == |ws'|
    && forall i :: 0 <= i < |ws| ==> ws'[i] == if i < cut && WaitsFor(ws[i], a) then ws[i].(inUse := false) else ws[i]
  }

  lemma {:induction false} WaitingAppend(ws: seq<Waiter>, a: nat, i: nat)
    requires i < |ws|
    ensures Waiting(ws[..i + 1], a) == Waiting(ws[..i], a) + if WaitsFor(ws[i], a) then 1 else 0
    decreases i
  {
    if i == 0 {
      assert ws[..1] == [ws[0]] && ws[..0] == [] && [ws[0]][1..] == [];
    } else {
      WaitingAppend(ws[1..], a, i - 1);
      assert ws[..i + 1][1..] == ws[1..][..i] && ws[..i][1..] == ws[1..][..i - 1];
    }
  }

  /** The first waiter on `a` has been released, if there is one, and nobody else. */
  ghost predicate FirstReleased(ws: seq<Waiter>, ws': seq<Waiter>, a: nat) {
    if forall i :: 0 <= i < |ws| ==> !WaitsFor(ws[i], a) then ws' == ws
    else exists i :: 0 <= i < |ws| && WaitsFor(ws[i], a) && (forall j :: 0 <= j < i ==> !WaitsFor(ws[j], a)) && ws' == ws[i := ws[i].(inUse := false)]
  }

  lemma {:induction false} NoneWaiting(ws: seq<Waiter>, a: nat)
    ensures Waiting(ws, a) == 0 <==> forall i :: 0 <= i < |ws| ==> !WaitsFor(ws[i], a)
  {
    if ws != [] {
      NoneWaiting(ws[1..], a);
      assert forall i :: 0 < i < |ws| ==> ws[i] == ws[1..][i - 1];
    }
  }

  lemma {:induction false} OneWaiting(ws: seq<Waiter>, a: nat) returns (i: nat)
    requires Waiting(ws, a) == 1
    ensures i < |ws| && WaitsFor(ws[i], a) && forall j :: 0 <= j < |ws| && j != i ==> !WaitsFor(ws[j], a)
  {
    assert forall j :: 0 < j < |ws| ==> ws[j] == ws[1..][j - 1];
    if WaitsFor(ws[0], a) {
      NoneWaiting(ws[1..], a);
      return 0;
    } else {
      i := OneWaiting(ws[1..], a);
      i := i + 1;
    }
  }

  lemma OneWoken(ws: seq<Waiter>, ws': seq<Waiter>, a: nat, cut: nat)
    requires WokenUpTo(ws, ws', a, cut) && Waiting(ws[..cut], a) <= 1 && (Waiting(ws[..cut], a) == 1 || cut == |ws|)
    ensures FirstReleased(ws, ws', a)
  {
    if Waiting(ws[..cut], a) == 1 {
      var i := OneWaiting(ws[..cut], a);
      assert forall j :: 0 <= j < cut ==> ws[..cut][j] == ws[j];
      assert ws' == ws[i := ws[i].(inUse := false)];
    } else {
      NoneWaiting(ws[..cut], a);
      assert ws[..cut] == ws;
    }
  }

  /** One node of the walk: its word is visited, and the walk goes on at the next node if it can be read. */
  lemma WalkStep(mem: Flat, head: nat, node: u64, offset: int, tid: bv32, left: nat, done: seq<nat>)
    requires node != 0 && node != head && left > 0
    ensures var a := FutexAddr(node, offset);
            var mem' := Visit(mem, a, tid);
            if !UserRange(node, 8) then
              && Walk(mem, head, node, offset, tid, left) == mem'
              && done + Visits(mem, head, node, offset, tid, left) == done + [a]
            else
              && Walk(mem, head, node, offset, tid, left) == Walk(mem', head, ReadWord(mem', node), offset, tid, left - 1)
              && done + Visits(mem, head, node, offset, tid, left) ==
                 (done + [a]) + Visits(mem', head, ReadWord(mem', node), offset, tid, left - 1)
  {
    hide Visit, ReadWord, FutexAddr;
  }

  lemma WalkEnd(mem: Flat, head: nat, node: u64, offset: int, tid: bv32, left: nat, done: seq<nat>)
    requires node == 0 || node == head || left == 0
    ensures Walk(mem, head, node, offset, tid, left) == mem && done + Visits(mem, head, node, offset, tid, left) == done
  {
  }

  class Futexes {
    var mem: Flat
    var waiters: seq<Waiter>

    /**
     futex_wake: releases waiters in table order.  It stops after `count` of them; with a count
     of zero it does not stop early and releases all.
     */
    method FutexWake(a: nat, count: nat) returns (woke: nat, ghost cut: nat)
      modifies this`waiters
      ensures WokenUpTo(old(waiters), waiters, a, cut) && woke == Waiting(old(waiters)[..cut], a)
      ensures count > 0 ==> woke <= count
      ensures (woke == count && count > 0) || cut == |waiters|
    {
      woke := 0;
      var i := 0;
      while i < |waiters|
        invariant WokenUpTo(old(waiters), waiters, a, i) && woke == Waiting(old(waiters)[..i], a)
        invariant count > 0 ==> woke < count
      {
        WaitingAppend(old(waiters), a, i);
        if waiters[i].inUse && waiters[i].addr == a {
          waiters := waiters[i := waiters[i].(inUse := false)];
          woke := woke + 1;
          if woke == count { return woke, i + 1; }
        }
        i := i + 1;
      }
      cut := i;
    }

    method WakeRobustFutex(a: nat, tid: bv32)
      modifies this
      ensures mem == Visit(old(mem), a, tid) && |waiters| == |old(waiters)|
      ensures forall i :: 0 <= i < |waiters| && waiters[i] != old(waiters)[i] ==>
                WaitsFor(old(waiters)[i], a) && Owned(old(mem), a, tid) && waiters[i] == old(waiters)[i].(inUse := false)
      ensures if Owned(old(mem), a, tid) then FirstReleased(old(waiters), waiters, a) else waiters == old(waiters)
    {
      hide Read32, Write32, Orphan, HeldBy;
      if !UserRange(a, 4) { return; }
      var word := Read32(mem, a);
      if !HeldBy(word, tid) { return; }
      mem := Write32(mem, a, Orphan(word));
      var woke;
      ghost var cut;
      woke, cut := FutexWake(a, 1);
      OneWoken(old(waiters), waiters, a, cut);
    }

    /** release_robust_list: memory as `Release` says; waiters are released only on visited words. */
    method ReleaseRobustList(head: u64, len: nat, tid: bv32)
      modifies this
      ensures mem == Release(old(mem), head, len, tid)
      ensures OnlyWoken(old(waiters), waiters, AllVisits(old(mem), head, len, tid))
    {
      hide Visit, ReadWord, FutexAddr, Read32, Owned, Walk, Visits, OnlyWoken;
      NoneWoken(waiters);
      if head == 0 || len != HEAD_BYTES { return; }
      if !UserRange(head, HEAD_BYTES) { return; }
      var next, offset, pending := ReadWord(mem, head), Signed(ReadWord(mem, head + 8)), ReadWord(mem, head + 16);
      var node := next;
      var seen := 0;
      ghost var done: seq<nat> := [];
      while node != 0 && node != head && seen < LIMIT
        invariant seen <= LIMIT && OnlyWoken(old(waiters), waiters, done)
        invariant Walk(mem, head, node, offset, tid, LIMIT - seen) == ListWalk(old(mem), head, tid)
        invariant done + Visits(mem, head, node, offset, tid, LIMIT - seen) == ListVisits(old(mem), head, tid)
        decreases LIMIT - seen
      {
        WalkStep(mem, head, node, offset, tid, LIMIT - seen, done);
        ghost var before, a := waiters, FutexAddr(node, offset);
        WakeRobustFutex(FutexAddr(node, offset), tid);
        WokenMore(old(waiters), before, waiters, done, a);
        done := done + [a];
        if !UserRange(node, 8) { break; }
        node := ReadWord(mem, node);
        seen := seen + 1;
      }
      if node == 0 || node == head || seen == LIMIT { WalkEnd(mem, head, node, offset, tid, LIMIT - seen, done); }
      if pending != 0 {
        ghost var before, a := waiters, FutexAddr(pending, offset);
        WakeRobustFutex(FutexAddr(pending, offset), tid);
        WokenMore(old(waiters), before, waiters, ListVisits(old(mem), head, tid), a);
      } else {
        assert ListVisits(old(mem), head, tid) + [] == ListVisits(old(mem), head, tid);
      }
    }
  }

  /** Waiters were released only if they waited on one of the words in `s`. */
  ghost predicate OnlyWoken(ws: seq<Waiter>, ws': seq<Waiter>, s: seq<nat>) {
    && |ws'| == |ws|
    && forall i :: 0 <= i < |ws| && ws'[i] != ws[i] ==> ws[i].inUse && ws[i].addr in s && ws'[i] == ws[i].(inUse := false)
  }

  lemma NoneWoken(ws: seq<Waiter>)
    ensures OnlyWoken(ws, ws, [])
  {
  }

  lemma WokenMore(ws: seq<Waiter>, mid: seq<Waiter>, ws': seq<Waiter>, s: seq<nat>, a: nat)
    requires OnlyWoken(ws, mid, s) && |ws'| == |mid|
    requires forall i :: 0 <= i < |mid| && ws'[i] != mid[i] ==> WaitsFor(mid[i], a) && ws'[i] == mid[i].(inUse := false)
    ensures OnlyWoken(ws, ws', s + [a])
  {
  }
}
