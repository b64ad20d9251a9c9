/**
 All address spaces together: creating them (exec and fork), changing them (brk, mmap, munmap,
 mprotect), and what holds after any number of such calls in any order.
 */
module AddressSpaces {
  import opened Physical
  import opened Pmm
  import opened Paging
  import opened UserMemory
  import opened VirtualMemory
  import Elf
  import Exec
  import Fork

  /**
   The space `child` was added; kernel frames stayed what and where they were, and every space
   that existed before maps the same pages with the same bytes; links that passed still do.
   */
  ghost predicate NewSpace(phys: Memory, own: Ownership, free: set<nat>,
                           phys': Memory, own': Ownership, free': set<nat>, child: nat) {
    && !IsRoot(own, child)
    && (forall f :: 0 <= f < MAX_FRAMES && f !in own && f !in free ==> f !in own' && f !in free' && phys'[f] == phys[f])
    && (forall r :: IsRoot(own', r) <==> IsRoot(own, r) || r == child)
    && (forall r, q :: IsRoot(own, r) && UserPage(q) ==> View(phys', r, q) == View(phys, r, q))
    && (forall r, va :: IsRoot(own, r) && 0 <= va < USER_TOP ==> UserByte(phys', r, va) == UserByte(phys, r, va))
    && (Open(phys, own) ==> Open(phys', own'))
  }

  lemma NewSpaceThenOnly(p0: Memory, o0: Ownership, f0: set<nat>, p1: Memory, o1: Ownership, f1: set<nat>,
                         p2: Memory, o2: Ownership, f2: set<nat>, child: nat)
    requires NewSpace(p0, o0, f0, p1, o1, f1, child) && OnlySpace(p1, o1, f1, p2, o2, f2, child)
    ensures NewSpace(p0, o0, f0, p2, o2, f2, child)
  {
    hide Open;
  }

  /** Writing only frames that were free disturbs no existing space. */
  lemma FreeFramesWritten(phys: Memory, own: Ownership, free: set<nat>, phys': Memory, own': Ownership, free': set<nat>, child: nat)
    requires Wf(phys, own, free) && child in free
    requires free' <= free
    requires forall f :: 0 <= f < MAX_FRAMES && f !in free ==> phys'[f] == phys[f]
    requires forall f :: f in own ==> f in own' && own'[f] == own[f]
    requires forall f :: f in own' ==> f in own || (f in free && (f == child || own'[f].level < 4))
    requires IsRoot(own', child) && (Open(phys, own) ==> Open(phys', own'))
    ensures NewSpace(phys, own, free, phys', own', free', child)
  {
    hide Open;
    forall r, q | IsRoot(own, r) && UserPage(q)
      ensures View(phys', r, q) == View(phys, r, q)
    {
      TablesStable(phys, phys', own, free, r, q);
    }
    forall r: nat, va: nat | IsRoot(own, r) && va < USER_TOP
      ensures UserByte(phys', r, va) == UserByte(phys, r, va)
    {
      FreeBytes(phys, own, free, phys', r, va);
    }
  }

  lemma FreeBytes(phys: Memory, own: Ownership, free: set<nat>, phys': Memory, r: nat, va: nat)
    requires Wf(phys, own, free) && IsRoot(own, r) && va < USER_TOP
    requires forall f :: 0 <= f < MAX_FRAMES && f !in free ==> phys'[f] == phys[f]
    ensures UserByte(phys', r, va) == UserByte(phys, r, va)
  {
    hide PageOf;
    PageOfUser(va);
    TablesStable(phys, phys', own, free, r, PageOf(va));
    if View(phys, r, PageOf(va)).Mapped? {
      MappedFrame(phys, own, free, r, PageOf(va));
    }
  }

  /** Taking a run of frames for the kernel keeps all spaces. */
  lemma KernelRunTaken(phys: Memory, own: Ownership, free: set<nat>, phys': Memory, free': set<nat>, kernel: nat, root: nat)
    requires Good(phys, own, free, kernel) && free' <= free
    requires forall f :: 0 <= f < MAX_FRAMES && f !in free ==> phys'[f] == phys[f]
    ensures Good(phys', own, free', kernel)
    ensures OnlySpace(phys, own, free, phys', own, free', root)
    ensures IsRoot(own, root) ==> SameSpace(phys, phys', root)
    ensures IsRoot(own, root) && NoHuge(phys, root) ==> NoHuge(phys', root)
  {
    hide Open;
    OpenTables(phys, own, phys', own);
    forall g, i: nat | g in own && own[g].level >= 1 && i < Span(own[g].level)
      ensures Linked(phys', own, g, i)
    {
      assert Linked(phys, own, g, i);
    }
    forall r: nat, i: nat | IsRoot(own, r) && 256 <= i < ENTRIES
      ensures At(phys', r, i) == At(phys', kernel, i)
    {
      assert At(phys, r, i) == At(phys, kernel, i);
    }
    forall r, q | IsRoot(own, r) && UserPage(q)
      ensures View(phys', r, q) == View(phys, r, q)
    {
      TablesStable(phys, phys', own, free, r, q);
    }
    forall r: nat, va: nat | IsRoot(own, r) && va < USER_TOP
      ensures UserByte(phys', r, va) == UserByte(phys, r, va)
    {
      FreeBytes(phys, own, free, phys', r, va);
    }
  }

  /** A root whose user entries are all empty maps nothing. */
  lemma EmptyRoot(phys: Memory, root: nat, q: Page)
    requires UserPage(q) && forall j :: 0 <= j < 256 ==> At(phys, root, j) == ZERO_ENTRY
    ensures View(phys, root, q).Absent?
  {
  }

  // ----- exec -----

  const STACK_BASE: nat := Exec.USER_STACK_TOP - Exec.USER_STACK_PAGES * PAGE_SIZE

  datatype Program = Program(pml4: nat, image: Elf.LoadedImage, sp: nat)
  datatype ExecResult = Started(program: Program) | NotStarted | ExecPanicked

  /** The segments of a file that `LoadInto` accepted. */
  function FileSegments(data: seq<byte>): seq<Elf.Segment>
    requires Elf.CheckIdent(data).None?
    requires Elf.ReadHeader(data).phentsize >= Elf.PHDR_SIZE && Elf.AllInFile(data, Elf.ReadHeader(data), Elf.ReadHeader(data).phnum)
  {
    Elf.Segments(data, Elf.ReadHeader(data), Elf.ReadHeader(data).phnum)
  }

  /** What the loader reports about a file: its entry point and where its program headers are. */
  function FileImage(data: seq<byte>): Elf.LoadedImage
    requires Elf.CheckIdent(data).None?
    requires Elf.ReadHeader(data).phentsize >= Elf.PHDR_SIZE && Elf.AllInFile(data, Elf.ReadHeader(data), Elf.ReadHeader(data).phnum)
  {
    var h := Elf.ReadHeader(data);
    Elf.LoadedImage(h.entry, Elf.PhdrAddress(h.phoff, FileSegments(data)), h.phentsize, h.phnum)
  }

  predicate OnStack(va: nat) { STACK_BASE <= va < Exec.USER_STACK_TOP }

  /** The page at an address is mapped, and user code may read and write it, and execute it or not. */
  ghost predicate UserMay(phys: Memory, pml4: nat, va: nat, execute: bool) {
    && View(phys, pml4, PageOf(va)).Mapped?
    && var e := View(phys, pml4, PageOf(va)).entry;
    e.present && e.user && e.writable && e.nx == !execute
  }

  /** What a started program finds: its image, executable, outside the stack, and the initial stack, not executable. */
  ghost predicate Prepared(phys: Memory, data: seq<byte>, name: string, ids: Exec.Ids, p: Program) {
    && Elf.CheckIdent(data).None?
    && Elf.ReadHeader(data).phentsize >= Elf.PHDR_SIZE
    && Elf.AllInFile(data, Elf.ReadHeader(data), Elf.ReadHeader(data).phnum)
    && Elf.FitsFile(data, FileSegments(data)) && p.image == FileImage(data)
    && (forall va :: 0 <= va < USER_TOP && !OnStack(va) ==>
          && UserByte(phys, p.pml4, va) ==
             (if Elf.Covered(FileSegments(data), va) then Some(Elf.ImageByte(data, FileSegments(data), va)) else None)
          && (Elf.Covered(FileSegments(data), va) ==> UserMay(phys, p.pml4, va, true)))
    && (forall va :: 0 <= va < USER_TOP && OnStack(va) ==> UserMay(phys, p.pml4, va, false))
    && |Exec.ExecFn(name)| <= 66
    && p.sp % 16 == 0 && STACK_BASE <= p.sp < Exec.USER_STACK_TOP
    && Exec.WordsAt(phys, p.pml4, p.sp, Exec.StackWords(Exec.USER_STACK_TOP, name, p.image, ids))
    && Exec.BytesAt(phys, p.pml4, Exec.ExecFnAddress(Exec.USER_STACK_TOP, name), Exec.ExecFn(name))
    && Exec.BytesAt(phys, p.pml4, Exec.RandomAddress(Exec.USER_STACK_TOP, name), Exec.RANDOM_BYTES)
  }

  /** What a program of this file and name should find on its stack. */
  ghost function Expected(data: seq<byte>, name: string, ids: Exec.Ids): Exec.Startup
    requires Elf.CheckIdent(data).None? && |Exec.ExecFn(name)| <= 66
    requires Elf.ReadHeader(data).phentsize >= Elf.PHDR_SIZE && Elf.AllInFile(data, Elf.ReadHeader(data), Elf.ReadHeader(data).phnum)
  {
    var h, path := Elf.ReadHeader(data), Exec.ExecFnAddress(Exec.USER_STACK_TOP, name);
    Exec.Startup([path], [],
      [Exec.Aux(3, Elf.PhdrAddress(h.phoff, FileSegments(data))), Exec.Aux(4, h.phentsize), Exec.Aux(5, h.phnum),
       Exec.Aux(6, PAGE_SIZE), Exec.Aux(9, h.entry), Exec.Aux(11, ids.uid), Exec.Aux(12, ids.euid), Exec.Aux(13, ids.gid),
       Exec.Aux(14, ids.egid), Exec.Aux(23, 0), Exec.Aux(25, Exec.RandomAddress(Exec.USER_STACK_TOP, name)), Exec.Aux(31, path)])
  }

  lemma ExpectedAux(data: seq<byte>, name: string, ids: Exec.Ids)
    requires Elf.CheckIdent(data).None? && |Exec.ExecFn(name)| <= 66
    requires Elf.ReadHeader(data).phentsize >= Elf.PHDR_SIZE && Elf.AllInFile(data, Elf.ReadHeader(data), Elf.ReadHeader(data).phnum)
    ensures var path, random := Exec.ExecFnAddress(Exec.USER_STACK_TOP, name), Exec.RandomAddress(Exec.USER_STACK_TOP, name);
            Expected(data, name, ids) == Exec.Startup([path], [], Exec.AuxVector(FileImage(data), ids, random, path)[..12])
  {
  }

  /** At `at` lies a C string: a slash and then the name, cut to 64 characters of a byte each. */
  ghost predicate PathAt(phys: Memory, root: nat, at: nat, name: string) {
    var n := if |name| < 64 then |name| else 64;
    && UserByte(phys, root, at) == Some('/' as int) && UserByte(phys, root, at + 1 + n) == Some(0)
    && forall i :: 0 <= i < n ==> UserByte(phys, root, at + 1 + i) == Some((name[i] as int) % 256)
  }

  lemma PathBytes(phys: Memory, root: nat, at: nat, name: string)
    requires Exec.BytesAt(phys, root, at, Exec.ExecFn(name))
    ensures PathAt(phys, root, at, name)
  {
    hide UserByte, Exec.ExecFn;
    var path, n := Exec.ExecFn(name), if |name| < 64 then |name| else 64;
    assert UserByte(phys, root, at + 0) == Some(path[0]) && UserByte(phys, root, at + (n + 1)) == Some(path[n + 1]);
    forall i | 0 <= i < n
      ensures UserByte(phys, root, at + 1 + i) == Some((name[i] as int) % 256)
    {
      assert UserByte(phys, root, at + (1 + i)) == Some(path[1 + i]);
    }
  }

  /** The words from the stack pointer on parse to what is expected, the argument is the path and the random bytes are there. */
  ghost predicate FindsItself(phys: Memory, data: seq<byte>, name: string, ids: Exec.Ids, p: Program) {
    && Elf.CheckIdent(data).None? && |Exec.ExecFn(name)| <= 66
    && Elf.ReadHeader(data).phentsize >= Elf.PHDR_SIZE && Elf.AllInFile(data, Elf.ReadHeader(data), Elf.ReadHeader(data).phnum)
    && (var words := Exec.UserWords(phys, p.pml4, p.sp, 30);
        words.Some? && |words.value| == 30 && words.value[0] == 1 && Exec.ParseStack(words.value) == Some(Expected(data, name, ids)))
    && PathAt(phys, p.pml4, Exec.ExecFnAddress(Exec.USER_STACK_TOP, name), name)
    && Exec.UserBytes(phys, p.pml4, Exec.RandomAddress(Exec.USER_STACK_TOP, name), 16) == Some(Exec.RANDOM_BYTES)
  }

  /**
   A started program that reads its stack as section 3.4.1 of the psABI says finds itself: one
   argument, which is its path, and the entry point, program headers and random bytes of this file.
   */
  lemma ProgramStarts(phys: Memory, data: seq<byte>, name: string, ids: Exec.Ids, p: Program)
    requires Prepared(phys, data, name, ids, p) && Elf.Sane(data)
    requires ids.uid < U64 && ids.euid < U64 && ids.gid < U64 && ids.egid < U64
    ensures FindsItself(phys, data, name, ids, p)
  {
    hide UserByte, Elf.Sane, Elf.CheckIdent, Elf.ReadHeader, Elf.Segments, Elf.PhdrAddress, Elf.AllInFile, Elf.Covered;
    hide Elf.ImageByte, Exec.WordsAt, Exec.BytesAt, Exec.ParseStack, Exec.UserWords, Exec.UserBytes, Exec.StackWords, Exec.ExecFn, Expected;
    Elf.HasHeaders(data);
    Elf.ImageSized(data, Elf.ReadHeader(data));
    Exec.StackReads(phys, p.pml4, p.sp, Exec.USER_STACK_TOP, name, p.image, ids);
    ExpectedAux(data, name, ids);
    PathBytes(phys, p.pml4, Exec.ExecFnAddress(Exec.USER_STACK_TOP, name), name);
    Exec.BytesReadBack(phys, p.pml4, Exec.RandomAddress(Exec.USER_STACK_TOP, name), Exec.RANDOM_BYTES);
  }

  /**
   exec_as_task: a new space with the program's image and its initial stack.  `slotFree` says
   whether the task table has room; the kernel stack of the task comes out of the free frames.
   A well-formed file is started whenever there is a slot and frames last.
   */
  method ExecAsTask(v: Vmm, data: seq<byte>, name: string, ids: Exec.Ids, slotFree: bool) returns (r: ExecResult, ghost child: nat)
    requires v.Valid() && v.m.free != {} && Elf.Sane(data)
    modifies v, v.m, v.m.bitmap
    ensures v.Valid() && NoHuge(v.m.phys, child)
    ensures NewSpace(old(v.m.phys), old(v.own), old(v.m.free), v.m.phys, v.own, v.m.free, child)
    ensures r.Started? ==> r.program.pml4 == child && Prepared(v.m.phys, data, name, ids, r.program)
    ensures r.Started? ==> slotFree && WellFormed(data)
    ensures slotFree && WellFormed(data) && !r.Started? ==> NoStack(v.m.free)
    ensures HasShortHeader(data) ==> r.ExecPanicked?
    ensures r.ExecPanicked? ==> v.m.free == {} || HasShortHeader(data)
  {
    hide Machine.Valid, Good, OnlySpace, UserByte, NewSpace, NoHuge, FileLoaded, Prepared, Elf.Sane, NoStack, WellFormed;
    hide Elf.CheckIdent, Elf.ReadHeader;
    NoFrames();
    hide Exec.WordsAt, Exec.BytesAt, Exec.StackWords, Exec.WritesWithin, Exec.ExecFn;
    ghost var p0, o0, f0 := v.m.phys, v.own, v.m.free;
    var pml4, image;
    r, pml4, image := ExecLoad(v, data);
    child := pml4;
    if image.None? { return; }
    ghost var p1, o1, f1 := v.m.phys, v.own, v.m.free;
    var sp;
    r, sp := ExecStack(v, pml4, name, ids, image.value);
    NewSpaceThenOnly(p0, o0, f0, p1, o1, f1, v.m.phys, v.own, v.m.free, pml4);
    if sp.None? { return; }
    if !slotFree { return NotStarted, child; }
    ghost var p2, f2 := v.m.phys, v.m.free;
    var stack := KernelStack(v, pml4);
    NewSpaceThenOnly(p0, o0, f0, p2, v.own, f2, v.m.phys, v.own, v.m.free, pml4);
    if stack == 0 { return NotStarted, child; }
    r := Started(Program(pml4, image.value, sp.value));
    ProgramPrepared(p1, p2, v.m.phys, data, name, ids, r.program);
  }

  /** The file has a first program header too short to be read. */
  predicate HasShortHeader(data: seq<byte>) {
    && Elf.CheckIdent(data).None?
    && Elf.ReadHeader(data).phentsize < Elf.PHDR_SIZE && Elf.HeaderInFile(data, Elf.ReadHeader(data), 0)
  }

  /** The file is one the loader accepts. */
  ghost predicate WellFormed(data: seq<byte>) {
    Elf.CheckIdent(data).None? && Elf.FileOk(data, Elf.ReadHeader(data))
  }

  /** There are no four free frames in a row. */
  ghost predicate NoStack(free: set<nat>) {
    forall t: nat :: 0 < t ==> !FreeRun(free, t, 4)
  }

  lemma NoFrames()
    ensures NoStack({})
  {
    forall t: nat | 0 < t
      ensures !FreeRun({}, t, 4)
    {
      var none: set<nat> := {};
      assert t !in none;
    }
  }

  /** The four frames of a task's kernel stack. */
  method KernelStack(v: Vmm, ghost root: nat) returns (stack: nat)
    requires v.Valid() && IsRoot(v.own, root) && NoHuge(v.m.phys, root)
    modifies v.m, v.m.bitmap
    ensures v.Valid() && NoHuge(v.m.phys, root)
    ensures OnlySpace(old(v.m.phys), v.own, old(v.m.free), v.m.phys, v.own, v.m.free, root)
    ensures SameSpace(old(v.m.phys), v.m.phys, root)
    ensures stack == 0 ==> NoStack(v.m.free)
  {
    hide Machine.Valid, OnlySpace, UserByte, NoHuge, Good;
    stack := v.m.AllocFrames(4);
    KernelRunTaken(old(v.m.phys), v.own, old(v.m.free), v.m.phys, v.m.free, v.kernelPml4, root);
  }

  lemma FreshRoot(p0: Memory, o0: Ownership, f0: set<nat>, p1: Memory, o1: Ownership, f1: set<nat>, root: nat)
    requires Wf(p0, o0, f0) && root in f0 && f1 == f0 - {root} && o1 == o0[root := Node(4, 0, 0)]
    requires forall f :: 0 <= f < MAX_FRAMES && f != root ==> p1[f] == p0[f]
    requires forall j :: 0 <= j < 256 ==> At(p1, root, j) == ZERO_ENTRY
    ensures NewSpace(p0, o0, f0, p1, o1, f1, root) && IsRoot(o1, root)
    ensures forall q :: UserPage(q) ==> View(p1, root, q).Absent?
  {
    hide Open;
    Fork.RootOpen(p0, o0, p1, root);
    FreeFramesWritten(p0, o0, f0, p1, o1, f1, root);
    forall q | UserPage(q)
      ensures View(p1, root, q).Absent?
    {
      EmptyRoot(p1, root, q);
    }
  }

  /** What `LoadInto` promises for an accepted file. */
  ghost predicate FileLoaded(phys: Memory, pml4: nat, data: seq<byte>, image: Elf.LoadedImage) {
    && Elf.CheckIdent(data).None?
    && Elf.ReadHeader(data).phentsize >= Elf.PHDR_SIZE
    && Elf.AllInFile(data, Elf.ReadHeader(data), Elf.ReadHeader(data).phnum)
    && Elf.FitsFile(data, FileSegments(data))
    && Elf.Loaded(phys, pml4, data, FileSegments(data)) && Elf.Runnable(phys, pml4) && image == FileImage(data)
  }

  /** A new space, and the program's segments in it. */
  method ExecLoad(v: Vmm, data: seq<byte>) returns (r: ExecResult, pml4: nat, image: Option<Elf.LoadedImage>)
    requires v.Valid() && v.m.free != {} && Elf.Sane(data)
    modifies v, v.m, v.m.bitmap
    ensures v.Valid() && NoHuge(v.m.phys, pml4) && IsRoot(v.own, pml4) && !r.Started?
    ensures NewSpace(old(v.m.phys), old(v.own), old(v.m.free), v.m.phys, v.own, v.m.free, pml4)
    ensures image.Some? ==> FileLoaded(v.m.phys, pml4, data, image.value) && WellFormed(data)
    ensures image.None? && WellFormed(data) ==> v.m.free == {}
    ensures r.ExecPanicked? ==> image.None?
    ensures HasShortHeader(data) ==> r.ExecPanicked?
    ensures r.ExecPanicked? ==> v.m.free == {} || HasShortHeader(data)
  {
    hide Machine.Valid, Wf, Linked, View, Walk, PageOf, OnlySpace, UserByte, NewSpace, Elf.Loaded, Elf.Segments,
      Elf.ReadHeader, Elf.CheckIdent, Elf.Sane, Elf.FileOk, Elf.PhdrAddress;
    pml4 := Fork.CloneKernelAddressSpace(v);
    ghost var p1, o1, f1 := v.m.phys, v.own, v.m.free;
    FreshRoot(old(v.m.phys), old(v.own), old(v.m.free), p1, o1, f1, pml4);
    var lr := Elf.LoadInto(v, pml4, data);
    NewSpaceThenOnly(old(v.m.phys), old(v.own), old(v.m.free), p1, o1, f1, v.m.phys, v.own, v.m.free, pml4);
    Elf.RootKept(p1, o1, f1, v.m.phys, v.own, v.m.free, pml4);
    if lr.Panicked? { return ExecPanicked, pml4, None; }
    if lr.Err? { return NotStarted, pml4, None; }
    return NotStarted, pml4, Some(lr.image);
  }

  /** The stack is mapped, for user code to read and write; everything else is as in `p0`. */
  ghost predicate StackAdded(p0: Memory, phys: Memory, pml4: nat) {
    forall va :: 0 <= va < USER_TOP ==>
      if OnStack(va) then UserMay(phys, pml4, va, false)
      else UserByte(phys, pml4, va) == UserByte(p0, pml4, va) && View(phys, pml4, PageOf(va)) == View(p0, pml4, PageOf(va))
  }

  method ExecStack(v: Vmm, pml4: nat, name: string, ids: Exec.Ids, image: Elf.LoadedImage)
    returns (r: ExecResult, sp: Option<nat>)
    requires v.Valid() && IsRoot(v.own, pml4) && NoHuge(v.m.phys, pml4)
    modifies v, v.m, v.m.bitmap
    ensures v.Valid() && NoHuge(v.m.phys, pml4) && IsRoot(v.own, pml4) && !r.Started?
    ensures OnlySpace(old(v.m.phys), old(v.own), old(v.m.free), v.m.phys, v.own, v.m.free, pml4)
    ensures |Exec.ExecFn(name)| <= 66
    ensures sp.None? ==> v.m.free == {}
    ensures r.ExecPanicked? ==> sp.None?
    ensures sp.Some? ==>
              && sp.value % 16 == 0 && STACK_BASE <= sp.value < Exec.USER_STACK_TOP
              && Exec.WordsAt(v.m.phys, pml4, sp.value, Exec.StackWords(Exec.USER_STACK_TOP, name, image, ids))
              && Exec.BytesAt(v.m.phys, pml4, Exec.ExecFnAddress(Exec.USER_STACK_TOP, name), Exec.ExecFn(name))
              && Exec.BytesAt(v.m.phys, pml4, Exec.RandomAddress(Exec.USER_STACK_TOP, name), Exec.RANDOM_BYTES)
              && StackAdded(old(v.m.phys), v.m.phys, pml4)
              && sp.value + 8 * |Exec.StackWords(Exec.USER_STACK_TOP, name, image, ids)| <= Exec.USER_STACK_TOP
  {
    hide Machine.Valid, Wf, Linked, View, Walk, PageOf, OnlySpace, UserByte, RangeMapped, Accounted, Exec.WordsAt,
      Exec.BytesAt, Exec.WritesWithin;
    hide Exec.AuxVector, Exec.AuxWords, Exec.MappedRange;
    ghost var p1, o1, f1 := v.m.phys, v.own, v.m.free;
    var mr, mapped := MapPages(v, pml4, STACK_BASE, Exec.USER_STACK_PAGES * PAGE_SIZE, MapFlags(true, true, false), []);
    StringLength(name);
    if mr.Panic? { return ExecPanicked, None; }
    if !mr.Done? { return NotStarted, None; }
    ghost var p2 := v.m.phys;
    StackMapped(p1, p2, pml4, f1);
    sp := Exec.BuildInitialStack(v, pml4, Exec.USER_STACK_TOP, name, image, ids);
    OnlySpaceTransitive(p1, o1, f1, p2, v.own, v.m.free, v.m.phys, v.own, v.m.free, pml4);
    Exec.AuxWordsLength(Exec.AuxVector(image, ids, Exec.RandomAddress(Exec.USER_STACK_TOP, name), Exec.ExecFnAddress(Exec.USER_STACK_TOP, name)));
    AuxCount(image, ids, Exec.RandomAddress(Exec.USER_STACK_TOP, name), Exec.ExecFnAddress(Exec.USER_STACK_TOP, name));
    StackBytes(p1, p2, v.m.phys, pml4, f1, sp.value);
    r := NotStarted;
  }

  lemma StringLength(name: string)
    ensures 2 <= |Exec.ExecFn(name)| <= 66
  {
  }

  lemma AuxCount(image: Elf.LoadedImage, ids: Exec.Ids, random: nat, execfn: nat)
    ensures |Exec.AuxVector(image, ids, random, execfn)| == 13
  {
  }

  lemma StackMapped(p1: Memory, p2: Memory, pml4: nat, pool: set<nat>)
    requires RangeMapped(p1, p2, pml4, STACK_BASE, Exec.USER_STACK_PAGES * PAGE_SIZE, MapFlags(true, true, false), [], pool)
    ensures Exec.MappedRange(p2, pml4, Exec.USER_STACK_TOP - PAGE_SIZE, Exec.USER_STACK_TOP)
  {
    hide View, PageOf, UserByte;
    forall va | Exec.USER_STACK_TOP - PAGE_SIZE <= va < Exec.USER_STACK_TOP
      ensures View(p2, pml4, PageOf(va)).Mapped?
    {
      assert RangeAt(p1, p2, pml4, STACK_BASE, Exec.USER_STACK_PAGES * PAGE_SIZE, MapFlags(true, true, false), [], pool, va);
    }
  }

  lemma StackBytes(p1: Memory, p2: Memory, p3: Memory, pml4: nat, pool: set<nat>, sp: nat)
    requires RangeMapped(p1, p2, pml4, STACK_BASE, Exec.USER_STACK_PAGES * PAGE_SIZE, MapFlags(true, true, false), [], pool)
    requires Exec.WritesWithin(p2, p3, pml4, sp, Exec.USER_STACK_TOP) && STACK_BASE <= sp
    ensures StackAdded(p1, p3, pml4)
  {
    hide View, PageOf, UserByte;
    forall va: nat | va < USER_TOP
      ensures if OnStack(va) then UserMay(p3, pml4, va, false)
              else UserByte(p3, pml4, va) == UserByte(p1, pml4, va) && View(p3, pml4, PageOf(va)) == View(p1, pml4, PageOf(va))
    {
      PageOfUser(va);
      assert RangeAt(p1, p2, pml4, STACK_BASE, Exec.USER_STACK_PAGES * PAGE_SIZE, MapFlags(true, true, false), [], pool, va);
    }
  }

  lemma ProgramPrepared(p1: Memory, p2: Memory, p3: Memory, data: seq<byte>, name: string, ids: Exec.Ids, p: Program)
    requires FileLoaded(p1, p.pml4, data, p.image)
    requires StackAdded(p1, p2, p.pml4)
    requires |Exec.ExecFn(name)| <= 66 && p.sp % 16 == 0 && STACK_BASE <= p.sp < Exec.USER_STACK_TOP
    requires Exec.WordsAt(p2, p.pml4, p.sp, Exec.StackWords(Exec.USER_STACK_TOP, name, p.image, ids))
    requires Exec.BytesAt(p2, p.pml4, Exec.ExecFnAddress(Exec.USER_STACK_TOP, name), Exec.ExecFn(name))
    requires Exec.BytesAt(p2, p.pml4, Exec.RandomAddress(Exec.USER_STACK_TOP, name), Exec.RANDOM_BYTES)
    requires p.sp + 8 * |Exec.StackWords(Exec.USER_STACK_TOP, name, p.image, ids)| <= Exec.USER_STACK_TOP
    requires SameSpace(p2, p3, p.pml4)
    ensures Prepared(p3, data, name, ids, p)
  {
    hide View, PageOf, UserByte, Elf.Covered, Elf.ImageByte, Elf.CheckIdent, Elf.ReadHeader, Elf.Segments, Exec.StackWords, Exec.ExecFn;
    Elf.CoveredRunnable(p1, p.pml4, data, FileSegments(data));
    forall va: nat | va < USER_TOP
      ensures View(p3, p.pml4, PageOf(va)) == View(p2, p.pml4, PageOf(va))
    {
      PageOfUser(va);
    }
  }

  // ----- fork -----

  /** The memory side of fork: the copied space and the kernel stack of the child's task. */
  method ForkTask(v: Vmm, src: nat, slotFree: bool) returns (alive: bool, spawned: Option<nat>, ghost child: nat)
    requires v.Valid() && IsRoot(v.own, src) && NoHuge(v.m.phys, src) && v.m.free != {}
    modifies v, v.m, v.m.bitmap
    ensures v.Valid()
    ensures NewSpace(old(v.m.phys), old(v.own), old(v.m.free), v.m.phys, v.own, v.m.free, child)
    ensures !alive ==> v.m.free == {}
    ensures spawned.Some? ==> slotFree && alive && spawned.value == child && NoHuge(v.m.phys, child)
    ensures slotFree && spawned.None? ==> NoStack(v.m.free)
    ensures spawned.Some? ==> forall va :: 0 <= va < USER_TOP ==>
              UserByte(v.m.phys, child, va) == UserByte(old(v.m.phys), src, va)
  {
    hide Machine.Valid, NewSpace, OnlySpace, NoHuge, Fork.DeepCopied, View, Walk, Reach, Wf, SameView, UserByte, NoStack;
    NoFrames();
    ghost var p0, o0, f0 := v.m.phys, v.own, v.m.free;
    var ok, root := Fork.CloneUserAddressSpace(v, src);
    child := root;
    FreeFramesWritten(p0, o0, f0, v.m.phys, v.own, v.m.free, child);
    if !ok { return false, None, child; }
    OldSpace(p0, o0, f0, v.m.phys, v.own, v.m.free, child, src);
    CopyNoHuge(v.m.phys, src, child, f0);
    CopyBytes(p0, o0, f0, v.m.phys, v.own, v.m.free, src, child);
    if !slotFree { return true, None, child; }
    ghost var p1, f1 := v.m.phys, v.m.free;
    var stack := KernelStack(v, child);
    NewSpaceThenOnly(p0, o0, f0, p1, v.own, f1, v.m.phys, v.own, v.m.free, child);
    if stack == 0 { return true, None, child; }
    return true, Some(root), child;
  }

  /** The child reads the bytes the parent had. */
  lemma CopyBytes(p0: Memory, o0: Ownership, f0: set<nat>, phys: Memory, own: Ownership, free: set<nat>, src: nat, child: nat)
    requires NewSpace(p0, o0, f0, phys, own, free, child) && IsRoot(o0, src)
    requires forall q: Page :: UserPage(q) ==> Fork.DeepCopied(phys, View(phys, src, q), View(phys, child, q), f0)
    ensures forall va :: 0 <= va < USER_TOP ==> UserByte(phys, child, va) == UserByte(p0, src, va)
  {
  }

  // ----- Every run -----

  /**
   Frame ownership: no two mapped user pages, in whatever spaces, share a frame; no mapped frame
   is a page table of any space; and every frame on a user path is marked used in the bitmap.
   */
  ghost predicate Exclusive(phys: Memory, own: Ownership, free: set<nat>) {
    && (forall r, p, s, q ::
          (&& IsRoot(own, r) && IsRoot(own, s) && UserPage(p) && UserPage(q)
           && View(phys, r, p).Mapped? && View(phys, s, q).Mapped?
           && View(phys, r, p).entry.frame == View(phys, s, q).entry.frame) ==> r == s && p == q)
    && (forall r, p, s, q, k ::
          (&& IsRoot(own, r) && IsRoot(own, s) && UserPage(p) && UserPage(q) && 1 <= k <= 4
           && View(phys, r, p).Mapped? && Reach(phys, s, q, k).Some?) ==>
          View(phys, r, p).entry.frame != Reach(phys, s, q, k).value)
    && (forall r, p, k: nat :: IsRoot(own, r) && UserPage(p) && k <= 4 && Reach(phys, r, p, k).Some? ==>
          Reach(phys, r, p, k).value < MAX_FRAMES && Reach(phys, r, p, k).value !in free)
  }

  /** Frames of the kernel, neither free nor part of a user space, keep place and contents. */
  ghost predicate KernelKept(phys: Memory, own: Ownership, free: set<nat>, phys': Memory, own': Ownership, free': set<nat>) {
    forall f :: 0 <= f < MAX_FRAMES && f !in own && f !in free ==> f !in own' && f !in free' && phys'[f] == phys[f]
  }

  /** A space maps the same pages with the same bytes. */
  ghost predicate SameSpace(phys: Memory, phys': Memory, root: nat) {
    && (forall q :: UserPage(q) ==> View(phys', root, q) == View(phys, root, q))
    && (forall va :: 0 <= va < USER_TOP ==> UserByte(phys', root, va) == UserByte(phys, root, va))
  }

  lemma SameSpaceSame(phys: Memory)
    ensures forall root :: SameSpace(phys, phys, root)
  {
  }

  lemma SameSpaceTransitive(p0: Memory, p1: Memory, p2: Memory, root: nat)
    requires SameSpace(p0, p1, root) && SameSpace(p1, p2, root)
    ensures SameSpace(p0, p2, root)
  {
  }

  lemma OnlyKeepsKernel(phys: Memory, own: Ownership, free: set<nat>, phys': Memory, own': Ownership, free': set<nat>, root: nat)
    requires OnlySpace(phys, own, free, phys', own', free', root)
    ensures KernelKept(phys, own, free, phys', own', free') && (Open(phys, own) ==> Open(phys', own'))
  {
    hide Open;
  }

  lemma NewKeepsKernel(phys: Memory, own: Ownership, free: set<nat>, phys': Memory, own': Ownership, free': set<nat>, child: nat)
    requires NewSpace(phys, own, free, phys', own', free', child)
    ensures KernelKept(phys, own, free, phys', own', free') && IsRoot(own', child) && (Open(phys, own) ==> Open(phys', own'))
  {
    hide Open;
  }

  lemma WfExclusive(phys: Memory, own: Ownership, free: set<nat>)
    requires Wf(phys, own, free)
    ensures Exclusive(phys, own, free)
  {
    forall r, p, s, q | IsRoot(own, r) && IsRoot(own, s) && UserPage(p) && UserPage(q)
                        && View(phys, r, p).Mapped? && View(phys, s, q).Mapped?
                        && View(phys, r, p).entry.frame == View(phys, s, q).entry.frame
      ensures r == s && p == q
    {
      FramesDistinct(phys, own, free, r, p, s, q);
    }
    forall r, p, s, q, k | IsRoot(own, r) && IsRoot(own, s) && UserPage(p) && UserPage(q) && 1 <= k <= 4
                           && View(phys, r, p).Mapped? && Reach(phys, s, q, k).Some?
      ensures View(phys, r, p).entry.frame != Reach(phys, s, q, k).value
    {
      MappedFrame(phys, own, free, r, p);
      ReachOwned(phys, own, free, s, q, k);
    }
    forall r, p, k: nat | IsRoot(own, r) && UserPage(p) && k <= 4 && Reach(phys, r, p, k).Some?
      ensures Reach(phys, r, p, k).value < MAX_FRAMES && Reach(phys, r, p, k).value !in free
    {
      ReachOwned(phys, own, free, r, p, k);
    }
  }

  lemma OtherSpace(phys: Memory, own: Ownership, free: set<nat>, phys': Memory, own': Ownership, free': set<nat>, root: nat, r: nat)
    requires OnlySpace(phys, own, free, phys', own', free', root) && IsRoot(own, r) && NoHuge(phys, r) && r != root
    ensures IsRoot(own', r) && NoHuge(phys', r) && SameSpace(phys, phys', r)
  {
  }

  lemma OldSpace(phys: Memory, own: Ownership, free: set<nat>, phys': Memory, own': Ownership, free': set<nat>, child: nat, r: nat)
    requires NewSpace(phys, own, free, phys', own', free', child) && IsRoot(own, r) && NoHuge(phys, r)
    ensures IsRoot(own', r) && NoHuge(phys', r) && r != child && IsRoot(own', child) && SameSpace(phys, phys', r)
  {
  }

  /** A deep copy of a space without huge pages has none either. */
  lemma CopyNoHuge(phys: Memory, src: nat, child: nat, pool: set<nat>)
    requires NoHuge(phys, src)
    requires forall q: Page :: UserPage(q) ==> Fork.DeepCopied(phys, View(phys, src, q), View(phys, child, q), pool)
    ensures NoHuge(phys, child)
  {
  }

  datatype Call =
    | ExecCall(data: seq<byte>, name: string, ids: Exec.Ids, slotFree: bool)
    | ForkCall(i: nat, slotFree: bool)
    | BrkCall(i: nat, addr: nat)
    | MmapCall(i: nat, addr: nat, len: nat, prot: nat, flags: nat, fd: int, off: int, file: Option<seq<byte>>)
    | MunmapCall(i: nat, addr: nat, len: nat)
    | MprotectCall(i: nat, addr: nat, len: nat, prot: nat)

  lemma CountPositive(m: Machine)
    requires m.Valid()
    ensures m.freeFrames == 0 <==> m.free == {}
  {
    hide Clear;
  }

  // ----- What one call does -----

  /** What a process has of the address-space state. */
  datatype Space = Space(pml4: nat, brk: nat, base: nat, vmas: seq<VmRegion>)

  ghost function SpaceOf(p: ProcessMemory): Space
    reads p
  {
    Space(p.pml4, p.programBreak, p.nextMmapBase, p.vmas)
  }

  function PlaceFor(a: Space, addr: nat): nat { if addr == 0 then RoundUp(a.base) else RoundDown(addr) }

  /** The memory calls the model covers. */
  predicate InDomain(a: Space, call: Call) {
    match call
    case BrkCall(_, addr) => addr <= USER_TOP
    case MmapCall(_, addr, len, _, flags, fd, off, _) =>
      MmapArgs(len, flags, fd, off).Some? || (len + 0xFFF < U64 && PlaceFor(a, addr) + RoundUp(len) <= USER_TOP)
    case MunmapCall(_, _, _) => true
    case MprotectCall(_, _, _, _) => true
    case _ => false
  }

  /** Fewer free frames than a call can need for `size` bytes of pages: one for each page and three for its tables. */
  ghost predicate Scarce(free: set<nat>, size: nat) { |free| < 4 * (size / PAGE_SIZE) }

  /** brk: shrinking moves the break; growing maps zeroed pages, or leaves the break where frames are scarce. */
  ghost predicate BrkDid(p0: Memory, f0: set<nat>, a: Space, addr: nat, p1: Memory, o1: Ownership, f1: set<nat>, b: Space, r: SysResult) {
    && b == a.(brk := b.brk) && (r.Ok? ==> r.value == b.brk) && !r.Err?
    && if addr <= a.brk then p1 == p0 && f1 == f0 && r.Ok? && b.brk == if addr == 0 then a.brk else addr
       else
         && RoundUp(a.brk) <= RoundUp(addr)
         && var all: nat := RoundUp(addr) - RoundUp(a.brk);
         && (r.Ok? && b.brk == addr ==> Grown(p0, f0, a.pml4, RoundUp(a.brk), all, p1, o1, f1))
         && (b.brk != addr ==> b.brk == a.brk && Scarce(f0, all))
         && (r.Ok? && b.brk != addr ==> exists part: nat :: part < all && Grown(p0, f0, a.pml4, RoundUp(a.brk), part, p1, o1, f1))
         && (r.Panicked? ==> b.brk == a.brk && f1 == {} && Scarce(f0, all))
  }

  /** The request names a file that is not there. */
  predicate NoFile(call: Call)
    requires call.MmapCall?
  {
    !Bit(call.flags, MAP_ANONYMOUS) && call.file.None?
  }

  /** The region the request asks for is in the first free slot. */
  predicate Recorded(a: Space, call: Call, b: Space)
    requires call.MmapCall?
  {
    && FirstFree(a.vmas) < |a.vmas|
    && b.vmas == a.vmas[FirstFree(a.vmas) := VmRegion(PlaceFor(a, call.addr), RoundUp(call.len), call.prot, call.flags, true)]
  }

  /** mmap of a request that can be placed: the range is mapped, or everything is given back where frames are scarce. */
  ghost predicate MmapPlaced(p0: Memory, f0: set<nat>, a: Space, call: Call, p1: Memory, o1: Ownership, f1: set<nat>, b: Space, r: SysResult)
    requires call.MmapCall? && !NoFile(call) && (!Bit(call.flags, MAP_ANONYMOUS) ==> call.off >= 0)
  {
    var at, size := PlaceFor(a, call.addr), RoundUp(call.len);
    match r
    case Ok(start) =>
      && start == at && Recorded(a, call, b)
      && RangeMapped(p0, p1, a.pml4, at, size, MapFlagsFromProt(call.prot),
                     if Bit(call.flags, MAP_ANONYMOUS) then [] else ReadRange(call.file.value, call.off, size), f0)
      && Accounted(p1, o1, f1, a.pml4, at, at + size, f0)
      && Shows(p1, a.pml4, at, size, call.prot, if Bit(call.flags, MAP_ANONYMOUS) then [] else call.file.value,
               if Bit(call.flags, MAP_ANONYMOUS) then 0 else call.off)
    case Err(e) =>
      && e == NoMem && b.vmas == a.vmas && Scarce(f0, size)
      && Accounted(p1, o1, f1, a.pml4, at, at, f0)
      && (Unmapped(p0, a.pml4, at, at + size) ==> Restored(p0, p1, a.pml4))
    case Panicked => Scarce(f0, size) && f1 == {}
  }

  /** mmap: every error has its one cause. */
  ghost predicate MmapDid(p0: Memory, f0: set<nat>, a: Space, call: Call, p1: Memory, o1: Ownership, f1: set<nat>, b: Space, r: SysResult)
    requires call.MmapCall?
  {
    var at, bad := PlaceFor(a, call.addr), MmapArgs(call.len, call.flags, call.fd, call.off);
    && b.pml4 == a.pml4 && b.brk == a.brk && b.base == (if call.addr == 0 && bad.None? then at + RoundUp(call.len) else a.base)
    && if bad.Some? then r == Err(bad.value) && b.vmas == a.vmas && p1 == p0 && f1 == f0
       else if !Placeable(a.vmas, call.addr, at, call.len, call.flags) then r == Err(Invalid) && b.vmas == a.vmas && p1 == p0 && f1 == f0
       else if NoFile(call) then r == Err(BadFd) && Recorded(a, call, b) && p1 == p0 && f1 == f0
       else (!Bit(call.flags, MAP_ANONYMOUS) ==> call.off >= 0) && MmapPlaced(p0, f0, a, call, p1, o1, f1, b, r)
  }

  /** munmap: exactly one region and its pages go, or nothing. */
  ghost predicate MunmapDid(p0: Memory, f0: set<nat>, a: Space, addr: nat, len: nat, p1: Memory, f1: set<nat>, b: Space, r: SysResult) {
    && b == a.(vmas := b.vmas) && (r.Ok? <==> addr != 0 && len != 0 && HasRegion(a.vmas, RoundDown(addr), RoundUp(len)))
    && if r.Ok? then
         && RangeCleared(p0, f0, p1, f1, a.pml4, RoundDown(addr), RoundDown(addr) + RoundUp(len))
         && |b.vmas| == |a.vmas|
         && forall i :: 0 <= i < |b.vmas| ==>
              b.vmas[i] == if IsRegion(a.vmas[i], RoundDown(addr), RoundUp(len)) then EMPTY_REGION else a.vmas[i]
       else r == Err(Invalid) && b == a && p1 == p0 && f1 == f0
  }

  /** mprotect: the pages of one region and its entry, or, where one is not mapped, the pages before it. */
  ghost predicate MprotectDid(p0: Memory, a: Space, addr: nat, len: nat, prot: nat, p1: Memory, b: Space, r: SysResult) {
    var lo := RoundDown(addr);
    && b == a.(vmas := b.vmas)
    && if addr == 0 || len == 0 || !HasRegion(a.vmas, lo, RoundUp(len)) then r == Err(Invalid) && b.vmas == a.vmas && p1 == p0
       else if r.Ok? then
         && RangeProtected(p0, p1, a.pml4, lo, lo + RoundUp(len), MapFlagsFromProt(prot)) && Allows(p1, a.pml4, lo, RoundUp(len), prot)
         && exists i :: 0 <= i < |a.vmas| && IsRegion(a.vmas[i], lo, RoundUp(len)) && b.vmas == a.vmas[i := a.vmas[i].(prot := prot)]
       else r == Err(Invalid) && b.vmas == a.vmas && exists cut: nat :: CutAt(p0, a.pml4, lo, RoundUp(len), MapFlagsFromProt(prot), p1, cut)
  }

  ghost predicate MemoryDid(p0: Memory, f0: set<nat>, a: Space, call: Call, p1: Memory, o1: Ownership, f1: set<nat>, b: Space, r: SysResult) {
    match call
    case BrkCall(_, addr) => BrkDid(p0, f0, a, addr, p1, o1, f1, b, r)
    case MmapCall(_, _, _, _, _, _, _, _) => MmapDid(p0, f0, a, call, p1, o1, f1, b, r)
    case MunmapCall(_, addr, len) => MunmapDid(p0, f0, a, addr, len, p1, f1, b, r)
    case MprotectCall(_, addr, len, prot) => MprotectDid(p0, a, addr, len, prot, p1, b, r)
    case _ => false
  }

  method BrkCallDoes(v: Vmm, p: ProcessMemory, addr: nat) returns (r: SysResult)
    requires p.Valid(v) && addr <= USER_TOP
    modifies p, v, v.m, v.m.bitmap
    ensures p.Valid(v) && OnlySpace(old(v.m.phys), old(v.own), old(v.m.free), v.m.phys, v.own, v.m.free, p.pml4)
    ensures BrkDid(old(v.m.phys), old(v.m.free), old(SpaceOf(p)), addr, v.m.phys, v.own, v.m.free, SpaceOf(p), r)
  {
    hide Machine.Valid, Good, OnlySpace, NoHuge, RegionsOk, Grown, RoundUp;
    CountIs(v.m);
    RoundUpMonotone(p.programBreak, addr);
    r := p.Brk(v, addr);
  }

  lemma CountIs(m: Machine)
    requires m.Valid()
    ensures m.freeFrames == |m.free|
  {
    hide Clear;
  }

  method MmapCallDoes(v: Vmm, p: ProcessMemory, call: Call) returns (r: SysResult)
    requires p.Valid(v) && call.MmapCall? && InDomain(SpaceOf(p), call)
    modifies p, v, v.m, v.m.bitmap
    ensures p.Valid(v) && OnlySpace(old(v.m.phys), old(v.own), old(v.m.free), v.m.phys, v.own, v.m.free, p.pml4)
    ensures MmapDid(old(v.m.phys), old(v.m.free), old(SpaceOf(p)), call, v.m.phys, v.own, v.m.free, SpaceOf(p), r)
  {
    hide Machine.Valid, Good, OnlySpace, NoHuge, RegionsOk, RangeMapped, Accounted, Restored, Unmapped, MmapArgs, Bit,
      RegionConflicts, RoundUp, RoundDown, FirstFree, View, UserByte;
    CountIs(v.m);
    if MmapArgs(call.len, call.flags, call.fd, call.off).None? { FileArgs(call.len, call.flags, call.fd, call.off); }
    r := p.Mmap(v, call.addr, call.len, call.prot, call.flags, call.fd, call.off, call.file);
  }

  method MprotectCallDoes(v: Vmm, p: ProcessMemory, addr: nat, len: nat, prot: nat) returns (r: SysResult)
    requires p.Valid(v)
    modifies p, v, v.m`phys
    ensures p.Valid(v) && OnlySpace(old(v.m.phys), old(v.own), old(v.m.free), v.m.phys, v.own, v.m.free, p.pml4)
    ensures MprotectDid(old(v.m.phys), old(SpaceOf(p)), addr, len, prot, v.m.phys, SpaceOf(p), r)
  {
    hide Machine.Valid, Good, OnlySpace, NoHuge, RegionsOk, RangeProtected, HasRegion, IsRegion, RoundUp, RoundDown, CutAt;
    r := p.Mprotect(v, addr, len, prot);
  }

  method MemoryCall(v: Vmm, p: ProcessMemory, call: Call) returns (r: Option<SysResult>)
    requires p.Valid(v)
    modifies p, v, v.m, v.m.bitmap
    ensures p.Valid(v) && OnlySpace(old(v.m.phys), old(v.own), old(v.m.free), v.m.phys, v.own, v.m.free, p.pml4)
    ensures r.Some? <==> InDomain(old(SpaceOf(p)), call)
    ensures r.None? ==> v.m.phys == old(v.m.phys) && v.own == old(v.own) && v.m.free == old(v.m.free) && SpaceOf(p) == old(SpaceOf(p))
    ensures r.Some? ==> MemoryDid(old(v.m.phys), old(v.m.free), old(SpaceOf(p)), call, v.m.phys, v.own, v.m.free, SpaceOf(p), r.value)
  {
    hide Machine.Valid, Good, OnlySpace, NoHuge, RegionsOk, RangeCleared, MmapArgs, RoundUp, RoundDown, HasRegion, IsRegion,
      BrkDid, MmapDid, MprotectDid;
    OnlySpaceSame(v.m.phys, v.own, v.m.free, p.pml4);
    r := None;
    var got;
    match call {
      case BrkCall(_, addr) =>
        if addr <= USER_TOP {
          got := BrkCallDoes(v, p, addr);
          r := Some(got);
        }
      case MmapCall(_, addr, len, prot, flags, fd, off, file) =>
        if MmapArgs(len, flags, fd, off).Some? || (len + 0xFFF < U64 && p.MmapStart(addr) + RoundUp(len) <= USER_TOP) {
          got := MmapCallDoes(v, p, call);
          r := Some(got);
        }
      case MunmapCall(_, addr, len) =>
        got := p.Munmap(v, addr, len);
        r := Some(got);
      case MprotectCall(_, addr, len, prot) =>
        got := MprotectCallDoes(v, p, addr, len, prot);
        r := Some(got);
      case _ =>
    }
  }

  /** A program of this file has been prepared in the space. */
  ghost predicate StartedIn(phys: Memory, data: seq<byte>, name: string, ids: Exec.Ids, pml4: nat) {
    exists p: Program :: p.pml4 == pml4 && Prepared(phys, data, name, ids, p)
  }

  datatype Outcome = Created | Refused | Crashed | Skipped | Result(r: SysResult)

  predicate Fatal(o: Outcome) { o == Crashed || o == Result(Panicked) }

  /** Everything the calls are about. */
  datatype Snapshot = Snapshot(phys: Memory, own: Ownership, free: set<nat>, spaces: seq<Space>)

  /** The process a call is about, if it is a memory call. */
  function Target(call: Call): Option<nat> {
    match call
    case BrkCall(i, _) => Some(i)
    case MmapCall(i, _, _, _, _, _, _, _) => Some(i)
    case MunmapCall(i, _, _) => Some(i)
    case MprotectCall(i, _, _, _) => Some(i)
    case _ => None
  }

  /** exec: one more process, in which the program is prepared; it fails only if it must. */
  ghost predicate ExecDid(s: Snapshot, call: Call, o: Outcome, t: Snapshot)
    requires call.ExecCall?
  {
    var n := |s.spaces|;
    if o.Created? then
      && |t.spaces| == n + 1 && call.slotFree && WellFormed(call.data)
      && StartedIn(t.phys, call.data, call.name, call.ids, t.spaces[n].pml4)
      && t.spaces[n] == Space(t.spaces[n].pml4, INITIAL_BREAK, MMAP_BASE, t.spaces[n].vmas)
      && forall k :: 0 <= k < |t.spaces[n].vmas| ==> t.spaces[n].vmas[k] == EMPTY_REGION
    else
      && |t.spaces| == n && (o.Refused? || o.Crashed?) && (call.slotFree && WellFormed(call.data) ==> NoStack(t.free))
      && (o.Crashed? ==> t.free == {} || HasShortHeader(call.data))
      && (HasShortHeader(call.data) && s.free != {} ==> o.Crashed?)
  }

  /** fork: one more process, with the parent's regions, break and bytes; it fails only if it must. */
  ghost predicate ForkDid(s: Snapshot, call: Call, o: Outcome, t: Snapshot)
    requires call.ForkCall?
  {
    var n := |s.spaces|;
    if o.Created? then
      && |t.spaces| == n + 1 && call.slotFree && call.i < n && t.spaces[n] == s.spaces[call.i].(pml4 := t.spaces[n].pml4)
      && forall va :: 0 <= va < USER_TOP ==> UserByte(t.phys, t.spaces[n].pml4, va) == UserByte(s.phys, s.spaces[call.i].pml4, va)
    else
      && |t.spaces| == n && (o.Refused? || o.Crashed?) && (call.slotFree && call.i < n ==> NoStack(t.free))
      && (o.Crashed? ==> t.free == {})
  }

  /** A memory call does what it promises to the process it is about. */
  ghost predicate CallDid(s: Snapshot, call: Call, o: Outcome, t: Snapshot)
    requires Target(call).Some?
  {
    var i := call.i;
    && |t.spaces| == |s.spaces|
    && if i < |s.spaces| && InDomain(s.spaces[i], call)
       then o.Result? && MemoryDid(s.phys, s.free, s.spaces[i], call, t.phys, t.own, t.free, t.spaces[i], o.r)
       else o.Skipped? && t == s
  }

  /** One call: its own effect; frames of the kernel and the spaces of all other processes are as before. */
  ghost predicate Did(s: Snapshot, call: Call, o: Outcome, t: Snapshot) {
    && KernelKept(s.phys, s.own, s.free, t.phys, t.own, t.free)
    && |s.spaces| <= |t.spaces|
    && (forall i :: 0 <= i < |s.spaces| && Target(call) != Some(i) ==>
          t.spaces[i] == s.spaces[i] && SameSpace(s.phys, t.phys, s.spaces[i].pml4))
    && match call
       case ExecCall(_, _, _, _) => ExecDid(s, call, o, t)
       case ForkCall(_, _) => ForkDid(s, call, o, t)
       case _ => CallDid(s, call, o, t)
  }

  lemma DidNothing(s: Snapshot, call: Call)
    requires Target(call).Some? && Target(call).value >= |s.spaces|
    ensures Did(s, call, Skipped, s)
  {
  }

  lemma DidIt(s: Snapshot, call: Call, o: Outcome, t: Snapshot)
    requires KernelKept(s.phys, s.own, s.free, t.phys, t.own, t.free) && |s.spaces| <= |t.spaces|
    requires forall i :: 0 <= i < |s.spaces| && Target(call) != Some(i) ==>
               t.spaces[i] == s.spaces[i] && SameSpace(s.phys, t.phys, s.spaces[i].pml4)
    requires match call
             case ExecCall(_, _, _, _) => ExecDid(s, call, o, t)
             case ForkCall(_, _) => ForkDid(s, call, o, t)
             case _ => CallDid(s, call, o, t)
    ensures Did(s, call, o, t)
  {
  }

  ghost predicate Trace(snaps: seq<Snapshot>, calls: seq<Call>, outs: seq<Outcome>) {
    && |outs| <= |calls| && |snaps| == |outs| + 1
    && forall n :: 0 <= n < |outs| ==> Did(snaps[n], calls[n], outs[n], snaps[n + 1])
  }

  /** Over any run a process that no call is about keeps its pages, its bytes and its regions. */
  lemma {:induction false} Isolation(snaps: seq<Snapshot>, calls: seq<Call>, outs: seq<Outcome>, i: nat, n: nat)
    requires Trace(snaps, calls, outs) && i < |snaps[0].spaces| && n <= |outs|
    requires forall k :: 0 <= k < n ==> Target(calls[k]) != Some(i)
    ensures i < |snaps[n].spaces| && snaps[n].spaces[i] == snaps[0].spaces[i]
    ensures SameSpace(snaps[0].phys, snaps[n].phys, snaps[0].spaces[i].pml4)
    decreases n
  {
    hide SameSpace, KernelKept, ExecDid, ForkDid, CallDid;
    SameSpaceSame(snaps[0].phys);
    if n > 0 {
      Isolation(snaps, calls, outs, i, n - 1);
      assert Did(snaps[n - 1], calls[n - 1], outs[n - 1], snaps[n]);
      SameSpaceTransitive(snaps[0].phys, snaps[n - 1].phys, snaps[n].phys, snaps[0].spaces[i].pml4);
    }
  }

  /** Over any run the kernel's own frames keep place and contents. */
  lemma {:induction false} KernelUntouched(snaps: seq<Snapshot>, calls: seq<Call>, outs: seq<Outcome>, n: nat)
    requires Trace(snaps, calls, outs) && n <= |outs|
    ensures KernelKept(snaps[0].phys, snaps[0].own, snaps[0].free, snaps[n].phys, snaps[n].own, snaps[n].free)
    decreases n
  {
    hide SameSpace, ExecDid, ForkDid, CallDid;
    if n > 0 {
      KernelUntouched(snaps, calls, outs, n - 1);
      assert Did(snaps[n - 1], calls[n - 1], outs[n - 1], snaps[n]);
    }
  }

  class Kernel {
    const v: Vmm
    var procs: seq<ProcessMemory>

    /** Every process has its own, well-formed space and disjoint regions, and all links pass. */
    ghost predicate Valid()
      reads this, procs, v, v.m, v.m.bitmap
    {
      && v.Valid()
      && Open(v.m.phys, v.own)
      && (forall i :: 0 <= i < |procs| ==> procs[i].Valid(v))
      && (forall i, j :: 0 <= i < j < |procs| ==> procs[i] != procs[j] && procs[i].pml4 != procs[j].pml4)
    }

    ghost function Spaces(): (r: seq<Space>)
      reads this, procs
      ensures |r| == |procs| && forall i :: 0 <= i < |procs| ==> r[i] == SpaceOf(procs[i])
    {
      seq(|procs|, i requires 0 <= i < |procs| reads this, procs => SpaceOf(procs[i]))
    }

    ghost function Now(): Snapshot
      reads this, procs, v, v.m
    {
      Snapshot(v.m.phys, v.own, v.m.free, Spaces())
    }

    constructor (v: Vmm)
      requires v.Valid() && Open(v.m.phys, v.own)
      ensures Valid() && this.v == v && procs == []
    {
      this.v := v;
      procs := [];
    }

    /** One more process. */
    method Grow(p: ProcessMemory)
      requires Valid() && p !in procs && p.Valid(v) && forall i :: 0 <= i < |procs| ==> procs[i].pml4 != p.pml4
      modifies this
      ensures Valid() && procs == old(procs) + [p]
      ensures Now() == old(Now()).(spaces := old(Now()).spaces + [SpaceOf(p)])
    {
      hide Machine.Valid, Good, NoHuge, RegionsOk;
      ghost var before := Spaces();
      procs := procs + [p];
      assert Spaces() == before + [SpaceOf(p)];
    }

    /** The memory side of exec: the processes there are notice nothing. */
    method ExecSpace(call: Call) returns (r: ExecResult, ghost child: nat)
      requires Valid() && call.ExecCall? && Elf.Sane(call.data) && v.m.free != {}
      modifies v, v.m, v.m.bitmap
      ensures Valid() && KernelKept(old(v.m.phys), old(v.own), old(v.m.free), v.m.phys, v.own, v.m.free)
      ensures IsRoot(v.own, child) && NoHuge(v.m.phys, child)
      ensures forall i :: 0 <= i < |procs| ==> procs[i].pml4 != child && SameSpace(old(v.m.phys), v.m.phys, procs[i].pml4)
      ensures r.Started? ==> r.program.pml4 == child && StartedIn(v.m.phys, call.data, call.name, call.ids, child)
      ensures r.Started? ==> call.slotFree && WellFormed(call.data)
      ensures call.slotFree && WellFormed(call.data) && !r.Started? ==> NoStack(v.m.free)
      ensures HasShortHeader(call.data) ==> r.ExecPanicked?
      ensures r.ExecPanicked? ==> v.m.free == {} || HasShortHeader(call.data)
    {
      hide Machine.Valid, Good, NewSpace, OnlySpace, KernelKept, NoHuge, Prepared, Elf.Sane, RegionsOk, View, UserByte, Open,
        SameSpace, WellFormed, NoStack, HasShortHeader;
      ghost var p0, o0, f0 := v.m.phys, v.own, v.m.free;
      r, child := ExecAsTask(v, call.data, call.name, call.ids, call.slotFree);
      NewKeepsKernel(p0, o0, f0, v.m.phys, v.own, v.m.free, child);
      forall i | 0 <= i < |procs|
        ensures IsRoot(v.own, procs[i].pml4) && NoHuge(v.m.phys, procs[i].pml4) && procs[i].pml4 != child
        ensures SameSpace(p0, v.m.phys, procs[i].pml4)
      {
        OldSpace(p0, o0, f0, v.m.phys, v.own, v.m.free, child, procs[i].pml4);
      }
      if r.Started? { assert StartedIn(v.m.phys, call.data, call.name, call.ids, r.program.pml4); }
    }

    method DoExec(call: Call) returns (o: Outcome)
      requires Valid() && call.ExecCall? && Elf.Sane(call.data)
      modifies this, v, v.m, v.m.bitmap
      ensures Valid() && Did(old(Now()), call, o, Now())
      ensures |old(procs)| <= |procs| && forall i :: 0 <= i < |procs| ==> if i < |old(procs)| then procs[i] == old(procs)[i] else fresh(procs[i])
    {
      hide Vmm.Valid, KernelKept, Elf.Sane, SameSpace, WellFormed, NoStack, HasShortHeader, Did, StartedIn, RegionsOk, NoHuge, Open;
      ghost var s := Now();
      Unmoved();
      o := Refused;
      if v.m.freeFrames != 0 {
        var r;
        ghost var child;
        r, child := ExecSpace(call);
        assert Spaces() == s.spaces;
        if r.Started? {
          var p := new ProcessMemory(r.program.pml4);
          Grow(p);
          o := Created;
        } else if r.ExecPanicked? {
          o := Crashed;
        }
      }
      DidIt(s, call, o, Now());
    }

    /** The memory side of fork: the processes there are notice nothing. */
    method ForkSpace(call: Call) returns (alive: bool, spawned: Option<nat>)
      requires Valid() && call.ForkCall? && call.i < |procs| && v.m.free != {}
      modifies v, v.m, v.m.bitmap
      ensures Valid() && KernelKept(old(v.m.phys), old(v.own), old(v.m.free), v.m.phys, v.own, v.m.free)
      ensures forall i :: 0 <= i < |procs| ==> SameSpace(old(v.m.phys), v.m.phys, procs[i].pml4)
      ensures call.slotFree && spawned.None? ==> NoStack(v.m.free)
      ensures !alive ==> v.m.free == {}
      ensures spawned.Some? ==>
                && call.slotFree && IsRoot(v.own, spawned.value) && NoHuge(v.m.phys, spawned.value)
                && (forall i :: 0 <= i < |procs| ==> procs[i].pml4 != spawned.value)
                && forall va :: 0 <= va < USER_TOP ==> UserByte(v.m.phys, spawned.value, va) == UserByte(old(v.m.phys), procs[call.i].pml4, va)
    {
      hide Machine.Valid, Good, NewSpace, OnlySpace, KernelKept, NoHuge, RegionsOk, View, UserByte, SameSpace, NoStack, Open;
      ghost var p0, o0, f0 := v.m.phys, v.own, v.m.free;
      ghost var child;
      alive, spawned, child := ForkTask(v, procs[call.i].pml4, call.slotFree);
      NewKeepsKernel(p0, o0, f0, v.m.phys, v.own, v.m.free, child);
      forall i | 0 <= i < |procs|
        ensures IsRoot(v.own, procs[i].pml4) && NoHuge(v.m.phys, procs[i].pml4) && procs[i].pml4 != child
        ensures SameSpace(p0, v.m.phys, procs[i].pml4)
      {
        OldSpace(p0, o0, f0, v.m.phys, v.own, v.m.free, child, procs[i].pml4);
      }
    }

    method DoFork(call: Call) returns (o: Outcome)
      requires Valid() && call.ForkCall?
      modifies this, v, v.m, v.m.bitmap
      ensures Valid() && Did(old(Now()), call, o, Now())
      ensures |old(procs)| <= |procs| && forall i :: 0 <= i < |procs| ==> if i < |old(procs)| then procs[i] == old(procs)[i] else fresh(procs[i])
    {
      hide Vmm.Valid, KernelKept, SameSpace, NoStack, Did, RegionsOk, NoHuge, UserByte, Open;
      ghost var s := Now();
      Unmoved();
      o := Refused;
      if call.i < |procs| && v.m.freeFrames != 0 {
        var alive, spawned := ForkSpace(call);
        assert Spaces() == s.spaces;
        if spawned.Some? {
          var p := new ProcessMemory.ForkFrom(procs[call.i], spawned.value);
          Grow(p);
          o := Created;
        } else if !alive {
          o := Crashed;
        }
      }
      DidIt(s, call, o, Now());
    }

    lemma Unmoved()
      requires Valid()
      ensures KernelKept(v.m.phys, v.own, v.m.free, v.m.phys, v.own, v.m.free)
      ensures forall root :: SameSpace(v.m.phys, v.m.phys, root)
      ensures v.m.freeFrames == 0 <==> v.m.free == {}
      ensures v.m.freeFrames == 0 ==> NoStack(v.m.free)
    {
      hide Good, OnlySpace, NoStack, Machine.Valid;
      OnlySpaceSame(v.m.phys, v.own, v.m.free, 0);
      OnlyKeepsKernel(v.m.phys, v.own, v.m.free, v.m.phys, v.own, v.m.free, 0);
      CountPositive(v.m);
      NoFrames();
    }

    method DoMemory(call: Call) returns (o: Outcome)
      requires Valid() && Target(call).Some?
      modifies procs, v, v.m, v.m.bitmap
      ensures Valid() && Did(old(Now()), call, o, Now())
    {
      hide Machine.Valid, Good, OnlySpace, KernelKept, NoHuge, RegionsOk, SameSpace, View, UserByte, InDomain, MemoryDid, Did, Open;
      ghost var s := Now();
      ghost var p0, o0, f0 := v.m.phys, v.own, v.m.free;
      var i := Target(call).value;
      if i >= |procs| {
        DidNothing(s, call);
        return Skipped;
      }
      var p := procs[i];
      var r := MemoryCall(v, p, call);
      OnlyKeepsKernel(p0, o0, f0, v.m.phys, v.own, v.m.free, p.pml4);
      forall k | 0 <= k < |procs| && k != i
        ensures procs[k].Valid(v) && SameSpace(p0, v.m.phys, procs[k].pml4)
      {
        assert procs[k] != p && procs[k].pml4 != p.pml4;
        OtherSpace(p0, o0, f0, v.m.phys, v.own, v.m.free, p.pml4, procs[k].pml4);
      }
      o := if r.Some? then Result(r.value) else Skipped;
      assert Now().spaces[i] == SpaceOf(p);
      assert r.None? ==> Now().spaces == s.spaces;
      DidIt(s, call, o, Now());
    }

    method Step(call: Call) returns (o: Outcome)
      requires Valid() && (call.ExecCall? ==> Elf.Sane(call.data))
      modifies this, procs, v, v.m, v.m.bitmap
      ensures Valid() && Did(old(Now()), call, o, Now())
      ensures |old(procs)| <= |procs| && forall i :: 0 <= i < |procs| ==> if i < |old(procs)| then procs[i] == old(procs)[i] else fresh(procs[i])
    {
      hide Did, Valid, Elf.Sane;
      match call {
        case ExecCall(_, _, _, _) => o := DoExec(call);
        case ForkCall(_, _) => o := DoFork(call);
        case _ => o := DoMemory(call);
      }
    }

    /**
     Any sequence of calls, by any processes, in any order.  Memory calls outside the domain and
     creating a space without a free frame are not taken; a panic ends the run.  Every call did
     what it promises, and at every moment frames are exclusively owned and the regions of each
     process are disjoint.  `Isolation` and `KernelUntouched` say what such a run leaves alone.
     */
    method Run(calls: seq<Call>) returns (outs: seq<Outcome>, ghost snaps: seq<Snapshot>)
      requires Valid()
      requires forall k :: 0 <= k < |calls| && calls[k].ExecCall? ==> Elf.Sane(calls[k].data)
      modifies this, procs, v, v.m, v.m.bitmap
      ensures Valid() && Trace(snaps, calls, outs) && snaps[0] == old(Now()) && snaps[|outs|] == Now()
      ensures forall n :: 0 <= n < |outs| - 1 ==> outs[n] != Crashed && outs[n] != Result(Panicked)
      ensures |outs| < |calls| ==> outs != [] && (outs[|outs| - 1] == Crashed || outs[|outs| - 1] == Result(Panicked))
      ensures forall n :: 0 <= n <= |outs| ==> Orderly(snaps[n])
    {
      hide Did, Valid, Elf.Sane, Orderly, Now, Spaces;
      outs, snaps := [], [Now()];
      OrderlyNow();
      var k := 0;
      while k < |calls| && (outs == [] || !Fatal(outs[|outs| - 1]))
        invariant k == |outs| <= |calls| && Valid() && |snaps| == k + 1 && snaps[0] == old(Now()) && snaps[k] == Now()
        invariant forall n :: 0 <= n < k ==> Did(snaps[n], calls[n], outs[n], snaps[n + 1])
        invariant forall n :: 0 <= n < k - 1 ==> !Fatal(outs[n])
        invariant forall n :: 0 <= n <= k ==> Orderly(snaps[n])
        invariant forall i :: 0 <= i < |procs| ==> procs[i] in old(procs) || fresh(procs[i])
        decreases |calls| - k
      {
        var o := Step(calls[k]);
        OrderlyNow();
        outs, snaps, k := outs + [o], snaps + [Now()], k + 1;
      }
    }

    lemma OrderlyNow()
      requires Valid()
      ensures Orderly(Now())
    {
      hide Exclusive, Good, Machine.Valid, NoHuge, RegionsOk, Open, Enforced;
      GoodExclusive(v.m.phys, v.own, v.m.free, v.kernelPml4);
      forall i | 0 <= i < |procs|
        ensures Enforced(v.m.phys, procs[i].pml4)
      {
        GoodEnforced(v.m.phys, v.own, v.m.free, v.kernelPml4, procs[i].pml4);
      }
    }
  }

  /**
   Frames are exclusively owned; every process has its own root and disjoint regions, and the
   processor grants it exactly the rights its pages have.
   */
  ghost predicate Orderly(s: Snapshot) {
    && Exclusive(s.phys, s.own, s.free)
    && (forall i :: 0 <= i < |s.spaces| ==>
          IsRoot(s.own, s.spaces[i].pml4) && RegionsOk(s.spaces[i].vmas) && Enforced(s.phys, s.spaces[i].pml4))
    && (forall i, j :: 0 <= i < j < |s.spaces| ==> s.spaces[i].pml4 != s.spaces[j].pml4)
  }

  lemma GoodEnforced(phys: Memory, own: Ownership, free: set<nat>, kernel: nat, root: nat)
    requires Good(phys, own, free, kernel) && Open(phys, own) && IsRoot(own, root)
    ensures Enforced(phys, root)
  {
    hide Wf, Open, Enforced;
    OpenEnforced(phys, own, free, root);
  }

  /** Where pages allow what `prot` says and this is enforced, user code has exactly these rights. */
  lemma RightsGranted(phys: Memory, root: nat, at: nat, size: nat, prot: nat, va: nat)
    requires Enforced(phys, root) && Allows(phys, root, at, size, prot) && at <= va < at + size <= USER_TOP
    ensures UserRights(phys, root, PageOf(va)) == Rights(true, prot / 2 % 2 == 1, prot % 2 == 1)
  {
    hide View, PageOf, UserRights;
    PageOfUser(va);
  }

  lemma GoodExclusive(phys: Memory, own: Ownership, free: set<nat>, kernel: nat)
    requires Good(phys, own, free, kernel)
    ensures Exclusive(phys, own, free)
  {
    WfExclusive(phys, own, free);
  }
}
