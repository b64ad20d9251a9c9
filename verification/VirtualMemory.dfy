/**
 Regions, the program break, and the memory system calls of a process
 (kernel/src/proc/vm.rs and kernel/src/syscall/mm.rs).
 */
module VirtualMemory {
  import opened Physical
  import opened Pmm
  import opened Paging
  import opened UserMemory

  const MAX_VMAS: nat := 32
  const MMAP_BASE: nat := 0x1_0000_0000
  const INITIAL_BREAK: nat := 0x4000_0000

  datatype VmRegion = VmRegion(start: nat, len: nat, prot: nat, flags: nat, inUse: bool)

  const EMPTY_REGION := VmRegion(0, 0, 0, 0, false)

  datatype SysError = Invalid | Unsupported | BadFd | NoMem
  datatype SysResult = Ok(value: nat) | Err(error: SysError) | Panicked

  /** Whether the bit of weight `mask` is set. */
  predicate Bit(x: nat, mask: nat)
    requires mask > 0
  {
    x / mask % 2 == 1
  }

  const PROT_EXEC: nat := 0x1
  const PROT_WRITE: nat := 0x2
  const MAP_SHARED: nat := 0x01
  const MAP_PRIVATE: nat := 0x02
  const MAP_FIXED: nat := 0x10
  const MAP_ANONYMOUS: nat := 0x20

  function MapFlagsFromProt(prot: nat): MapFlags {
    MapFlags(Bit(prot, PROT_WRITE), true, Bit(prot, PROT_EXEC))
  }

  function RoundDown(x: nat): nat { x / PAGE_SIZE * PAGE_SIZE }

  /** (x + 0xFFF) & !0xFFF in 64-bit arithmetic. */
  function RoundUp(x: nat): nat { (x + 0xFFF) % U64 / PAGE_SIZE * PAGE_SIZE }

  function SaturatingAdd(a: nat, b: nat): nat { if a + b < U64 then a + b else U64 - 1 }

  // ----- Regions -----

  predicate Overlaps(aStart: nat, aLen: nat, bStart: nat, bLen: nat) {
    aStart < SaturatingAdd(bStart, bLen) && bStart < SaturatingAdd(aStart, aLen)
  }

  predicate RegionConflicts(vmas: seq<VmRegion>, start: nat, len: nat) {
    exists i :: 0 <= i < |vmas| && vmas[i].inUse && Overlaps(start, len, vmas[i].start, vmas[i].len)
  }

  /** A region is a page-aligned, non-empty part of user space; an unused slot is blank. */
  predicate RegionOk(r: VmRegion) {
    if r.inUse then r.len > 0 && r.start % PAGE_SIZE == 0 && r.len % PAGE_SIZE == 0 && r.start + r.len <= USER_TOP
    else r == EMPTY_REGION
  }

  predicate Apart(r: VmRegion, s: VmRegion) {
    r.inUse && s.inUse ==> r.start + r.len <= s.start || s.start + s.len <= r.start
  }

  /** The regions of a process are well-formed and pairwise disjoint. */
  predicate RegionsOk(vmas: seq<VmRegion>) {
    && |vmas| == MAX_VMAS
    && (forall i :: 0 <= i < |vmas| ==> RegionOk(vmas[i]))
    && (forall i, j :: 0 <= i < j < |vmas| ==> Apart(vmas[i], vmas[j]))
  }

  predicate InRegion(r: VmRegion, va: nat) { r.start <= va < r.start + r.len }

  /** Inside user space the overlap test is exact: it holds when some address is in both regions. */
  lemma OverlapsExact(a: VmRegion, b: VmRegion)
    requires RegionOk(a) && RegionOk(b) && a.inUse && b.inUse
    ensures Overlaps(a.start, a.len, b.start, b.len) <==> !Apart(a, b)
    ensures Overlaps(a.start, a.len, b.start, b.len) <==> exists va :: InRegion(a, va) && InRegion(b, va)
  {
    if Overlaps(a.start, a.len, b.start, b.len) {
      var va := if a.start < b.start then b.start else a.start;
      assert InRegion(a, va) && InRegion(b, va);
    }
  }

  // ----- What a range of pages holds -----

  /** The byte of a mapping at distance `d` from its start: the file's bytes, then zeros. */
  function SeedByte(seed: seq<byte>, d: nat): byte { if d < |seed| then seed[d] else 0 }

  /**
   The pages [start, start + size) of the space are mapped with `flags`, hold the seed and use
   frames from `pool`; every other page of the space is as in `p0`.
   */
  ghost predicate RangeMapped(p0: Memory, phys: Memory, root: nat, start: nat, size: nat,
                              flags: MapFlags, seed: seq<byte>, pool: set<nat>) {
    forall va :: 0 <= va < USER_TOP ==> RangeAt(p0, phys, root, start, size, flags, seed, pool, va)
  }

  ghost predicate RangeAt(p0: Memory, phys: Memory, root: nat, start: nat, size: nat,
                          flags: MapFlags, seed: seq<byte>, pool: set<nat>, va: nat) {
    if start <= va < start + size then
      && View(phys, root, PageOf(va)).Mapped?
      && View(phys, root, PageOf(va)).entry.frame in pool
      && View(phys, root, PageOf(va)).entry == LeafEntry(View(phys, root, PageOf(va)).entry.frame, flags)
      && UserByte(phys, root, va) == Some(SeedByte(seed, va - start))
    else
      && View(phys, root, PageOf(va)) == View(p0, root, PageOf(va))
      && UserByte(phys, root, va) == UserByte(p0, root, va)
  }

  /** The pages [lo, hi) of the space are not mapped. */
  ghost predicate Unmapped(phys: Memory, root: nat, lo: nat, hi: nat) {
    forall va :: lo <= va < hi ==> View(phys, root, PageOf(va)).Absent?
  }

  /** Every page of the space outside [lo, hi) is as in `p0`. */
  ghost predicate SameOutside(p0: Memory, phys: Memory, root: nat, lo: nat, hi: nat) {
    forall va :: 0 <= va < USER_TOP && !(lo <= va < hi) ==>
      && View(phys, root, PageOf(va)) == View(p0, root, PageOf(va))
      && UserByte(phys, root, va) == UserByte(p0, root, va)
  }

  /** The part of the seed that falls on the page at distance `off`. */
  function SeedChunk(seed: seq<byte>, off: nat): (r: seq<byte>)
    ensures |r| <= PAGE_SIZE
    ensures forall d: nat :: off <= d < off + PAGE_SIZE ==> SeedByte(seed, d) == SeedByte(r, d - off)
  {
    if off >= |seed| then []
    else seed[off..if off + PAGE_SIZE < |seed| then off + PAGE_SIZE else |seed|]
  }

  /** A freshly mapped page, filled from the seed, extends the mapped range by one page. */
  lemma RangeStep(p0: Memory, p1: Memory, o1: Ownership, p2: Memory, o2: Ownership, phys: Memory,
                  root: nat, start: nat, size: nat, flags: MapFlags, seed: seq<byte>, pool: set<nat>, frame: nat)
    requires RangeMapped(p0, p1, root, start, size, flags, seed, pool) && IsRoot(o1, root) && IsRoot(o2, root)
    requires start % PAGE_SIZE == 0 && size % PAGE_SIZE == 0 && start + size < USER_TOP
    requires OnePageView(p1, o1, p2, root, PageOf(start + size), Mapped(LeafEntry(frame, flags)))
    requires PageZeroed(p1, p2, root, PageOf(start + size)) && frame in pool
    requires Wrote(p2, o2, phys, root, start + size, SeedChunk(seed, size))
    ensures RangeMapped(p0, phys, root, start, size + PAGE_SIZE, flags, seed, pool)
  {
    hide PageOf, UserByte, View, SeedChunk, RangeAt, Wrote, OnePageView, PageZeroed, LeafEntry;
    var more := size + PAGE_SIZE;
    forall va | 0 <= va < USER_TOP
      ensures RangeAt(p0, phys, root, start, more, flags, seed, pool, va)
    {
      RangeStepAt(p0, p1, o1, p2, o2, phys, root, start, size, flags, seed, pool, frame, va);
    }
  }

  lemma RangeStepAt(p0: Memory, p1: Memory, o1: Ownership, p2: Memory, o2: Ownership, phys: Memory,
                    root: nat, start: nat, size: nat, flags: MapFlags, seed: seq<byte>, pool: set<nat>, frame: nat, va: nat)
    requires RangeMapped(p0, p1, root, start, size, flags, seed, pool) && IsRoot(o1, root) && IsRoot(o2, root)
    requires start % PAGE_SIZE == 0 && size % PAGE_SIZE == 0 && start + size < USER_TOP && va < USER_TOP
    requires OnePageView(p1, o1, p2, root, PageOf(start + size), Mapped(LeafEntry(frame, flags)))
    requires PageZeroed(p1, p2, root, PageOf(start + size)) && frame in pool
    requires Wrote(p2, o2, phys, root, start + size, SeedChunk(seed, size))
    ensures RangeAt(p0, phys, root, start, size + PAGE_SIZE, flags, seed, pool, va)
  {
    hide PageOf, UserByte, View, SeedChunk;
    assert RangeAt(p0, p1, root, start, size, flags, seed, pool, va);
    var chunk := SeedChunk(seed, size);
    PageOfUser(va);
    SamePage(start + size, PAGE_SIZE, va);
    WroteView(p2, o2, phys, root, start + size, chunk, PageOf(va));
    assert View(p2, root, PageOf(va)) ==
           if PageOf(va) == PageOf(start + size) then Mapped(LeafEntry(frame, flags)) else View(p1, root, PageOf(va));
    if start + size <= va < start + size + PAGE_SIZE {
      assert SeedByte(seed, va - start) == SeedByte(chunk, va - start - size);
    }
  }

  // ----- Where the frames are -----

  /** Frame `f` backs a page of [lo, hi). */
  ghost predicate HeldIn(phys: Memory, root: nat, lo: nat, hi: nat, f: nat) {
    exists va :: lo <= va < hi && View(phys, root, PageOf(va)).Mapped? && View(phys, root, PageOf(va)).entry.frame == f
  }

  /** Every frame of `pool` is free, is a table, or backs a page of [lo, hi). */
  ghost predicate Accounted(phys: Memory, own: Ownership, free: set<nat>, root: nat, lo: nat, hi: nat, pool: set<nat>) {
    && free <= pool
    && forall f :: f in pool ==> f in free || (f in own && own[f].level >= 1) || HeldIn(phys, root, lo, hi, f)
  }

  lemma AccountStep(p1: Memory, o1: Ownership, f1: set<nat>, p2: Memory, o2: Ownership, f2: set<nat>, phys: Memory,
                    root: nat, start: nat, size: nat, e: Entry, chunk: seq<byte>, pool: set<nat>)
    requires Accounted(p1, o1, f1, root, start, start + size, pool) && IsRoot(o1, root) && IsRoot(o2, root)
    requires start % PAGE_SIZE == 0 && size % PAGE_SIZE == 0 && start + size < USER_TOP
    requires OnePageView(p1, o1, p2, root, PageOf(start + size), Mapped(e))
    requires f2 <= f1 && NewTables(o1, f1, o2, f2, {e.frame})
    requires forall f :: f in o1 ==> f in o2 && o2[f] == o1[f]
    requires Wrote(p2, o2, phys, root, start + size, chunk)
    ensures Accounted(phys, o2, f2, root, start, start + (size + PAGE_SIZE), pool)
  {
    hide PageOf, UserByte, View;
    PageOfUser(start + size);
    WroteView(p2, o2, phys, root, start + size, chunk, PageOf(start + size));
    assert HeldIn(phys, root, start, start + (size + PAGE_SIZE), e.frame) by {
      assert View(phys, root, PageOf(start + size)) == Mapped(e);
    }
    forall f | f in pool
      ensures f in f2 || (f in o2 && o2[f].level >= 1) || HeldIn(phys, root, start, start + (size + PAGE_SIZE), f)
    {
      if HeldIn(p1, root, start, start + size, f) {
        var va :| start <= va < start + size && View(p1, root, PageOf(va)).Mapped? && View(p1, root, PageOf(va)).entry.frame == f;
        PageOfUser(va);
        SamePage(start + size, PAGE_SIZE, va);
        WroteView(p2, o2, phys, root, start + size, chunk, PageOf(va));
        assert View(p2, root, PageOf(va)) == View(p1, root, PageOf(va));
      }
    }
  }

  // ----- Mapping and unmapping ranges -----

  /** One round of the page loop: a fresh page and, if there is one, its part of the file. */
  method MapSeeded(v: Vmm, pml4: nat, virt: nat, flags: MapFlags, chunk: seq<byte>)
    returns (r: MapResult, frame: nat, ghost mid: Memory)
    requires v.Valid() && IsRoot(v.own, pml4) && virt < USER_TOP && NoHuge(v.m.phys, pml4)
    requires virt % PAGE_SIZE == 0 && |chunk| <= PAGE_SIZE && flags.user
    modifies v, v.m, v.m.bitmap
    ensures v.Valid() && NoHuge(v.m.phys, pml4) && IsRoot(v.own, pml4)
    ensures OnlySpace(old(v.m.phys), old(v.own), old(v.m.free), v.m.phys, v.own, v.m.free, pml4)
    ensures v.m.free <= old(v.m.free) && forall f :: f in old(v.own) ==> f in v.own && v.own[f] == old(v.own)[f]
    ensures r.OutOfMemory? ==> v.m.phys == old(v.m.phys) && v.own == old(v.own) && v.m.free == {} == old(v.m.free)
    ensures r.Panic? ==> v.m.free == {}
    ensures if r.Done? then v.m.freeFrames + 4 >= old(v.m.freeFrames) else old(v.m.freeFrames) < 4
    ensures r.Done? ==>
              && frame in old(v.m.free)
              && OnePageView(old(v.m.phys), old(v.own), mid, pml4, PageOf(virt), Mapped(LeafEntry(frame, flags)))
              && PageZeroed(old(v.m.phys), mid, pml4, PageOf(virt))
              && NewTables(old(v.own), old(v.m.free), v.own, v.m.free, {frame})
              && Wrote(mid, v.own, v.m.phys, pml4, virt, chunk)
  {
    hide Machine.Valid, Wf, Linked, View, Walk, PageOf, OnlySpace, UserByte, OnePageView, PageZeroed, Wrote, NewTables;
    r, frame := MapFresh(v, pml4, virt, flags);
    mid := v.m.phys;
    if !r.Done? { return; }
    PageOfUser(virt);
    OnePageAt(old(v.m.phys), old(v.own), mid, pml4, PageOf(virt), Mapped(LeafEntry(frame, flags)));
    WroteNothing(mid, v.own, pml4, virt);
    if chunk != [] {
      ChunkWrote(mid, v.own, v.m.free, v.kernelPml4, pml4, virt, frame, chunk);
      v.m.phys := v.m.phys[frame := WithBytes(v.m.phys[frame], 0, chunk)];
      WroteNoHuge(mid, v.own, v.m.phys, pml4, virt, chunk, pml4);
      WroteOnlySpace(mid, v.own, v.m.free, v.m.phys, pml4, virt, chunk);
      OnlySpaceTransitive(old(v.m.phys), old(v.own), old(v.m.free), mid, v.own, v.m.free, v.m.phys, v.own, v.m.free, pml4);
    }
  }

  /**
   The page loop of mmap (and, with an empty seed, of brk).  On success the whole range is
   mapped; otherwise `mapped` tells how much of it is.
   */
  method MapPages(v: Vmm, pml4: nat, start: nat, len: nat, flags: MapFlags, seed: seq<byte>)
    returns (r: MapResult, mapped: nat)
    requires flags.user && v.Valid() && IsRoot(v.own, pml4) && NoHuge(v.m.phys, pml4)
    requires start % PAGE_SIZE == 0 && len % PAGE_SIZE == 0 && start + len <= USER_TOP
    modifies v, v.m, v.m.bitmap
    ensures v.Valid() && NoHuge(v.m.phys, pml4) && IsRoot(v.own, pml4)
    ensures OnlySpace(old(v.m.phys), old(v.own), old(v.m.free), v.m.phys, v.own, v.m.free, pml4)
    ensures mapped % PAGE_SIZE == 0 && mapped <= len && (r.Done? ==> mapped == len)
    ensures !r.Panic? ==> RangeMapped(old(v.m.phys), v.m.phys, pml4, start, mapped, flags, seed, old(v.m.free))
    ensures !r.Panic? ==> Accounted(v.m.phys, v.own, v.m.free, pml4, start, start + mapped, old(v.m.free))
    ensures !r.Done? ==> v.m.free == {} && mapped < len && old(v.m.freeFrames) < 4 * (len / PAGE_SIZE)
    ensures forall f :: f in old(v.own) && old(v.own)[f].level >= 1 ==> f in v.own && v.own[f] == old(v.own)[f]
  {
    hide Machine.Valid, Wf, Linked, View, Walk, PageOf, OnlySpace, UserByte, RangeMapped, Accounted, OnePageView,
      PageZeroed, Wrote, NewTables;
    OnlySpaceSame(v.m.phys, v.own, v.m.free, pml4);
    RangeEmpty(v.m.phys, v.own, v.m.free, pml4, start, flags, seed);
    mapped := 0;
    while mapped < len
      invariant v.Valid() && IsRoot(v.own, pml4) && NoHuge(v.m.phys, pml4) && v.m.free <= old(v.m.free)
      invariant OnlySpace(old(v.m.phys), old(v.own), old(v.m.free), v.m.phys, v.own, v.m.free, pml4)
      invariant 0 <= mapped <= len && mapped % PAGE_SIZE == 0
      invariant RangeMapped(old(v.m.phys), v.m.phys, pml4, start, mapped, flags, seed, old(v.m.free))
      invariant Accounted(v.m.phys, v.own, v.m.free, pml4, start, start + mapped, old(v.m.free))
      invariant v.m.freeFrames + 4 * (mapped / PAGE_SIZE) >= old(v.m.freeFrames)
      invariant forall f :: f in old(v.own) && old(v.own)[f].level >= 1 ==> f in v.own && v.own[f] == old(v.own)[f]
    {
      ghost var p1, o1, f1 := v.m.phys, v.own, v.m.free;
      var chunk := SeedChunk(seed, mapped);
      ghost var p2;
      var frame;
      r, frame, p2 := MapSeeded(v, pml4, start + mapped, flags, chunk);
      OnlySpaceTransitive(old(v.m.phys), old(v.own), old(v.m.free), p1, o1, f1, v.m.phys, v.own, v.m.free, pml4);
      if !r.Done? { return; }
      RangeStep(old(v.m.phys), p1, o1, p2, v.own, v.m.phys, pml4, start, mapped, flags, seed, old(v.m.free), frame);
      AccountStep(p1, o1, f1, p2, v.own, v.m.free, v.m.phys, pml4, start, mapped, LeafEntry(frame, flags), chunk, old(v.m.free));
      mapped := mapped + PAGE_SIZE;
    }
    r := Done;
  }

  lemma RangeEmpty(phys: Memory, own: Ownership, free: set<nat>, root: nat, start: nat, flags: MapFlags, seed: seq<byte>)
    ensures RangeMapped(phys, phys, root, start, 0, flags, seed, free)
    ensures Accounted(phys, own, free, root, start, start + 0, free)
  {
  }

  /** What unmapping page `p` and freeing its frame means for bytes and for other spaces. */
  lemma UnmapEffect(p1: Memory, o1: Ownership, f1: set<nat>, p2: Memory, root: nat, p: Page, frame: nat)
    requires Wf(p1, o1, f1) && IsRoot(o1, root) && UserPage(p)
    requires View(p1, root, p).Mapped? && View(p1, root, p).entry.frame == frame
    requires OnePageView(p1, o1, p2, root, p, Absent) && KeepsData(p1, o1, p2) && (Open(p1, o1) ==> Open(p2, o1 - {frame}))
    ensures frame < MAX_FRAMES && frame !in f1
    ensures OnlySpace(p1, o1, f1, p2, o1 - {frame}, f1 + {frame}, root)
    ensures forall va :: 0 <= va < USER_TOP ==>
              UserByte(p2, root, va) == if PageOf(va) == p then None else UserByte(p1, root, va)
  {
    hide PageOf, Open;
    MappedFrame(p1, o1, f1, root, p);
    forall r: nat, va: nat | IsRoot(o1, r) && va < USER_TOP
      ensures UserByte(p2, r, va) == if r == root && PageOf(va) == p then None else UserByte(p1, r, va)
    {
      PageOfUser(va);
      if View(p1, r, PageOf(va)).Mapped? {
        MappedFrame(p1, o1, f1, r, PageOf(va));
      }
    }
    forall r | IsRoot(o1, r)
      ensures IsRoot(o1 - {frame}, r)
    {
    }
  }

  /** A frame that nobody owns may be freed. */
  lemma FreedGood(phys: Memory, own: Ownership, free: set<nat>, kernel: nat, frame: nat)
    requires Good(phys, own, free, kernel) && frame !in own && frame != kernel
    ensures Good(phys, own, free + {frame}, kernel)
  {
  }

  /** How far an unmapping loop has come: [start, cut) is gone, the rest is as in `p0`. */
  ghost predicate RangeCleared(p0: Memory, f0: set<nat>, phys: Memory, free: set<nat>, root: nat, start: nat, cut: nat) {
    && SameOutside(p0, phys, root, start, cut)
    && Unmapped(phys, root, start, cut)
    && f0 <= free
    && (forall f :: f in free ==> f in f0 || HeldIn(p0, root, start, cut, f))
    && (forall f :: HeldIn(p0, root, start, cut, f) ==> f in free)
  }

  lemma ClearStep(p0: Memory, f0: set<nat>, p1: Memory, o1: Ownership, f1: set<nat>, p2: Memory, f2: set<nat>,
                  root: nat, start: nat, cut: nat)
    requires RangeCleared(p0, f0, p1, f1, root, start, cut) && IsRoot(o1, root)
    requires start % PAGE_SIZE == 0 && cut % PAGE_SIZE == 0 && start <= cut < USER_TOP
    requires OnePageView(p1, o1, p2, root, PageOf(cut), Absent)
    requires View(p1, root, PageOf(cut)).Mapped? && f2 == f1 + {View(p1, root, PageOf(cut)).entry.frame}
    requires forall va :: 0 <= va < USER_TOP ==>
               UserByte(p2, root, va) == if PageOf(va) == PageOf(cut) then None else UserByte(p1, root, va)
    ensures RangeCleared(p0, f0, p2, f2, root, start, cut + PAGE_SIZE)
  {
    hide PageOf, UserByte, View;
    forall va | 0 <= va < USER_TOP
      ensures PageOf(va) == PageOf(cut) <==> cut <= va < cut + PAGE_SIZE
      ensures View(p2, root, PageOf(va)) == if PageOf(va) == PageOf(cut) then Absent else View(p1, root, PageOf(va))
    {
      PageOfUser(va);
      SamePage(cut, PAGE_SIZE, va);
    }
    var frame := View(p1, root, PageOf(cut)).entry.frame;
    assert View(p1, root, PageOf(cut)) == View(p0, root, PageOf(cut));
    assert HeldIn(p0, root, start, cut + PAGE_SIZE, frame);
    HeldGrows(p0, root, start, cut, frame);
  }

  lemma SkipStep(p0: Memory, f0: set<nat>, p1: Memory, f1: set<nat>, root: nat, start: nat, cut: nat)
    requires RangeCleared(p0, f0, p1, f1, root, start, cut)
    requires start % PAGE_SIZE == 0 && cut % PAGE_SIZE == 0 && start <= cut < USER_TOP
    requires View(p1, root, PageOf(cut)).Absent?
    ensures RangeCleared(p0, f0, p1, f1, root, start, cut + PAGE_SIZE)
  {
    hide PageOf, UserByte, View;
    forall va | 0 <= va < USER_TOP
      ensures PageOf(va) == PageOf(cut) <==> cut <= va < cut + PAGE_SIZE
    {
      SamePage(cut, PAGE_SIZE, va);
    }
    assert View(p1, root, PageOf(cut)) == View(p0, root, PageOf(cut));
    HeldGrows(p0, root, start, cut, 0);
  }

  /** The frames of one more page. */
  lemma HeldGrows(p0: Memory, root: nat, start: nat, cut: nat, frame: nat)
    requires cut % PAGE_SIZE == 0 && start <= cut < USER_TOP && cut + PAGE_SIZE <= USER_TOP
    requires View(p0, root, PageOf(cut)).Mapped? ==> View(p0, root, PageOf(cut)).entry.frame == frame
    ensures forall f :: HeldIn(p0, root, start, cut, f) ==> HeldIn(p0, root, start, cut + PAGE_SIZE, f)
    ensures forall f :: HeldIn(p0, root, start, cut + PAGE_SIZE, f) ==>
              HeldIn(p0, root, start, cut, f) || (View(p0, root, PageOf(cut)).Mapped? && f == frame)
  {
    hide PageOf, View;
    forall f | HeldIn(p0, root, start, cut + PAGE_SIZE, f)
      ensures HeldIn(p0, root, start, cut, f) || (View(p0, root, PageOf(cut)).Mapped? && f == frame)
    {
      var va :| start <= va < cut + PAGE_SIZE && View(p0, root, PageOf(va)).Mapped? && View(p0, root, PageOf(va)).entry.frame == f;
      if va >= cut { SamePage(cut, PAGE_SIZE, va); }
    }
  }

  /** The unmap-and-free loop of munmap and of the undo path of mmap. */
  method UnmapPages(v: Vmm, pml4: nat, start: nat, len: nat)
    requires v.Valid() && IsRoot(v.own, pml4) && NoHuge(v.m.phys, pml4)
    requires start % PAGE_SIZE == 0 && len % PAGE_SIZE == 0 && start + len <= USER_TOP
    modifies v, v.m, v.m.bitmap
    ensures v.Valid() && NoHuge(v.m.phys, pml4) && IsRoot(v.own, pml4)
    ensures OnlySpace(old(v.m.phys), old(v.own), old(v.m.free), v.m.phys, v.own, v.m.free, pml4)
    ensures RangeCleared(old(v.m.phys), old(v.m.free), v.m.phys, v.m.free, pml4, start, start + len)
    ensures forall f :: f in old(v.own) && old(v.own)[f].level >= 1 ==> f in v.own && v.own[f] == old(v.own)[f]
  {
    hide Machine.Valid, Wf, Linked, View, Walk, PageOf, OnlySpace, UserByte, OnePageView, KeepsData, RangeCleared;
    OnlySpaceSame(v.m.phys, v.own, v.m.free, pml4);
    NothingCleared(v.m.phys, v.m.free, pml4, start);
    var off := 0;
    while off < len
      invariant 0 <= off <= len && off % PAGE_SIZE == 0
      invariant v.Valid() && IsRoot(v.own, pml4) && NoHuge(v.m.phys, pml4)
      invariant OnlySpace(old(v.m.phys), old(v.own), old(v.m.free), v.m.phys, v.own, v.m.free, pml4)
      invariant RangeCleared(old(v.m.phys), old(v.m.free), v.m.phys, v.m.free, pml4, start, start + off)
      invariant forall f :: f in old(v.own) && old(v.own)[f].level >= 1 ==> f in v.own && v.own[f] == old(v.own)[f]
    {
      ghost var p1, o1, f1 := v.m.phys, v.own, v.m.free;
      ghost var p := PageOf(start + off);
      PageOfUser(start + off);
      var frame := v.UnmapPageIn(pml4, start + off);
      if frame.Some? {
        UnmapEffect(p1, o1, f1, v.m.phys, pml4, p, frame.value);
        OneAbsentNoHuge(p1, o1, v.m.phys, pml4, p);
        ClearStep(old(v.m.phys), old(v.m.free), p1, o1, f1, v.m.phys, f1 + {frame.value}, pml4, start, start + off);
        FreedGood(v.m.phys, v.own, v.m.free, v.kernelPml4, frame.value);
        v.m.FreeFrame(frame.value);
        OnlySpaceTransitive(old(v.m.phys), old(v.own), old(v.m.free), p1, o1, f1, v.m.phys, v.own, v.m.free, pml4);
      } else {
        SkipStep(old(v.m.phys), old(v.m.free), p1, f1, pml4, start, start + off);
      }
      off := off + PAGE_SIZE;
    }
  }

  lemma NothingCleared(phys: Memory, free: set<nat>, root: nat, start: nat)
    ensures RangeCleared(phys, free, phys, free, root, start, start)
  {
  }

  lemma OneAbsentNoHuge(phys: Memory, own: Ownership, phys': Memory, root: nat, p: Page)
    requires OnePageView(phys, own, phys', root, p, Absent) && IsRoot(own, root) && NoHuge(phys, root)
    ensures NoHuge(phys', root)
  {
  }

  // ----- The memory of one process -----

  /** The part of a file a mapping starts with. */
  function ReadRange(data: seq<byte>, off: nat, len: nat): seq<byte> {
    var from := if off < |data| then off else |data|;
    data[from..if from + len < |data| then from + len else |data|]
  }

  /** User code may read the pages of the range, write them iff bit 1 of `prot` is set, and execute them iff bit 0 is. */
  ghost predicate Allows(phys: Memory, root: nat, at: nat, size: nat, prot: nat) {
    forall va :: at <= va < at + size ==>
      && View(phys, root, PageOf(va)).Mapped?
      && var e := View(phys, root, PageOf(va)).entry;
      && e.present && e.user && (e.writable <==> prot / 2 % 2 == 1) && (e.nx <==> prot % 2 == 0)
  }

  /** What user code sees of a mapping of `size` bytes: the file from `off` on and then zeros, protected as `prot` says. */
  ghost predicate Shows(phys: Memory, root: nat, at: nat, size: nat, prot: nat, file: seq<byte>, off: nat) {
    && Allows(phys, root, at, size, prot)
    && forall va :: at <= va < at + size ==>
         UserByte(phys, root, va) == Some(if off + (va - at) < |file| then file[off + (va - at)] else 0)
  }

  lemma RangeShows(p0: Memory, phys: Memory, root: nat, at: nat, size: nat, prot: nat, file: seq<byte>, off: nat, pool: set<nat>)
    requires RangeMapped(p0, phys, root, at, size, MapFlagsFromProt(prot), ReadRange(file, off, size), pool) && at + size <= USER_TOP
    ensures Shows(phys, root, at, size, prot, file, off)
  {
    hide View, PageOf, UserByte, ReadRange;
    forall va: nat | at <= va < at + size
      ensures UserByte(phys, root, va) == Some(if off + (va - at) < |file| then file[off + (va - at)] else 0)
      ensures View(phys, root, PageOf(va)).Mapped?
      ensures var e := View(phys, root, PageOf(va)).entry;
              e.present && e.user && (e.writable <==> prot / 2 % 2 == 1) && (e.nx <==> prot % 2 == 0)
    {
      assert RangeAt(p0, phys, root, at, size, MapFlagsFromProt(prot), ReadRange(file, off, size), pool, va);
      SeedOfFile(file, off, size, va - at);
    }
  }

  lemma {:induction false} MappedPresent(phys: Memory, level: nat, t: nat, p: Page)
    requires 1 <= level <= 4
    ensures Walk(phys, level, t, p).Mapped? ==> Walk(phys, level, t, p).entry.present
    ensures level == 4 ==> View(phys, t, p) == Walk(phys, level, t, p)
  {
    if level > 1 { MappedPresent(phys, level - 1, At(phys, t, Index(p, level)).frame, p); }
  }

  lemma ProtectedAllows(p0: Memory, phys: Memory, root: nat, at: nat, size: nat, prot: nat)
    requires RangeProtected(p0, phys, root, at, at + size, MapFlagsFromProt(prot)) && at + size <= USER_TOP
    ensures Allows(phys, root, at, size, prot)
  {
    hide View, PageOf, UserByte;
    forall va: nat | at <= va < at + size
      ensures View(phys, root, PageOf(va)).Mapped?
      ensures var e := View(phys, root, PageOf(va)).entry;
              e.present && e.user && (e.writable <==> prot / 2 % 2 == 1) && (e.nx <==> prot % 2 == 0)
    {
      assert View(phys, root, PageOf(va)) == Mapped(WithFlags(View(p0, root, PageOf(va)).entry, MapFlagsFromProt(prot)));
      MappedPresent(phys, 4, root, PageOf(va));
    }
  }

  lemma NoFileRange(size: nat)
    ensures ReadRange([], 0, size) == []
  {
  }

  lemma SeedOfFile(file: seq<byte>, off: nat, size: nat, d: nat)
    requires d < size
    ensures SeedByte(ReadRange(file, off, size), d) == if off + d < |file| then file[off + d] else 0
  {
  }

  /** The argument checks of mmap, in the order of the source. */
  function MmapArgs(len: nat, flags: nat, fd: int, off: int): (bad: Option<SysError>)
    ensures bad != Some(NoMem)
  {
    if len == 0 then Some(Invalid)
    else if !Bit(flags, MAP_PRIVATE) && !Bit(flags, MAP_SHARED) then Some(Invalid)
    else if Bit(flags, MAP_SHARED) then Some(Unsupported)
    else if Bit(flags, MAP_ANONYMOUS) then (if fd == -1 && off == 0 then None else Some(Invalid))
    else if fd < 0 then Some(BadFd)
    else if off < 0 || off % PAGE_SIZE != 0 then Some(Invalid)
    else None
  }

  /** Index of the first unused slot, or the number of slots. */
  function FirstFree(vmas: seq<VmRegion>): (i: nat)
    ensures i <= |vmas|
    ensures i < |vmas| ==> !vmas[i].inUse
    ensures forall j :: 0 <= j < i ==> vmas[j].inUse
  {
    if vmas == [] then 0 else if !vmas[0].inUse then 0 else 1 + FirstFree(vmas[1..])
  }

  /** The range may be used, it overlaps no region, and the table has a slot for it. */
  predicate Placeable(vmas: seq<VmRegion>, addr: nat, start: nat, len: nat, flags: nat) {
    (addr == 0 || Bit(flags, MAP_FIXED)) && !RegionConflicts(vmas, start, RoundUp(len)) && FirstFree(vmas) < |vmas|
  }

  predicate IsRegion(r: VmRegion, start: nat, len: nat) { r.inUse && r.start == start && r.len == len }

  /** Some slot holds exactly this region. */
  ghost predicate HasRegion(vmas: seq<VmRegion>, start: nat, len: nat) {
    exists i :: 0 <= i < |vmas| && IsRegion(vmas[i], start, len)
  }

  /** In a disjoint table a region is found where it was put. */
  lemma ExactUnique(vmas: seq<VmRegion>, i: nat, j: nat)
    requires RegionsOk(vmas) && i < |vmas| && j < |vmas| && vmas[i].inUse && vmas[j].inUse
    requires vmas[i].start == vmas[j].start && vmas[i].len == vmas[j].len
    ensures i == j
  {
  }

  lemma FileArgs(len: nat, flags: nat, fd: int, off: int)
    requires MmapArgs(len, flags, fd, off).None?
    ensures !Bit(flags, MAP_ANONYMOUS) ==> fd >= 0 && off >= 0
  {
  }

  lemma RegionShape(vmas: seq<VmRegion>, i: nat)
    requires RegionsOk(vmas) && i < |vmas| && vmas[i].inUse
    ensures vmas[i].start % PAGE_SIZE == 0 && vmas[i].len % PAGE_SIZE == 0 && vmas[i].len > 0 && vmas[i].start + vmas[i].len <= USER_TOP
  {
  }

  /** Removing the region that was just added brings the table back. */
  lemma SlotBack(before: seq<VmRegion>, added: seq<VmRegion>, after: seq<VmRegion>, slot: nat, start: nat, size: nat)
    requires RegionsOk(before) && RegionsOk(added) && slot < |before| && !before[slot].inUse
    requires added == before[slot := added[slot]] && added[slot].inUse && added[slot].start == start && added[slot].len == size
    requires |after| == |added|
    requires forall i :: 0 <= i < |after| ==>
               after[i] == if added[i].inUse && added[i].start == start && added[i].len == size then EMPTY_REGION else added[i]
    ensures after == before
  {
  }

  /** All pages and bytes of the space are as in `p0`. */
  ghost predicate Restored(p0: Memory, phys: Memory, root: nat) {
    SameOutside(p0, phys, root, 0, 0)
  }

  /** Clearing a range that was mapped over unmapped pages brings the space back. */
  lemma MapThenClear(p0: Memory, p1: Memory, p2: Memory, own: Ownership, f0: set<nat>, f1: set<nat>, f2: set<nat>,
                     own': Ownership, root: nat, start: nat, size: nat, limit: nat, flags: MapFlags, seed: seq<byte>)
    requires RangeMapped(p0, p1, root, start, size, flags, seed, f0)
    requires Accounted(p1, own, f1, root, start, start + size, f0)
    requires RangeCleared(p1, f1, p2, f2, root, start, start + size)
    requires forall f :: f in own && own[f].level >= 1 ==> f in own' && own'[f] == own[f]
    requires size <= limit && start + limit <= USER_TOP
    ensures Accounted(p2, own', f2, root, start, start, f0)
    ensures Unmapped(p0, root, start, start + limit) ==> Restored(p0, p2, root)
  {
    hide View, PageOf, UserByte, RangeMapped, RangeAt, HeldIn;
    NothingHeld(p2, root, start);
    forall f | HeldIn(p1, root, start, start + size, f)
      ensures f in f0
    {
      HeldFromPool(p0, p1, root, start, size, flags, seed, f0, f);
    }
    if Unmapped(p0, root, start, start + limit) {
      forall va | 0 <= va < USER_TOP
        ensures View(p2, root, PageOf(va)) == View(p0, root, PageOf(va))
        ensures UserByte(p2, root, va) == UserByte(p0, root, va)
      {
        if !(start <= va < start + size) { RangeOutside(p0, p1, root, start, size, flags, seed, f0, va); }
        NoByte(p0, root, va);
        NoByte(p2, root, va);
      }
    }
  }

  lemma NothingHeld(phys: Memory, root: nat, at: nat)
    ensures forall f :: !HeldIn(phys, root, at, at, f)
  {
    hide View, PageOf;
  }

  lemma HeldFromPool(p0: Memory, phys: Memory, root: nat, start: nat, size: nat, flags: MapFlags, seed: seq<byte>, pool: set<nat>, f: nat)
    requires RangeMapped(p0, phys, root, start, size, flags, seed, pool) && start + size <= USER_TOP
    requires HeldIn(phys, root, start, start + size, f)
    ensures f in pool
  {
    hide View, PageOf, UserByte;
    var va :| start <= va < start + size && View(phys, root, PageOf(va)).Mapped? && View(phys, root, PageOf(va)).entry.frame == f;
    assert RangeAt(p0, phys, root, start, size, flags, seed, pool, va);
  }

  lemma RangeOutside(p0: Memory, phys: Memory, root: nat, start: nat, size: nat, flags: MapFlags, seed: seq<byte>, pool: set<nat>, va: nat)
    requires RangeMapped(p0, phys, root, start, size, flags, seed, pool) && va < USER_TOP && !(start <= va < start + size)
    ensures View(phys, root, PageOf(va)) == View(p0, root, PageOf(va)) && UserByte(phys, root, va) == UserByte(p0, root, va)
  {
    hide View, PageOf, UserByte;
    assert RangeAt(p0, phys, root, start, size, flags, seed, pool, va);
  }

  lemma NoByte(phys: Memory, root: nat, va: nat)
    ensures View(phys, root, PageOf(va)).Absent? ==> UserByte(phys, root, va).None?
  {
    hide View, PageOf;
  }

  /** The pages [at, at + size) are mapped for brk, with frames that were free. */
  ghost predicate Grown(p0: Memory, f0: set<nat>, root: nat, at: nat, size: nat, p1: Memory, o1: Ownership, f1: set<nat>) {
    && RangeMapped(p0, p1, root, at, size, MapFlags(true, true, false), [], f0)
    && Accounted(p1, o1, f1, root, at, at + size, f0)
  }

  /** Page `cut` of the range is not mapped, and the pages before it have the new permissions. */
  ghost predicate CutAt(p0: Memory, root: nat, lo: nat, size: nat, flags: MapFlags, p1: Memory, cut: nat) {
    lo <= cut < lo + size && !View(p0, root, PageOf(cut)).Mapped? && RangeProtected(p0, p1, root, lo, cut, flags)
  }

  lemma RoundUpMonotone(a: nat, b: nat)
    requires b <= USER_TOP
    ensures a <= b ==> RoundUp(a) <= RoundUp(b)
  {
    var x, y := (a + PAGE_SIZE - 1) / PAGE_SIZE, (b + PAGE_SIZE - 1) / PAGE_SIZE;
    assert a <= b ==> x <= y;
  }

  class ProcessMemory {
    const pml4: nat
    var programBreak: nat
    var nextMmapBase: nat
    var vmas: seq<VmRegion>

    ghost predicate Valid(v: Vmm)
      reads this, v, v.m, v.m.bitmap
    {
      v.Valid() && IsRoot(v.own, pml4) && NoHuge(v.m.phys, pml4) && RegionsOk(vmas) && programBreak <= USER_TOP
    }

    constructor (pml4: nat)
      ensures this.pml4 == pml4 && RegionsOk(vmas) && forall i :: 0 <= i < |vmas| ==> vmas[i] == EMPTY_REGION
      ensures programBreak == INITIAL_BREAK && nextMmapBase == MMAP_BASE
    {
      this.pml4 := pml4;
      programBreak := INITIAL_BREAK;
      nextMmapBase := MMAP_BASE;
      vmas := seq(MAX_VMAS, _ => EMPTY_REGION);
    }

    /** What fork copies from the parent. */
    constructor ForkFrom(parent: ProcessMemory, pml4: nat)
      ensures this.pml4 == pml4 && vmas == parent.vmas
      ensures programBreak == parent.programBreak && nextMmapBase == parent.nextMmapBase
    {
      this.pml4 := pml4;
      programBreak := parent.programBreak;
      nextMmapBase := parent.nextMmapBase;
      vmas := parent.vmas;
    }

    /** Records a region in the first unused slot. */
    method AllocVma(start: nat, len: nat, prot: nat, flags: nat) returns (ok: bool)
      modifies this`vmas
      ensures ok == (FirstFree(old(vmas)) < |old(vmas)|)
      ensures vmas == if ok then old(vmas)[FirstFree(old(vmas)) := VmRegion(start, len, prot, flags, true)] else old(vmas)
    {
      var i := 0;
      while i < |vmas|
        invariant 0 <= i <= |vmas| && vmas == old(vmas)
        invariant forall j :: 0 <= j < i ==> vmas[j].inUse
      {
        if !vmas[i].inUse {
          vmas := vmas[i := VmRegion(start, len, prot, flags, true)];
          return true;
        }
        i := i + 1;
      }
      return false;
    }

    /** The slot that holds exactly this region. */
    method FindVmaExact(start: nat, len: nat) returns (slot: Option<nat>)
      ensures slot.Some? ==> slot.value < |vmas| && vmas[slot.value].inUse &&
                             vmas[slot.value].start == start && vmas[slot.value].len == len
      ensures slot.None? ==> forall i :: 0 <= i < |vmas| ==> !(vmas[i].inUse && vmas[i].start == start && vmas[i].len == len)
    {
      for i := 0 to |vmas|
        invariant forall j :: 0 <= j < i ==> !(vmas[j].inUse && vmas[j].start == start && vmas[j].len == len)
      {
        if vmas[i].inUse && vmas[i].start == start && vmas[i].len == len {
          return Some(i);
        }
      }
      return None;
    }

    /** Takes `len` bytes from the region above every automatic mapping so far. */
    method ReserveMmapBase(len: nat) returns (start: Option<nat>)
      modifies this`nextMmapBase
      ensures start == if RoundUp(old(nextMmapBase)) + len < U64 then Some(RoundUp(old(nextMmapBase))) else None
      ensures nextMmapBase == if start.Some? then start.value + len else old(nextMmapBase)
    {
      var from := RoundUp(nextMmapBase);
      if from + len >= U64 { return None; }
      nextMmapBase := from + len;
      return Some(from);
    }

    /** Where mmap would place a mapping. */
    function MmapStart(addr: nat): nat
      reads this
    {
      if addr == 0 then RoundUp(nextMmapBase) else RoundDown(addr)
    }

    /**
     mmap, for requests that stay in user space.  Success maps every page of the range with the
     file's bytes or zeros; running out of frames gives everything back: the region table, the
     frames of the pages and, if the range was unmapped before, every translation.  A request with
     good arguments, a free place and four free frames for every page succeeds.  Among the errors
     exactly a bad descriptor, found after the region was recorded, leaves the region behind.
     */
    method Mmap(v: Vmm, addr: nat, len: nat, prot: nat, flags: nat, fd: int, off: int, file: Option<seq<byte>>)
      returns (r: SysResult)
      requires Valid(v)
      requires MmapArgs(len, flags, fd, off).None? ==> len + 0xFFF < U64 && MmapStart(addr) + RoundUp(len) <= USER_TOP
      modifies this, v, v.m, v.m.bitmap
      ensures Valid(v)
      ensures OnlySpace(old(v.m.phys), old(v.own), old(v.m.free), v.m.phys, v.own, v.m.free, pml4)
      ensures programBreak == old(programBreak)
      ensures nextMmapBase == if addr == 0 && MmapArgs(len, flags, fd, off).None? then old(MmapStart(addr)) + RoundUp(len) else old(nextMmapBase)
      ensures MmapArgs(len, flags, fd, off).Some? ==> r == Err(MmapArgs(len, flags, fd, off).value)
      ensures r.Err? && r.error != NoMem ==> v.m.phys == old(v.m.phys) && v.m.free == old(v.m.free) && v.own == old(v.own)
      ensures MmapArgs(len, flags, fd, off).None? && !Placeable(old(vmas), addr, old(MmapStart(addr)), len, flags) ==> r == Err(Invalid)
      ensures r.Err? ==>
                (vmas == old(vmas) <==> !(&& MmapArgs(len, flags, fd, off).None? && !Bit(flags, MAP_ANONYMOUS) && file.None?
                                          && Placeable(old(vmas), addr, old(MmapStart(addr)), len, flags)))
      ensures (&& MmapArgs(len, flags, fd, off).None? && !Bit(flags, MAP_ANONYMOUS) && file.None?
               && Placeable(old(vmas), addr, old(MmapStart(addr)), len, flags)) ==>
                && r == Err(BadFd)
                && vmas == old(vmas)[FirstFree(old(vmas)) := VmRegion(old(MmapStart(addr)), RoundUp(len), prot, flags, true)]
      ensures (&& MmapArgs(len, flags, fd, off).None? && (Bit(flags, MAP_ANONYMOUS) || file.Some?)
               && Placeable(old(vmas), addr, old(MmapStart(addr)), len, flags)) ==> r.Ok? || r == Err(NoMem) || r.Panicked?
      ensures r == Err(NoMem) || r.Panicked? ==> old(v.m.freeFrames) < 4 * (RoundUp(len) / PAGE_SIZE)
      ensures r.Panicked? ==> v.m.free == {}
      ensures r == Err(NoMem) ==>
                && Accounted(v.m.phys, v.own, v.m.free, pml4, old(MmapStart(addr)), old(MmapStart(addr)), old(v.m.free))
                && (Unmapped(old(v.m.phys), pml4, old(MmapStart(addr)), old(MmapStart(addr)) + RoundUp(len)) ==>
                      Restored(old(v.m.phys), v.m.phys, pml4))
      ensures r.Ok? ==>
                && r.value == old(MmapStart(addr)) && !RegionConflicts(old(vmas), r.value, RoundUp(len))
                && Placeable(old(vmas), addr, r.value, len, flags)
                && vmas == old(vmas)[FirstFree(old(vmas)) := VmRegion(r.value, RoundUp(len), prot, flags, true)]
                && (Bit(flags, MAP_ANONYMOUS) || (file.Some? && off >= 0))
                && RangeMapped(old(v.m.phys), v.m.phys, pml4, r.value, RoundUp(len), MapFlagsFromProt(prot),
                               if Bit(flags, MAP_ANONYMOUS) then [] else ReadRange(file.value, off, RoundUp(len)), old(v.m.free))
                && Accounted(v.m.phys, v.own, v.m.free, pml4, r.value, r.value + RoundUp(len), old(v.m.free))
      ensures r.Ok? ==> Shows(v.m.phys, pml4, r.value, RoundUp(len), prot, if Bit(flags, MAP_ANONYMOUS) then [] else file.value,
                              if Bit(flags, MAP_ANONYMOUS) then 0 else off)
    {
      hide Machine.Valid, Wf, Linked, View, Walk, PageOf, OnlySpace, UserByte, RangeMapped, Accounted, RangeCleared,
        Unmapped, SameOutside, Shows, ReadRange, Overlaps, RegionOk, Apart, RoundUp, RoundDown, FirstFree, Bit, MmapArgs,
        MapFlagsFromProt, Restored;
      OnlySpaceSame(v.m.phys, v.own, v.m.free, pml4);
      r := MmapReserve(addr, len, prot, flags, fd, off);
      if !r.Ok? { return; }
      FileArgs(len, flags, fd, off);
      RegionShape(vmas, FirstFree(old(vmas)));
      var start, size := r.value, RoundUp(len);
      var seed := [];
      if !Bit(flags, MAP_ANONYMOUS) {
        if file.None? { return Err(BadFd); }
        seed := ReadRange(file.value, off, size);
      }
      NoFileRange(size);
      r := MmapPages(v, start, size, prot, flags, seed, old(vmas));
      if r.Ok? {
        RangeShows(old(v.m.phys), v.m.phys, pml4, start, size, prot, if Bit(flags, MAP_ANONYMOUS) then [] else file.value,
                   if Bit(flags, MAP_ANONYMOUS) then 0 else off, old(v.m.free));
      }
    }

    /** Checks the arguments, places the mapping and records its region. */
    method MmapReserve(addr: nat, len: nat, prot: nat, flags: nat, fd: int, off: int) returns (r: SysResult)
      requires RegionsOk(vmas)
      requires MmapArgs(len, flags, fd, off).None? ==> len + 0xFFF < U64 && MmapStart(addr) + RoundUp(len) <= USER_TOP
      modifies this`vmas, this`nextMmapBase
      ensures RegionsOk(vmas)
      ensures !r.Panicked?
      ensures nextMmapBase == if addr == 0 && MmapArgs(len, flags, fd, off).None? then old(MmapStart(addr)) + RoundUp(len) else old(nextMmapBase)
      ensures r.Err? ==> vmas == old(vmas) && r.error != NoMem
      ensures MmapArgs(len, flags, fd, off).Some? ==> r == Err(MmapArgs(len, flags, fd, off).value)
      ensures MmapArgs(len, flags, fd, off).None? && r.Err? ==> r.error == Invalid
      ensures r.Ok? <==> MmapArgs(len, flags, fd, off).None? && Placeable(old(vmas), addr, old(MmapStart(addr)), len, flags)
      ensures r.Ok? ==>
                && r.value == old(MmapStart(addr)) && !RegionConflicts(old(vmas), r.value, RoundUp(len))
                && FirstFree(old(vmas)) < |old(vmas)|
                && vmas == old(vmas)[FirstFree(old(vmas)) := VmRegion(r.value, RoundUp(len), prot, flags, true)]
    {
      hide Overlaps;
      var bad := MmapArgs(len, flags, fd, off);
      if bad.Some? { return Err(bad.value); }
      var size := RoundUp(len);
      var start := RoundDown(addr);
      if addr == 0 {
        var from := ReserveMmapBase(size);
        if from.None? { return Err(Invalid); }
        start := from.value;
      } else {
        if !(Bit(flags, MAP_FIXED) && !RegionConflicts(vmas, start, size)) { return Err(Invalid); }
      }
      if RegionConflicts(vmas, start, size) { return Err(Invalid); }
      AddRegion(vmas, VmRegion(start, size, prot, flags, true));
      var ok := AllocVma(start, size, prot, flags);
      if !ok { return Err(Invalid); }
      return Ok(start);
    }

    /** The page loop of mmap with its undo path. */
    method MmapPages(v: Vmm, start: nat, size: nat, prot: nat, flags: nat, seed: seq<byte>, ghost before: seq<VmRegion>)
      returns (r: SysResult)
      requires Valid(v) && RegionsOk(before)
      requires start % PAGE_SIZE == 0 && size % PAGE_SIZE == 0 && start + size <= USER_TOP
      requires FirstFree(before) < |before|
      requires vmas == before[FirstFree(before) := VmRegion(start, size, prot, flags, true)]
      modifies this`vmas, v, v.m, v.m.bitmap
      ensures Valid(v)
      ensures OnlySpace(old(v.m.phys), old(v.own), old(v.m.free), v.m.phys, v.own, v.m.free, pml4)
      ensures r == Panicked || r == Err(NoMem) || r == Ok(start)
      ensures !r.Ok? ==> old(v.m.freeFrames) < 4 * (size / PAGE_SIZE)
      ensures r.Panicked? ==> v.m.free == {}
      ensures r == Err(NoMem) ==>
                && vmas == before
                && Accounted(v.m.phys, v.own, v.m.free, pml4, start, start, old(v.m.free))
                && (Unmapped(old(v.m.phys), pml4, start, start + size) ==> Restored(old(v.m.phys), v.m.phys, pml4))
      ensures r.Ok? ==>
                && vmas == old(vmas)
                && RangeMapped(old(v.m.phys), v.m.phys, pml4, start, size, MapFlagsFromProt(prot), seed, old(v.m.free))
                && Accounted(v.m.phys, v.own, v.m.free, pml4, start, start + size, old(v.m.free))
    {
      hide Machine.Valid, Wf, Linked, View, Walk, PageOf, OnlySpace, UserByte, RangeMapped, Accounted, RangeCleared,
        Unmapped, SameOutside, Bit;
      var mr, mapped := MapPages(v, pml4, start, size, MapFlagsFromProt(prot), seed);
      if mr.Panic? { return Panicked; }
      if mr.Done? { return Ok(start); }
      ghost var p1, o1, f1 := v.m.phys, v.own, v.m.free;
      UnmapPages(v, pml4, start, mapped);
      OnlySpaceTransitive(old(v.m.phys), old(v.own), old(v.m.free), p1, o1, f1, v.m.phys, v.own, v.m.free, pml4);
      MapThenClear(old(v.m.phys), p1, v.m.phys, o1, old(v.m.free), f1, v.m.free, v.own, pml4, start, mapped, size, MapFlagsFromProt(prot), seed);
      var slot := FindVmaExact(start, size);
      if slot.Some? {
        ExactUnique(vmas, slot.value, FirstFree(before));
        vmas := vmas[slot.value := EMPTY_REGION];
        assert vmas == before;
      }
      return Err(NoMem);
    }

    /** munmap of exactly one region: its pages and frames are given back, nothing else moves. */
    method Munmap(v: Vmm, addr: nat, len: nat) returns (r: SysResult)
      requires Valid(v)
      modifies this`vmas, v, v.m, v.m.bitmap
      ensures Valid(v)
      ensures OnlySpace(old(v.m.phys), old(v.own), old(v.m.free), v.m.phys, v.own, v.m.free, pml4)
      ensures !r.Ok? ==> r == Err(Invalid) && vmas == old(vmas) && v.m.phys == old(v.m.phys) && v.m.free == old(v.m.free) && v.own == old(v.own)
      ensures r.Ok? <==> addr != 0 && len != 0 && HasRegion(old(vmas), RoundDown(addr), RoundUp(len))
      ensures r.Ok? ==> r.value == 0
      ensures r.Ok? ==> RangeCleared(old(v.m.phys), old(v.m.free), v.m.phys, v.m.free, pml4, RoundDown(addr), RoundDown(addr) + RoundUp(len))
      ensures r.Ok? ==> |vmas| == |old(vmas)| && forall i :: 0 <= i < |vmas| ==>
                vmas[i] == if IsRegion(old(vmas)[i], RoundDown(addr), RoundUp(len)) then EMPTY_REGION else old(vmas)[i]
      ensures forall f :: f in old(v.own) && old(v.own)[f].level >= 1 ==> f in v.own && v.own[f] == old(v.own)[f]
    {
      hide Machine.Valid, Wf, Linked, View, Walk, PageOf, OnlySpace, UserByte, RangeCleared, RoundDown, RoundUp;
      OnlySpaceSame(v.m.phys, v.own, v.m.free, pml4);
      if addr == 0 || len == 0 { return Err(Invalid); }
      var start, size := RoundDown(addr), RoundUp(len);
      var slot := FindVmaExact(start, size);
      if slot.None? { return Err(Invalid); }
      UnmapPages(v, pml4, start, size);
      forall i | 0 <= i < |vmas| && vmas[i].inUse && vmas[i].start == start && vmas[i].len == size
        ensures i == slot.value
      {
        ExactUnique(vmas, slot.value, i);
      }
      vmas := vmas[slot.value := EMPTY_REGION];
      return Ok(0);
    }

    /** mprotect of exactly one region; it stops at the first page that is not mapped. */
    method Mprotect(v: Vmm, addr: nat, len: nat, prot: nat) returns (r: SysResult)
      requires Valid(v)
      modifies this`vmas, v, v.m`phys
      ensures Valid(v) && v.own == old(v.own) && v.m.free == old(v.m.free)
      ensures OnlySpace(old(v.m.phys), old(v.own), old(v.m.free), v.m.phys, v.own, v.m.free, pml4)
      ensures !r.Panicked? && (r.Err? ==> r.error == Invalid && vmas == old(vmas))
      ensures addr == 0 || len == 0 || !HasRegion(old(vmas), RoundDown(addr), RoundUp(len)) ==> r.Err? && v.m.phys == old(v.m.phys)
      ensures r.Err? && addr != 0 && len != 0 && HasRegion(old(vmas), RoundDown(addr), RoundUp(len)) ==>
                exists cut: nat :: CutAt(old(v.m.phys), pml4, RoundDown(addr), RoundUp(len), MapFlagsFromProt(prot), v.m.phys, cut)
      ensures r.Ok? ==> r.value == 0 && Allows(v.m.phys, pml4, RoundDown(addr), RoundUp(len), prot)
      ensures r.Ok? ==>
                && RangeProtected(old(v.m.phys), v.m.phys, pml4, RoundDown(addr), RoundDown(addr) + RoundUp(len), MapFlagsFromProt(prot))
                && exists i :: 0 <= i < |old(vmas)| && IsRegion(old(vmas)[i], RoundDown(addr), RoundUp(len))
                     && vmas == old(vmas)[i := old(vmas)[i].(prot := prot)]
    {
      hide Machine.Valid, Wf, Linked, View, Walk, PageOf, OnlySpace, UserByte, RangeProtected, OnePageView,
        KeepsData, RoundDown, RoundUp, Bit, Allows;
      OnlySpaceSame(v.m.phys, v.own, v.m.free, pml4);
      var start, size := RoundDown(addr), RoundUp(len);
      NothingProtected(v.m.phys, pml4, start, MapFlagsFromProt(prot));
      if addr == 0 || len == 0 { return Err(Invalid); }
      var slot := FindVmaExact(start, size);
      if slot.None? { return Err(Invalid); }
      var flags := MapFlagsFromProt(prot);
      var off := 0;
      while off < size
        invariant 0 <= off <= size && off % PAGE_SIZE == 0
        invariant Valid(v) && v.own == old(v.own) && v.m.free == old(v.m.free) && vmas == old(vmas)
        invariant OnlySpace(old(v.m.phys), old(v.own), old(v.m.free), v.m.phys, v.own, v.m.free, pml4)
        invariant RangeProtected(old(v.m.phys), v.m.phys, pml4, start, start + off, flags)
      {
        ghost var p1 := v.m.phys;
        PageOfUser(start + off);
        var ok := v.ProtectPageIn(pml4, start + off, flags);
        if !ok {
          ProtectedElse(old(v.m.phys), p1, pml4, start, start + off, flags);
          assert CutAt(old(v.m.phys), pml4, start, size, flags, v.m.phys, start + off);
          return Err(Invalid);
        }
        ProtectEffect(old(v.m.phys), p1, v.own, v.m.free, v.m.phys, pml4, start, start + off, flags);
        OnlySpaceTransitive(old(v.m.phys), v.own, v.m.free, p1, v.own, v.m.free, v.m.phys, v.own, v.m.free, pml4);
        off := off + PAGE_SIZE;
      }
      ProtectedAllows(old(v.m.phys), v.m.phys, pml4, start, size, prot);
      vmas := vmas[slot.value := vmas[slot.value].(prot := prot)];
      return Ok(0);
    }

    /** brk, for breaks inside user space.  Growing maps zeroed pages; on OOM the break stays put. */
    method Brk(v: Vmm, addr: nat) returns (r: SysResult)
      requires Valid(v) && addr <= USER_TOP
      modifies this`programBreak, v, v.m, v.m.bitmap
      ensures Valid(v)
      ensures OnlySpace(old(v.m.phys), old(v.own), old(v.m.free), v.m.phys, v.own, v.m.free, pml4)
      ensures r.Ok? ==> r.value == programBreak
      ensures !r.Err? && (r.Panicked? ==> programBreak == old(programBreak) && v.m.free == {})
      ensures addr == 0 ==> programBreak == old(programBreak)
      ensures addr <= old(programBreak) ==> r.Ok? && v.m.phys == old(v.m.phys) && v.own == old(v.own) && v.m.free == old(v.m.free)
      ensures 0 < addr <= old(programBreak) ==> programBreak == addr
      ensures programBreak != addr && addr > old(programBreak) ==>
                old(v.m.freeFrames) < 4 * ((RoundUp(addr) - RoundUp(old(programBreak))) / PAGE_SIZE)
      ensures r.Ok? && addr > old(programBreak) ==>
                exists mapped: nat ::
                  && mapped <= RoundUp(addr) - RoundUp(old(programBreak))
                  && Grown(old(v.m.phys), old(v.m.free), pml4, RoundUp(old(programBreak)), mapped, v.m.phys, v.own, v.m.free)
                  && programBreak == if mapped == RoundUp(addr) - RoundUp(old(programBreak)) then addr else old(programBreak)
    {
      hide Machine.Valid, Wf, Linked, View, Walk, PageOf, OnlySpace, UserByte, RangeMapped, Accounted;
      OnlySpaceSame(v.m.phys, v.own, v.m.free, pml4);
      if addr == 0 { return Ok(programBreak); }
      if addr <= programBreak {
        programBreak := addr;
        return Ok(addr);
      }
      var page, end := RoundUp(programBreak), RoundUp(addr);
      var mr, mapped := MapPages(v, pml4, page, end - page, MapFlags(true, true, false), []);
      assert !mr.Panic? ==> Grown(old(v.m.phys), old(v.m.free), pml4, page, mapped, v.m.phys, v.own, v.m.free);
      if mr.Panic? { return Panicked; }
      if mr.OutOfMemory? { return Ok(programBreak); }
      programBreak := addr;
      return Ok(addr);
    }

    /** mmap followed by munmap of the same range is the identity, up to table frames and the mmap base. */
    method MmapMunmap(v: Vmm, addr: nat, len: nat, prot: nat, flags: nat, fd: int, off: int, file: Option<seq<byte>>)
      returns (r: SysResult)
      requires Valid(v)
      requires MmapArgs(len, flags, fd, off).None? ==> len + 0xFFF < U64 && MmapStart(addr) + RoundUp(len) <= USER_TOP
      modifies this, v, v.m, v.m.bitmap
      ensures Valid(v)
      ensures OnlySpace(old(v.m.phys), old(v.own), old(v.m.free), v.m.phys, v.own, v.m.free, pml4)
      ensures r.Ok? && r.value != 0 && Unmapped(old(v.m.phys), pml4, r.value, r.value + RoundUp(len)) ==>
                && vmas == old(vmas)
                && Restored(old(v.m.phys), v.m.phys, pml4)
                && Accounted(v.m.phys, v.own, v.m.free, pml4, r.value, r.value, old(v.m.free))
    {
      hide Machine.Valid, Wf, Linked, View, Walk, PageOf, OnlySpace, UserByte, RangeMapped, Accounted, RangeCleared,
        Unmapped, SameOutside, ReadRange, Overlaps, Bit, RoundUp, RoundDown, FirstFree, RegionOk, Apart, MmapArgs,
        MmapStart, MapFlagsFromProt;
      r := Mmap(v, addr, len, prot, flags, fd, off, file);
      if !r.Ok? || r.value == 0 { return; }
      ghost var p1, o1, f1 := v.m.phys, v.own, v.m.free;
      ghost var added := vmas;
      ghost var slot := FirstFree(old(vmas));
      assert added[slot] == VmRegion(r.value, RoundUp(len), prot, flags, true);
      RegionShape(added, slot);
      RoundAgain(r.value, len);
      var u := Munmap(v, r.value, RoundUp(len));
      OnlySpaceTransitive(old(v.m.phys), old(v.own), old(v.m.free), p1, o1, f1, v.m.phys, v.own, v.m.free, pml4);
      assert added[slot].inUse;
      assert u.Ok?;
      SlotBack(old(vmas), added, vmas, slot, r.value, RoundUp(len));
      MapThenClear(old(v.m.phys), p1, v.m.phys, o1, old(v.m.free), f1, v.m.free, v.own, pml4, r.value, RoundUp(len), RoundUp(len),
                   MapFlagsFromProt(prot), if Bit(flags, MAP_ANONYMOUS) then [] else ReadRange(file.value, off, RoundUp(len)));
    }
  }

  /** Rounding what is already rounded changes nothing. */
  lemma RoundAgain(start: nat, len: nat)
    requires len + 0xFFF < U64
    ensures start % PAGE_SIZE == 0 ==> RoundDown(start) == start
    ensures RoundUp(len) + 0xFFF < U64 ==> RoundUp(RoundUp(len)) == RoundUp(len)
  {
  }

  /** The permissions of the pages [lo, cut) were replaced; all bytes and all other pages are as in `p0`. */
  ghost predicate RangeProtected(p0: Memory, phys: Memory, root: nat, lo: nat, cut: nat, flags: MapFlags) {
    forall va :: 0 <= va < USER_TOP ==>
      && UserByte(phys, root, va) == UserByte(p0, root, va)
      && if lo <= va < cut then
           && View(p0, root, PageOf(va)).Mapped?
           && View(phys, root, PageOf(va)) == Mapped(WithFlags(View(p0, root, PageOf(va)).entry, flags))
         else View(phys, root, PageOf(va)) == View(p0, root, PageOf(va))
  }

  lemma ProtectedElse(p0: Memory, phys: Memory, root: nat, lo: nat, cut: nat, flags: MapFlags)
    requires RangeProtected(p0, phys, root, lo, cut, flags) && cut < USER_TOP
    ensures View(phys, root, PageOf(cut)) == View(p0, root, PageOf(cut))
  {
    hide PageOf, View, UserByte;
  }

  lemma NothingProtected(phys: Memory, root: nat, lo: nat, flags: MapFlags)
    ensures RangeProtected(phys, phys, root, lo, lo, flags)
  {
  }

  lemma ProtectEffect(p0: Memory, p1: Memory, own: Ownership, free: set<nat>, p2: Memory, root: nat, lo: nat, cut: nat, flags: MapFlags)
    requires Wf(p1, own, free) && IsRoot(own, root) && NoHuge(p1, root)
    requires RangeProtected(p0, p1, root, lo, cut, flags) && lo <= cut < USER_TOP && cut % PAGE_SIZE == 0
    requires View(p1, root, PageOf(cut)).Mapped? && KeepsData(p1, own, p2) && (Open(p1, own) ==> Open(p2, own))
    requires OnePageView(p1, own, p2, root, PageOf(cut), Mapped(WithFlags(View(p1, root, PageOf(cut)).entry, flags)))
    ensures RangeProtected(p0, p2, root, lo, cut + PAGE_SIZE, flags)
    ensures OnlySpace(p1, own, free, p2, own, free, root) && NoHuge(p2, root)
  {
    hide PageOf, Open;
    forall r: nat, va: nat | IsRoot(own, r) && va < USER_TOP
      ensures UserByte(p2, r, va) == UserByte(p1, r, va)
    {
      PageOfUser(va);
      if View(p1, r, PageOf(va)).Mapped? {
        MappedFrame(p1, own, free, r, PageOf(va));
      }
    }
    forall va | 0 <= va < USER_TOP
      ensures PageOf(va) == PageOf(cut) <==> cut <= va < cut + PAGE_SIZE
      ensures View(p2, root, PageOf(va)) == if PageOf(va) == PageOf(cut)
                then Mapped(WithFlags(View(p1, root, PageOf(cut)).entry, flags)) else View(p1, root, PageOf(va))
    {
      PageOfUser(va);
      SamePage(cut, PAGE_SIZE, va);
    }
    forall q | UserPage(q)
      ensures !View(p2, root, q).HugePage?
    {
      assert View(p2, root, q).Mapped? || View(p2, root, q) == View(p1, root, q);
    }
  }

  /** Putting a region that conflicts with none into the first unused slot. */
  lemma AddRegion(vmas: seq<VmRegion>, r: VmRegion)
    requires RegionsOk(vmas) && r.inUse && RegionOk(r) && !RegionConflicts(vmas, r.start, r.len)
    ensures FirstFree(vmas) < |vmas| ==> RegionsOk(vmas[FirstFree(vmas) := r])
  {
  }

  /** A private mapping of a descriptor that names no file, in any new process: the region stays. */
  method BadDescriptor(v: Vmm, pml4: nat) returns (p: ProcessMemory, r: SysResult)
    requires v.Valid() && IsRoot(v.own, pml4) && NoHuge(v.m.phys, pml4)
    modifies v, v.m, v.m.bitmap
    ensures r == Err(BadFd) && |p.vmas| == MAX_VMAS
    ensures p.vmas[0] == VmRegion(MMAP_BASE, PAGE_SIZE, 0, MAP_PRIVATE, true)
    ensures v.m.phys == old(v.m.phys) && v.m.free == old(v.m.free) && v.own == old(v.own)
  {
    hide Vmm.Valid, NoHuge, OnlySpace, Accounted, RangeMapped, Unmapped, Restored;
    p := new ProcessMemory(pml4);
    FirstSlot(p.vmas);
    r := p.Mmap(v, 0, PAGE_SIZE, 0, MAP_PRIVATE, 3, 0, None);
  }

  lemma FirstSlot(vmas: seq<VmRegion>)
    requires |vmas| == MAX_VMAS && forall i :: 0 <= i < |vmas| ==> vmas[i] == EMPTY_REGION
    ensures FirstFree(vmas) == 0 && !RegionConflicts(vmas, MMAP_BASE, PAGE_SIZE)
  {
  }
}
