/**
 User memory, byte by byte, as it appears through the tables of an address space: the steps
 shared by the program loader, the stack builder and the memory system calls.
 */
module UserMemory {
  import opened Physical
  import opened Pmm
  import opened Paging

  /** The byte a space holds at a virtual address, if that page is mapped. */
  ghost function UserByte(phys: Memory, root: nat, va: nat): Option<byte> {
    match View(phys, root, PageOf(va))
    case Mapped(e) =>
      if e.frame < MAX_FRAMES && IsData(phys[e.frame]) then Some(ByteOf(phys[e.frame], va % PAGE_SIZE)) else None
    case _ => None
  }

  /** Nothing in the kernel puts a huge page into the user half of a space. */
  ghost predicate NoHuge(phys: Memory, root: nat) {
    forall q :: UserPage(q) ==> !View(phys, root, q).HugePage?
  }

  /** A mapped user page names an owned data frame of level 0. */
  lemma MappedFrame(phys: Memory, own: Ownership, free: set<nat>, root: nat, p: Page)
    requires Wf(phys, own, free) && IsRoot(own, root) && UserPage(p) && View(phys, root, p).Mapped?
    ensures var f := View(phys, root, p).entry.frame;
            0 < f < MAX_FRAMES && f in own && own[f].level == 0 && f !in free && IsData(phys[f])
  {
    ViewReach(phys, root, p);
    ReachOwned(phys, own, free, root, p, 0);
  }

  /** Two mapped user pages that name the same frame are the same page of the same space. */
  lemma FramesDistinct(phys: Memory, own: Ownership, free: set<nat>, r: nat, p: Page, s: nat, q: Page)
    requires Wf(phys, own, free) && IsRoot(own, r) && IsRoot(own, s) && UserPage(p) && UserPage(q)
    requires View(phys, r, p).Mapped? && View(phys, s, q).Mapped?
    requires View(phys, r, p).entry.frame == View(phys, s, q).entry.frame
    ensures r == s && p == q
  {
    ViewReach(phys, r, p);
    ViewReach(phys, s, q);
    LeafUnique(phys, own, free, r, p, s, q);
  }

  /** Writing a data frame changes no table. */
  lemma DataWriteGood(phys: Memory, own: Ownership, free: set<nat>, kernel: nat, f: nat, fr: Frame)
    requires Good(phys, own, free, kernel) && f in own && own[f].level == 0 && IsData(fr) && f < MAX_FRAMES
    ensures Good(phys[f := fr], own, free, kernel)
    ensures SameView(phys, own, phys[f := fr])
  {
    var phys' := phys[f := fr];
    forall g, i: nat | g in own && own[g].level >= 1 && i < Span(own[g].level)
      ensures Linked(phys', own, g, i)
    {
      assert Linked(phys, own, g, i);
    }
    forall r, q | IsRoot(own, r) && UserPage(q)
      ensures View(phys', r, q) == View(phys, r, q)
    {
      TablesStable(phys, phys', own, free, r, q);
    }
    forall r: nat, i: nat | IsRoot(own, r) && 256 <= i < ENTRIES
      ensures At(phys', r, i) == At(phys', kernel, i)
    {
      assert At(phys, r, i) == At(phys, kernel, i);
    }
  }

  // ----- Writing user bytes -----

  /**
   Between two states exactly the bytes [addr, addr + |bytes|) of space `root` changed, to
   `bytes`; no page was mapped or unmapped anywhere and nothing else was written.
   */
  ghost predicate Wrote(phys: Memory, own: Ownership, phys': Memory, root: nat, addr: nat, bytes: seq<byte>) {
    && SameView(phys, own, phys')
    && (forall f :: 0 <= f < MAX_FRAMES && (f !in own || own[f].level >= 1) ==> phys'[f] == phys[f])
    && (forall r, va :: IsRoot(own, r) && 0 <= va < USER_TOP ==>
          UserByte(phys', r, va) ==
          if r == root && addr <= va < addr + |bytes| then Some(bytes[va - addr]) else UserByte(phys, r, va))
  }

  lemma SamePage(a: nat, n: nat, va: nat)
    requires a < USER_TOP && va < USER_TOP && a % PAGE_SIZE + n <= PAGE_SIZE
    ensures a <= va < a + n <==> PageOf(va) == PageOf(a) && a % PAGE_SIZE <= va % PAGE_SIZE < a % PAGE_SIZE + n
  {
    if PageOf(va) == PageOf(a) {
      PageOfInjective(va, a);
    }
    if a <= va < a + n {
      PageNumbersEqual(a, va);
    }
  }

  lemma PageNumbersEqual(a: nat, va: nat)
    requires a <= va && va - a < PAGE_SIZE - a % PAGE_SIZE
    ensures PageOf(va) == PageOf(a) && va % PAGE_SIZE == a % PAGE_SIZE + (va - a)
  {
    var n := a / PAGE_SIZE;
    assert va / PAGE_SIZE == n;
    PageOfNumber(a);
    PageOfNumber(va);
  }

  /** The indices of an address depend on its page number only. */
  lemma PageOfNumber(v: nat)
    ensures PageOf(v) == PageOf(v / PAGE_SIZE * PAGE_SIZE)
  {
    var n := v / 0x1000;
    var w := n * 0x1000;
    assert w / 0x1000 == n;
    assert v / 0x20_0000 == n / 512 && w / 0x20_0000 == n / 512;
    assert v / 0x4000_0000 == n / 512 / 512 && w / 0x4000_0000 == n / 512 / 512;
    assert v / 0x80_0000_0000 == n / 512 / 512 / 512 && w / 0x80_0000_0000 == n / 512 / 512 / 512;
  }

  /** Copying a chunk into the frame behind one page is a write of those user bytes. */
  lemma ChunkWrote(phys: Memory, own: Ownership, free: set<nat>, kernel: nat, root: nat, addr: nat, f: nat, chunk: seq<byte>)
    requires Good(phys, own, free, kernel) && IsRoot(own, root) && addr < USER_TOP
    requires addr % PAGE_SIZE + |chunk| <= PAGE_SIZE
    requires View(phys, root, PageOf(addr)).Mapped? && View(phys, root, PageOf(addr)).entry.frame == f
    ensures f < MAX_FRAMES && IsData(phys[f])
    ensures var phys' := phys[f := WithBytes(phys[f], addr % PAGE_SIZE, chunk)];
            Good(phys', own, free, kernel) && Wrote(phys, own, phys', root, addr, chunk)
  {
    hide PageOf;
    PageOfUser(addr);
    MappedFrame(phys, own, free, root, PageOf(addr));
    var fr := WithBytes(phys[f], addr % PAGE_SIZE, chunk);
    var phys' := phys[f := fr];
    DataWriteGood(phys, own, free, kernel, f, fr);
    forall r: nat, va: nat | IsRoot(own, r) && va < USER_TOP
      ensures UserByte(phys', r, va) ==
              if r == root && addr <= va < addr + |chunk| then Some(chunk[va - addr]) else UserByte(phys, r, va)
    {
      PageOfUser(va);
      SamePage(addr, |chunk|, va);
      assert View(phys', r, PageOf(va)) == View(phys, r, PageOf(va));
      if View(phys, r, PageOf(va)).Mapped? {
        MappedFrame(phys, own, free, r, PageOf(va));
        if View(phys, r, PageOf(va)).entry.frame == f {
          FramesDistinct(phys, own, free, root, PageOf(addr), r, PageOf(va));
          if addr <= va < addr + |chunk| {
            PageNumbersEqual(addr, va);
          }
        }
      }
    }
  }

  lemma WroteMore(p0: Memory, own: Ownership, p1: Memory, p2: Memory, root: nat, addr: nat, b1: seq<byte>, b2: seq<byte>)
    requires Wrote(p0, own, p1, root, addr, b1) && Wrote(p1, own, p2, root, addr + |b1|, b2)
    ensures Wrote(p0, own, p2, root, addr, b1 + b2)
  {
  }

  lemma WroteNothing(phys: Memory, own: Ownership, root: nat, addr: nat)
    ensures Wrote(phys, own, phys, root, addr, [])
  {
  }

  /** Copies bytes into a space, page by page; fails at the first page that is not mapped. */
  method WriteUserBytes(v: Vmm, pml4: nat, addr: nat, bytes: seq<byte>) returns (ok: bool)
    requires v.Valid() && IsRoot(v.own, pml4) && NoHuge(v.m.phys, pml4)
    requires addr + |bytes| <= USER_TOP
    modifies v.m`phys
    ensures v.Valid()
    ensures ok <==> forall va :: addr <= va < addr + |bytes| ==> View(old(v.m.phys), pml4, PageOf(va)).Mapped?
    ensures ok ==> Wrote(old(v.m.phys), v.own, v.m.phys, pml4, addr, bytes)
    ensures !ok ==> exists n: nat :: n < |bytes| && !View(old(v.m.phys), pml4, PageOf(addr + n)).Mapped?
                      && Wrote(old(v.m.phys), v.own, v.m.phys, pml4, addr, bytes[..n])
  {
    hide Machine.Valid, Wf, Linked, View, Walk, PageOf, Wrote;
    var written := 0;
    WroteNothing(v.m.phys, v.own, pml4, addr);
    assert bytes[..0] == [];
    while written < |bytes|
      invariant 0 <= written <= |bytes|
      invariant v.Valid() && NoHuge(v.m.phys, pml4)
      invariant Wrote(old(v.m.phys), v.own, v.m.phys, pml4, addr, bytes[..written])
      invariant forall va :: addr <= va < addr + written ==> View(old(v.m.phys), pml4, PageOf(va)).Mapped?
    {
      var cur := addr + written;
      PageOfUser(cur);
      WroteView(old(v.m.phys), v.own, v.m.phys, pml4, addr, bytes[..written], PageOf(cur));
      var t := v.TranslatePage(pml4, cur);
      if t.NotMapped? {
        return false;
      }
      var off := cur % PAGE_SIZE;
      var n := if PAGE_SIZE - off < |bytes| - written then PAGE_SIZE - off else |bytes| - written;
      var chunk := bytes[written..written + n];
      ghost var p1 := v.m.phys;
      ChunkWrote(v.m.phys, v.own, v.m.free, v.kernelPml4, pml4, cur, t.frame, chunk);
      v.m.phys := v.m.phys[t.frame := WithBytes(v.m.phys[t.frame], off, chunk)];
      WroteMore(old(v.m.phys), v.own, p1, v.m.phys, pml4, addr, bytes[..written], chunk);
      WroteNoHuge(p1, v.own, v.m.phys, pml4, cur, chunk, pml4);
      assert bytes[..written] + chunk == bytes[..written + n];
      forall va | cur <= va < cur + n
        ensures View(old(v.m.phys), pml4, PageOf(va)).Mapped?
      {
        PageNumbersEqual(cur, va);
      }
      written := written + n;
    }
    assert bytes[..written] == bytes;
    return true;
  }

  lemma WroteView(phys: Memory, own: Ownership, phys': Memory, root: nat, addr: nat, bytes: seq<byte>, q: Page)
    requires Wrote(phys, own, phys', root, addr, bytes) && IsRoot(own, root) && UserPage(q)
    ensures View(phys', root, q) == View(phys, root, q)
  {
  }

  lemma WroteNoHuge(phys: Memory, own: Ownership, phys': Memory, root: nat, addr: nat, bytes: seq<byte>, r: nat)
    requires Wrote(phys, own, phys', root, addr, bytes) && IsRoot(own, r) && NoHuge(phys, r)
    ensures NoHuge(phys', r)
  {
  }

  // ----- Mapping a fresh page -----

  datatype MapResult = Done | OutOfMemory | Panic

  /** Page `p` now reads as zeros; the other bytes of the space are as before. */
  ghost predicate PageZeroed(phys: Memory, phys': Memory, root: nat, p: Page) {
    forall va :: 0 <= va < USER_TOP ==>
      UserByte(phys', root, va) == if PageOf(va) == p then Some(0) else UserByte(phys, root, va)
  }

  lemma SameViewNoHuge(phys: Memory, own: Ownership, phys': Memory, r: nat)
    requires SameView(phys, own, phys') && IsRoot(own, r) && NoHuge(phys, r)
    ensures NoHuge(phys', r)
  {
  }

  /**
   The sequence alloc_frame, map_page_in, zero the frame.  On success exactly one page changed,
   and it now names a zeroed frame that was free.
   */
  method MapFresh(v: Vmm, pml4: nat, virt: nat, flags: MapFlags) returns (r: MapResult, frame: nat)
    requires v.Valid() && IsRoot(v.own, pml4) && virt < USER_TOP && NoHuge(v.m.phys, pml4) && flags.user
    modifies v, v.m, v.m.bitmap
    ensures v.Valid()
    ensures Extends(old(v.m.phys), old(v.own), old(v.m.free), v.m.phys, v.own, v.m.free, {})
    ensures r.OutOfMemory? <==> old(v.m.free) == {}
    ensures r.OutOfMemory? ==> v.m.phys == old(v.m.phys) && v.own == old(v.own) && v.m.free == old(v.m.free)
    ensures r.Panic? ==> v.m.free == {} && SameView(old(v.m.phys), old(v.own), v.m.phys)
    ensures if r.Done? then v.m.freeFrames + 4 >= old(v.m.freeFrames) else old(v.m.freeFrames) < 4
    ensures r.Done? ==>
              && frame in old(v.m.free) && frame in v.own && v.own[frame].level == 0 && 0 < frame < MAX_FRAMES
              && v.m.phys[frame] == Blank
              && OnePageView(old(v.m.phys), old(v.own), v.m.phys, pml4, PageOf(virt), Mapped(LeafEntry(frame, flags)))
              && PageZeroed(old(v.m.phys), v.m.phys, pml4, PageOf(virt))
              && NewTables(old(v.own), old(v.m.free), v.own, v.m.free, {frame})
    ensures !r.Done? ==> SameView(old(v.m.phys), old(v.own), v.m.phys)
    ensures NoHuge(v.m.phys, pml4) && IsRoot(v.own, pml4)
    ensures OnlySpace(old(v.m.phys), old(v.own), old(v.m.free), v.m.phys, v.own, v.m.free, pml4)
  {
    hide Machine.Valid, Linked, Extends, SameView, OnePageView, PageOf, View, Walk, Wf, OnlySpace, PageZeroed, UserByte, Open;
    ghost var p0, o0, f0 := v.m.phys, v.own, v.m.free;
    NoStep(p0, o0, f0);
    PageOfUser(virt);
    frame := v.m.AllocFrame();
    if frame == 0 {
      OnlySpaceSame(p0, o0, f0, pml4);
      return OutOfMemory, 0;
    }
    AllocatedFrame(p0, o0, f0, v.kernelPml4, frame);
    AllocatedView(p0, o0, f0, frame, pml4, PageOf(virt));
    var ok := v.MapPageIn(pml4, virt, frame, flags);
    ghost var p2 := v.m.phys;
    AllocExtends(p0, o0, f0, frame, p2, v.own, v.m.free);
    if !ok {
      AllocSameView(p0, o0, f0, frame, p2);
      ExtendOnlySpace(p0, o0, f0, p2, v.own, v.m.free, pml4);
      SameViewNoHuge(p0, o0, p2, pml4);
      return Panic, 0;
    }
    AllocOnePageView(p0, o0, f0, frame, p2, pml4, PageOf(virt), Mapped(LeafEntry(frame, flags)));
    MapOnlySpace(p0, o0, f0, p2, v.own, v.m.free, pml4, PageOf(virt), LeafEntry(frame, flags));
    v.m.phys := v.m.phys[frame := Blank];
    assert v.m.phys == p2;
    return Done, frame;
  }

  /** Taking a frame out of the free set disturbs no space. */
  lemma AllocatedFrame(phys: Memory, own: Ownership, free: set<nat>, kernel: nat, frame: nat)
    requires Good(phys, own, free, kernel) && frame in free && 0 < frame < MAX_FRAMES
    ensures Good(phys[frame := Blank], own, free - {frame}, kernel)
    ensures frame !in own && frame != kernel
    ensures Open(phys, own) ==> Open(phys[frame := Blank], own)
  {
    hide Open;
    var phys' := phys[frame := Blank];
    OpenTables(phys, own, phys', own);
    forall g, i: nat | g in own && own[g].level >= 1 && i < Span(own[g].level)
      ensures Linked(phys', own, g, i)
    {
      assert Linked(phys, own, g, i);
    }
    forall r: nat, i: nat | IsRoot(own, r) && 256 <= i < ENTRIES
      ensures At(phys', r, i) == At(phys', kernel, i)
    {
      assert At(phys, r, i) == At(phys, kernel, i);
    }
  }

  lemma AllocatedView(phys: Memory, own: Ownership, free: set<nat>, frame: nat, r: nat, q: Page)
    requires Wf(phys, own, free) && frame in free && frame < MAX_FRAMES && IsRoot(own, r) && UserPage(q)
    ensures View(phys[frame := Blank], r, q) == View(phys, r, q)
  {
    TablesStable(phys, phys[frame := Blank], own, free, r, q);
  }

  lemma AllocExtends(phys: Memory, own: Ownership, free: set<nat>, frame: nat,
                     phys': Memory, own': Ownership, free': set<nat>)
    requires Wf(phys, own, free) && frame in free && 0 < frame < MAX_FRAMES
    requires Extends(phys[frame := Blank], own, free - {frame}, phys', own', free', {frame})
    ensures Extends(phys, own, free, phys', own', free', {})
    ensures phys'[frame] == Blank
  {
  }

  lemma AllocSameView(phys: Memory, own: Ownership, free: set<nat>, frame: nat, phys': Memory)
    requires Wf(phys, own, free) && frame in free && frame < MAX_FRAMES
    requires SameView(phys[frame := Blank], own, phys')
    ensures SameView(phys, own, phys')
  {
    forall r, q | IsRoot(own, r) && UserPage(q)
      ensures View(phys', r, q) == View(phys, r, q)
    {
      AllocatedView(phys, own, free, frame, r, q);
    }
  }

  lemma AllocOnePageView(phys: Memory, own: Ownership, free: set<nat>, frame: nat, phys': Memory, root: nat, p: Page, l: Lookup)
    requires Wf(phys, own, free) && frame in free && frame < MAX_FRAMES
    requires OnePageView(phys[frame := Blank], own, phys', root, p, l)
    ensures OnePageView(phys, own, phys', root, p, l)
  {
    forall r, q | IsRoot(own, r) && UserPage(q)
      ensures View(phys', r, q) == if r == root && q == p then l else View(phys, r, q)
    {
      AllocatedView(phys, own, free, frame, r, q);
    }
  }

  /** After a fresh page has been mapped, the bytes of every other page are as before. */
  lemma MappedBytes(phys: Memory, own: Ownership, free: set<nat>, phys': Memory, own': Ownership, free': set<nat>,
                    root: nat, p: Page, e: Entry, r: nat, va: nat)
    requires Wf(phys, own, free) && Extends(phys, own, free, phys', own', free', {})
    requires OnePageView(phys, own, phys', root, p, Mapped(e))
    requires e.frame < MAX_FRAMES && phys'[e.frame] == Blank
    requires IsRoot(own, r) && va < USER_TOP
    ensures UserByte(phys', r, va) == if r == root && PageOf(va) == p then Some(0) else UserByte(phys, r, va)
  {
    hide PageOf;
    PageOfUser(va);
    if View(phys, r, PageOf(va)).Mapped? {
      MappedFrame(phys, own, free, r, PageOf(va));
    }
  }

  lemma SameBytes(phys: Memory, own: Ownership, free: set<nat>, phys': Memory, own': Ownership, free': set<nat>,
                  r: nat, va: nat)
    requires Wf(phys, own, free) && Extends(phys, own, free, phys', own', free', {})
    requires SameView(phys, own, phys') && IsRoot(own, r) && va < USER_TOP
    ensures UserByte(phys', r, va) == UserByte(phys, r, va)
  {
    hide PageOf;
    PageOfUser(va);
    if View(phys, r, PageOf(va)).Mapped? {
      MappedFrame(phys, own, free, r, PageOf(va));
    }
  }

  // ----- Operations confined to one space -----

  /**
   Nothing outside space `root` changed: frames that belong to no user space and are not free
   (kernel image, kernel tables, heap) keep their contents and stay outside, the set of spaces is
   the same, every other space maps the same pages with the same bytes, and links that passed still do.
   */
  ghost predicate OnlySpace(phys: Memory, own: Ownership, free: set<nat>,
                            phys': Memory, own': Ownership, free': set<nat>, root: nat) {
    && (forall f :: 0 <= f < MAX_FRAMES && f !in own && f !in free ==> f !in own' && f !in free' && phys'[f] == phys[f])
    && (forall r :: IsRoot(own', r) <==> IsRoot(own, r))
    && (forall r, q :: IsRoot(own, r) && r != root && UserPage(q) ==> View(phys', r, q) == View(phys, r, q))
    && (forall r, va :: IsRoot(own, r) && r != root && 0 <= va < USER_TOP ==> UserByte(phys', r, va) == UserByte(phys, r, va))
    && (Open(phys, own) ==> Open(phys', own'))
  }

  lemma OnlySpaceTransitive(p0: Memory, o0: Ownership, f0: set<nat>, p1: Memory, o1: Ownership, f1: set<nat>,
                            p2: Memory, o2: Ownership, f2: set<nat>, root: nat)
    requires OnlySpace(p0, o0, f0, p1, o1, f1, root) && OnlySpace(p1, o1, f1, p2, o2, f2, root)
    ensures OnlySpace(p0, o0, f0, p2, o2, f2, root)
  {
    hide Open;
  }

  lemma OnlySpaceSame(phys: Memory, own: Ownership, free: set<nat>, root: nat)
    ensures OnlySpace(phys, own, free, phys, own, free, root)
  {
  }

  lemma WroteOnlySpace(phys: Memory, own: Ownership, free: set<nat>, phys': Memory, root: nat, addr: nat, bytes: seq<byte>)
    requires Wrote(phys, own, phys', root, addr, bytes)
    ensures OnlySpace(phys, own, free, phys', own, free, root)
  {
    hide Open;
    OpenTables(phys, own, phys', own);
  }

  lemma MapOnlySpace(phys: Memory, own: Ownership, free: set<nat>, phys': Memory, own': Ownership, free': set<nat>,
                     root: nat, p: Page, e: Entry)
    requires Wf(phys, own, free) && Extends(phys, own, free, phys', own', free', {})
    requires OnePageView(phys, own, phys', root, p, Mapped(e))
    requires e.frame < MAX_FRAMES && phys'[e.frame] == Blank
    requires IsRoot(own, root) && NoHuge(phys, root) && (Open(phys, own) ==> Open(phys', own'))
    ensures OnlySpace(phys, own, free, phys', own', free', root)
    ensures PageZeroed(phys, phys', root, p) && NoHuge(phys', root)
  {
    hide Open;
    forall r: nat, va: nat | IsRoot(own, r) && va < USER_TOP
      ensures UserByte(phys', r, va) == if r == root && PageOf(va) == p then Some(0) else UserByte(phys, r, va)
    {
      MappedBytes(phys, own, free, phys', own', free', root, p, e, r, va);
    }
    forall q | UserPage(q)
      ensures !View(phys', root, q).HugePage?
    {
      assert View(phys', root, q) == if q == p then Mapped(e) else View(phys, root, q);
    }
  }

  lemma ExtendOnlySpace(phys: Memory, own: Ownership, free: set<nat>, phys': Memory, own': Ownership, free': set<nat>, root: nat)
    requires Wf(phys, own, free) && Extends(phys, own, free, phys', own', free', {})
    requires SameView(phys, own, phys') && (Open(phys, own) ==> Open(phys', own'))
    ensures OnlySpace(phys, own, free, phys', own', free', root)
  {
    hide Open;
    forall r: nat, va: nat | IsRoot(own, r) && va < USER_TOP
      ensures UserByte(phys', r, va) == UserByte(phys, r, va)
    {
      SameBytes(phys, own, free, phys', own', free', r, va);
    }
  }
}
