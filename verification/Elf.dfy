/**
 The ELF loader (kernel/src/proc/elf.rs).  `ImageByte` says what a list of PT_LOAD segments
 means, as chapter 5 ("Program Header") of the System V gABI describes it: file bytes, then zeros.
 */
module Elf {
  import opened Physical
  import opened Pmm
  import opened Paging
  import opened UserMemory
  import opened LittleEndian

  datatype ElfError =
    | TooSmall | BadMagic | Not64Bit | NotLittleEndian | NotExecutable | NotX8664
    | NoProgramHeaders | OomLoadingSegment

  datatype LoadedImage = LoadedImage(entry: nat, phdr: nat, phent: nat, phnum: nat)

  /** `Panic` stands for an out-of-bounds slice in the source, or for a failed alloc_table. */
  datatype LoadResult = Ok(image: LoadedImage) | Err(error: ElfError) | Panicked

  const PT_LOAD: nat := 1
  const PHDR_SIZE: nat := 48

  function ReadLe(data: seq<byte>, offset: nat, size: nat): nat
    requires offset + size <= |data|
  {
    FromLe(data[offset..offset + size])
  }

  // ----- What the file says -----

  datatype Header = Header(entry: nat, phoff: nat, phentsize: nat, phnum: nat)

  function ReadHeader(data: seq<byte>): Header
    requires |data| >= 64
  {
    Header(ReadLe(data, 24, 8), ReadLe(data, 32, 8), ReadLe(data, 54, 2), ReadLe(data, 56, 2))
  }

  /** The checks on the identification bytes, in the order of the source. */
  function CheckIdent(data: seq<byte>): Option<ElfError> {
    if |data| < 64 then Some(TooSmall)
    else if data[0..4] != [0x7F, 0x45, 0x4C, 0x46] then Some(BadMagic)
    else if data[4] != 2 then Some(Not64Bit)
    else if data[5] != 1 then Some(NotLittleEndian)
    else if ReadLe(data, 16, 2) != 2 then Some(NotExecutable)
    else if ReadLe(data, 18, 2) != 62 then Some(NotX8664)
    else if ReadLe(data, 56, 2) == 0 then Some(NoProgramHeaders)
    else None
  }

  datatype Segment = Segment(kind: nat, offset: nat, vaddr: nat, filesz: nat, memsz: nat)

  predicate HeaderInFile(data: seq<byte>, h: Header, i: nat) {
    h.phoff + i * h.phentsize + h.phentsize <= |data|
  }

  /** Program header `i`. */
  function ReadSegment(data: seq<byte>, h: Header, i: nat): Segment
    requires h.phentsize >= PHDR_SIZE && HeaderInFile(data, h, i)
  {
    var at := h.phoff + i * h.phentsize;
    Segment(ReadLe(data, at, 4), ReadLe(data, at + 8, 8), ReadLe(data, at + 16, 8),
            ReadLe(data, at + 32, 8), ReadLe(data, at + 40, 8))
  }

  predicate Loadable(s: Segment) { s.kind == PT_LOAD && s.memsz != 0 }

  predicate AllInFile(data: seq<byte>, h: Header, n: nat) {
    forall i: nat :: i < n ==> HeaderInFile(data, h, i)
  }

  /** The loadable segments among the first `n` program headers, in file order. */
  function Segments(data: seq<byte>, h: Header, n: nat): seq<Segment>
    requires h.phentsize >= PHDR_SIZE && AllInFile(data, h, n)
  {
    if n == 0 then []
    else
      var s := ReadSegment(data, h, n - 1);
      Segments(data, h, n - 1) + if Loadable(s) then [s] else []
  }

  /** Addresses below the top of user space, no wrap-around: what the loader is specified for. */
  predicate Sane(data: seq<byte>) {
    CheckIdent(data).None? ==>
      var h := ReadHeader(data);
      && h.phoff + h.phnum * h.phentsize < 0x1_0000_0000_0000_0000
      && (forall i: nat :: i < h.phnum && h.phentsize >= PHDR_SIZE && HeaderInFile(data, h, i) ==>
            var s := ReadSegment(data, h, i);
            Loadable(s) ==> s.vaddr + s.memsz <= USER_TOP && s.vaddr + s.filesz <= USER_TOP)
  }

  // ----- What the segments mean -----

  predicate InFile(s: Segment, va: nat) { s.vaddr <= va < s.vaddr + s.filesz }

  function PageStart(s: Segment): nat { s.vaddr / PAGE_SIZE * PAGE_SIZE }
  function PageEnd(s: Segment): nat { (s.vaddr + s.memsz + PAGE_SIZE - 1) / PAGE_SIZE * PAGE_SIZE }

  predicate OnPages(s: Segment, va: nat) { PageStart(s) <= va < PageEnd(s) }

  /** Addresses on the pages of some segment. */
  predicate Covered(segs: seq<Segment>, va: nat) {
    exists k :: 0 <= k < |segs| && OnPages(segs[k], va)
  }

  /** Some file byte of `s` lies on no page of `segs` or `s`, which happens when filesz exceeds memsz. */
  ghost predicate Overhang(segs: seq<Segment>, s: Segment) {
    exists va: nat :: InFile(s, va) && !Covered(segs + [s], va)
  }

  /** Header `i` lies in the file and, if it is loadable, so does its segment, which has a page for each of its bytes. */
  ghost predicate HeaderOk(data: seq<byte>, h: Header, i: nat) {
    && h.phentsize >= PHDR_SIZE && AllInFile(data, h, i) && HeaderInFile(data, h, i)
    && var s := ReadSegment(data, h, i);
    Loadable(s) ==> s.offset + s.filesz <= |data| && !Overhang(Segments(data, h, i), s)
  }

  ghost predicate FileOk(data: seq<byte>, h: Header) {
    forall i: nat :: i < h.phnum ==> HeaderOk(data, h, i)
  }

  /** How the loader stops at a header that is not `HeaderOk`; slices of a short header are out of range. */
  function Fault(data: seq<byte>, h: Header, i: nat): (r: LoadResult)
    ensures !r.Ok?
  {
    if !HeaderInFile(data, h, i) then Err(TooSmall)
    else if h.phentsize < PHDR_SIZE then Panicked
    else if ReadSegment(data, h, i).offset + ReadSegment(data, h, i).filesz > |data| then Err(TooSmall)
    else Err(OomLoadingSegment)
  }

  /** The first header that is not well-formed. */
  ghost predicate FirstBad(data: seq<byte>, h: Header, i: nat) {
    i < h.phnum && !HeaderOk(data, h, i) && forall j: nat :: j < i ==> HeaderOk(data, h, j)
  }

  /** How loading ends without the frames it needs. */
  predicate OutOfFrames(free: set<nat>, r: LoadResult) { free == {} && (r == Err(OomLoadingSegment) || r == Panicked) }

  /** The byte the segments put at an address: the last file byte written there, else zero. */
  function ImageByte(data: seq<byte>, segs: seq<Segment>, va: nat): byte
    requires forall k :: 0 <= k < |segs| ==> segs[k].offset + segs[k].filesz <= |data|
  {
    if segs == [] then 0
    else
      var s := segs[|segs| - 1];
      if InFile(s, va) then data[s.offset + (va - s.vaddr)]
      else ImageByte(data, segs[..|segs| - 1], va)
  }

  predicate FitsFile(data: seq<byte>, segs: seq<Segment>) {
    forall k :: 0 <= k < |segs| ==> segs[k].offset + segs[k].filesz <= |data|
  }

  /** The space holds exactly the image of the segments: their pages, with their bytes. */
  ghost predicate Holds(phys: Memory, pml4: nat, data: seq<byte>, segs: seq<Segment>, extra: Segment, upto: nat)
    requires FitsFile(data, segs)
  {
    forall va :: 0 <= va < USER_TOP ==>
      UserByte(phys, pml4, va) ==
      if Covered(segs, va) || PageStart(extra) <= va < upto then Some(ImageByte(data, segs, va)) else None
  }

  ghost predicate Loaded(phys: Memory, pml4: nat, data: seq<byte>, segs: seq<Segment>)
    requires FitsFile(data, segs)
  {
    forall va :: 0 <= va < USER_TOP ==>
      UserByte(phys, pml4, va) == if Covered(segs, va) then Some(ImageByte(data, segs, va)) else None
  }

  /** User code may read, write and execute the page. */
  predicate Rwx(e: Entry) { e.present && e.user && e.writable && !e.nx }

  /** Every mapped page of the space is one user code may read, write and execute. */
  ghost predicate Runnable(phys: Memory, pml4: nat) {
    forall q :: UserPage(q) && View(phys, pml4, q).Mapped? ==> Rwx(View(phys, pml4, q).entry)
  }

  lemma RunnableFresh(phys: Memory, own: Ownership, phys': Memory, pml4: nat, p: Page, e: Entry)
    requires Runnable(phys, pml4) && OnePageView(phys, own, phys', pml4, p, Mapped(e)) && IsRoot(own, pml4) && Rwx(e)
    ensures Runnable(phys', pml4)
  {
    hide View;
    forall q | UserPage(q) && View(phys', pml4, q).Mapped?
      ensures Rwx(View(phys', pml4, q).entry)
    {
      assert View(phys', pml4, q) == if q == p then Mapped(e) else View(phys, pml4, q);
    }
  }

  lemma RunnableWritten(phys: Memory, own: Ownership, phys': Memory, pml4: nat, addr: nat, bytes: seq<byte>)
    requires Runnable(phys, pml4) && Wrote(phys, own, phys', pml4, addr, bytes) && IsRoot(own, pml4)
    ensures Runnable(phys', pml4)
  {
    hide View, Wrote;
    forall q | UserPage(q)
      ensures View(phys', pml4, q) == View(phys, pml4, q)
    {
      WroteView(phys, own, phys', pml4, addr, bytes, q);
    }
  }

  /** No file byte lies outside the pages of the segments. */
  ghost predicate Quiet(data: seq<byte>, segs: seq<Segment>)
    requires FitsFile(data, segs)
  {
    forall va :: 0 <= va < USER_TOP && !Covered(segs, va) ==> ImageByte(data, segs, va) == 0
  }

  lemma CoveredSnoc(segs: seq<Segment>, s: Segment, va: nat)
    ensures Covered(segs + [s], va) <==> Covered(segs, va) || OnPages(s, va)
  {
    var all := segs + [s];
    if Covered(segs, va) {
      var k :| 0 <= k < |segs| && OnPages(segs[k], va);
      assert all[k] == segs[k];
    }
    if OnPages(s, va) { assert all[|segs|] == s; }
    if Covered(all, va) {
      var k :| 0 <= k < |all| && OnPages(all[k], va);
      assert k < |segs| ==> all[k] == segs[k];
    }
  }

  lemma ImageSnoc(data: seq<byte>, segs: seq<Segment>, s: Segment, va: nat)
    requires FitsFile(data, segs) && s.offset + s.filesz <= |data|
    ensures FitsFile(data, segs + [s])
    ensures ImageByte(data, segs + [s], va) ==
            if InFile(s, va) then data[s.offset + (va - s.vaddr)] else ImageByte(data, segs, va)
  {
  }

  // ----- Loading one segment -----

  /** Maps every page of a segment that is not mapped yet, zeroed. */
  method MapSegment(v: Vmm, pml4: nat, s: Segment, ghost data: seq<byte>, ghost segs: seq<Segment>) returns (r: MapResult)
    requires v.Valid() && IsRoot(v.own, pml4) && NoHuge(v.m.phys, pml4)
    requires s.vaddr + s.memsz <= USER_TOP && s.memsz != 0
    requires FitsFile(data, segs) && Loaded(v.m.phys, pml4, data, segs) && Quiet(data, segs) && Runnable(v.m.phys, pml4)
    modifies v, v.m, v.m.bitmap
    ensures v.Valid() && NoHuge(v.m.phys, pml4)
    ensures OnlySpace(old(v.m.phys), old(v.own), old(v.m.free), v.m.phys, v.own, v.m.free, pml4)
    ensures r.Done? ==> Runnable(v.m.phys, pml4) && Holds(v.m.phys, pml4, data, segs, s, PageEnd(s))
    ensures !r.Done? ==> v.m.free == {}
  {
    hide Machine.Valid, Wf, Linked, View, Walk, PageOf, OnlySpace, Extends, OnePageView, SameView, UserByte, Covered,
      ImageByte, Runnable;
    var page := PageStart(s);
    OnlySpaceSame(v.m.phys, v.own, v.m.free, pml4);
    while page < PageEnd(s)
      invariant page % PAGE_SIZE == 0 && PageStart(s) <= page <= PageEnd(s)
      invariant v.Valid() && IsRoot(v.own, pml4) && NoHuge(v.m.phys, pml4)
      invariant OnlySpace(old(v.m.phys), old(v.own), old(v.m.free), v.m.phys, v.own, v.m.free, pml4)
      invariant Holds(v.m.phys, pml4, data, segs, s, page) && Runnable(v.m.phys, pml4)
    {
      PageEndInUser(s);
      PageOfUser(page);
      var t := v.TranslatePage(pml4, page);
      ghost var p1, o1, f1 := v.m.phys, v.own, v.m.free;
      if t.NotMapped? {
        var frame;
        r, frame := MapFresh(v, pml4, page, MapFlags(true, true, true));
        OnlySpaceTransitive(old(v.m.phys), old(v.own), old(v.m.free), p1, o1, f1, v.m.phys, v.own, v.m.free, pml4);
        if !r.Done? { return; }
        HoldsFresh(p1, v.m.phys, pml4, data, segs, s, page);
        RunnableFresh(p1, o1, v.m.phys, pml4, PageOf(page), LeafEntry(frame, MapFlags(true, true, true)));
      } else {
        HoldsMapped(p1, o1, f1, pml4, data, segs, s, page);
      }
      page := page + PAGE_SIZE;
    }
    return Done;
  }

  lemma PageEndInUser(s: Segment)
    requires s.vaddr + s.memsz <= USER_TOP
    ensures PageEnd(s) <= USER_TOP
  {
  }

  /** A page that was mapped already belongs to an earlier segment, or to this one. */
  lemma HoldsMapped(phys: Memory, own: Ownership, free: set<nat>, pml4: nat,
                    data: seq<byte>, segs: seq<Segment>, s: Segment, page: nat)
    requires Wf(phys, own, free) && IsRoot(own, pml4)
    requires FitsFile(data, segs) && Holds(phys, pml4, data, segs, s, page)
    requires page % PAGE_SIZE == 0 && page < USER_TOP && View(phys, pml4, PageOf(page)).Mapped?
    ensures Holds(phys, pml4, data, segs, s, page + PAGE_SIZE)
  {
    hide PageOf, Covered, ImageByte;
    forall va | 0 <= va < USER_TOP
      ensures UserByte(phys, pml4, va) ==
              if Covered(segs, va) || PageStart(s) <= va < page + PAGE_SIZE then Some(ImageByte(data, segs, va)) else None
    {
      SamePage(page, PAGE_SIZE, va);
      PageOfUser(va);
      if PageOf(va) == PageOf(page) {
        MappedFrame(phys, own, free, pml4, PageOf(va));
      }
    }
  }

  /** A fresh page reads as zeros, which is what the image says about it so far. */
  lemma HoldsFresh(phys: Memory, phys': Memory, pml4: nat, data: seq<byte>, segs: seq<Segment>, s: Segment, page: nat)
    requires FitsFile(data, segs) && Holds(phys, pml4, data, segs, s, page) && Quiet(data, segs)
    requires page % PAGE_SIZE == 0 && PageStart(s) <= page < USER_TOP && View(phys, pml4, PageOf(page)).Absent?
    requires PageZeroed(phys, phys', pml4, PageOf(page))
    ensures Holds(phys', pml4, data, segs, s, page + PAGE_SIZE)
  {
    hide PageOf, Covered, ImageByte;
    forall va | 0 <= va < USER_TOP
      ensures UserByte(phys', pml4, va) ==
              if Covered(segs, va) || PageStart(s) <= va < page + PAGE_SIZE then Some(ImageByte(data, segs, va)) else None
    {
      SamePage(page, PAGE_SIZE, va);
      assert UserByte(phys', pml4, va) == if PageOf(va) == PageOf(page) then Some(0) else UserByte(phys, pml4, va);
      if PageOf(va) == PageOf(page) {
        assert UserByte(phys, pml4, va) == None;
      }
    }
  }

  /** Copies the file part of a segment, one page at a time. */
  method CopySegment(v: Vmm, pml4: nat, s: Segment, src: seq<byte>) returns (ok: bool)
    requires v.Valid() && IsRoot(v.own, pml4) && NoHuge(v.m.phys, pml4)
    requires |src| == s.filesz && s.vaddr + s.filesz <= USER_TOP
    modifies v.m`phys
    ensures v.Valid() && NoHuge(v.m.phys, pml4)
    ensures OnlySpace(old(v.m.phys), v.own, v.m.free, v.m.phys, v.own, v.m.free, pml4)
    ensures ok ==> Wrote(old(v.m.phys), v.own, v.m.phys, pml4, s.vaddr, src)
    ensures ok <==> forall va :: InFile(s, va) ==> View(old(v.m.phys), pml4, PageOf(va)).Mapped?
  {
    hide Machine.Valid, Wf, Linked, View, Walk, PageOf, Wrote, OnlySpace, UserByte;
    var copied, curPage := 0, PageStart(s);
    WroteNothing(v.m.phys, v.own, pml4, s.vaddr);
    assert src[..0] == [];
    while copied < s.filesz
      invariant 0 <= copied <= s.filesz
      invariant curPage % PAGE_SIZE == 0
      invariant copied == 0 ==> curPage == PageStart(s)
      invariant 0 < copied < s.filesz ==> curPage == s.vaddr + copied && curPage > PageStart(s)
      invariant v.Valid() && NoHuge(v.m.phys, pml4)
      invariant Wrote(old(v.m.phys), v.own, v.m.phys, pml4, s.vaddr, src[..copied])
      invariant forall va :: s.vaddr <= va < s.vaddr + copied ==> View(old(v.m.phys), pml4, PageOf(va)).Mapped?
    {
      var pageOff := if curPage == PageStart(s) then s.vaddr % PAGE_SIZE else 0;
      var remaining := s.filesz - copied;
      var n := if remaining < PAGE_SIZE - pageOff then remaining else PAGE_SIZE - pageOff;
      ghost var cur := s.vaddr + copied;
      assert cur == curPage + pageOff && cur % PAGE_SIZE == pageOff;
      PageNumbersEqual(curPage, cur);
      PageOfUser(cur);
      WroteView(old(v.m.phys), v.own, v.m.phys, pml4, s.vaddr, src[..copied], PageOf(cur));
      var t := v.TranslatePage(pml4, curPage);
      if t.NotMapped? {
        WroteOnlySpace(old(v.m.phys), v.own, v.m.free, v.m.phys, pml4, s.vaddr, src[..copied]);
        return false;
      }
      var chunk := src[copied..copied + n];
      ghost var p1 := v.m.phys;
      ChunkWrote(v.m.phys, v.own, v.m.free, v.kernelPml4, pml4, cur, t.frame, chunk);
      v.m.phys := v.m.phys[t.frame := WithBytes(v.m.phys[t.frame], pageOff, chunk)];
      WroteMore(old(v.m.phys), v.own, p1, v.m.phys, pml4, s.vaddr, src[..copied], chunk);
      WroteNoHuge(p1, v.own, v.m.phys, pml4, cur, chunk, pml4);
      assert src[..copied] + chunk == src[..copied + n];
      forall va | cur <= va < cur + n
        ensures View(old(v.m.phys), pml4, PageOf(va)).Mapped?
      {
        PageNumbersEqual(cur, va);
      }
      copied := copied + n;
      curPage := curPage + PAGE_SIZE;
    }
    assert src[..copied] == src;
    WroteOnlySpace(old(v.m.phys), v.own, v.m.free, v.m.phys, pml4, s.vaddr, src);
    return true;
  }

  /** Loading one more segment extends the image by that segment. */
  method LoadSegment(v: Vmm, pml4: nat, s: Segment, data: seq<byte>, ghost segs: seq<Segment>) returns (r: MapResult)
    requires v.Valid() && IsRoot(v.own, pml4) && NoHuge(v.m.phys, pml4)
    requires s.vaddr + s.memsz <= USER_TOP && s.vaddr + s.filesz <= USER_TOP && s.memsz != 0
    requires FitsFile(data, segs) && Loaded(v.m.phys, pml4, data, segs) && Quiet(data, segs) && Runnable(v.m.phys, pml4)
    requires s.offset + s.filesz <= |data|
    modifies v, v.m, v.m.bitmap
    ensures v.Valid() && NoHuge(v.m.phys, pml4)
    ensures OnlySpace(old(v.m.phys), old(v.own), old(v.m.free), v.m.phys, v.own, v.m.free, pml4)
    ensures r.Done? ==> FitsFile(data, segs + [s])
    ensures r.Done? ==> Loaded(v.m.phys, pml4, data, segs + [s]) && Quiet(data, segs + [s]) && !Overhang(segs, s)
    ensures r.Done? ==> Runnable(v.m.phys, pml4)
    ensures r.OutOfMemory? ==> v.m.free == {} || Overhang(segs, s)
    ensures r.Panic? ==> v.m.free == {}
  {
    hide Machine.Valid, Wf, Linked, View, Walk, PageOf, Wrote, OnlySpace, UserByte, Loaded, Quiet, Holds, Covered,
      ImageByte, Overhang, Runnable;
    r := MapSegment(v, pml4, s, data, segs);
    if !r.Done? { return; }
    ghost var p1, o1, f1 := v.m.phys, v.own, v.m.free;
    RootKept(old(v.m.phys), old(v.own), old(v.m.free), p1, o1, f1, pml4);
    OverhangExact(p1, o1, f1, pml4, data, segs, s);
    var ok := CopySegment(v, pml4, s, data[s.offset..s.offset + s.filesz]);
    OnlySpaceTransitive(old(v.m.phys), old(v.own), old(v.m.free), p1, o1, f1, v.m.phys, v.own, v.m.free, pml4);
    if !ok { return OutOfMemory; }
    SegmentLoaded(p1, o1, f1, v.m.phys, pml4, data, segs, s);
    RunnableWritten(p1, v.own, v.m.phys, pml4, s.vaddr, data[s.offset..s.offset + s.filesz]);
    return Done;
  }

  lemma RootKept(phys: Memory, own: Ownership, free: set<nat>, phys': Memory, own': Ownership, free': set<nat>, root: nat)
    requires OnlySpace(phys, own, free, phys', own', free', root)
    ensures forall r :: IsRoot(own', r) <==> IsRoot(own, r)
  {
  }

  lemma SegmentLoaded(phys: Memory, own: Ownership, free: set<nat>, phys': Memory, pml4: nat,
                      data: seq<byte>, segs: seq<Segment>, s: Segment)
    requires Wf(phys, own, free) && IsRoot(own, pml4) && FitsFile(data, segs) && s.offset + s.filesz <= |data|
    requires Holds(phys, pml4, data, segs, s, PageEnd(s)) && Quiet(data, segs)
    requires Wrote(phys, own, phys', pml4, s.vaddr, data[s.offset..s.offset + s.filesz])
    requires s.vaddr + s.filesz <= USER_TOP
    requires forall va :: InFile(s, va) ==> View(phys, pml4, PageOf(va)).Mapped?
    ensures FitsFile(data, segs + [s])
    ensures Loaded(phys', pml4, data, segs + [s]) && Quiet(data, segs + [s])
  {
    hide PageOf, Covered, ImageByte, UserByte;
    forall va | 0 <= va < USER_TOP
      ensures UserByte(phys', pml4, va) ==
              if Covered(segs + [s], va) then Some(ImageByte(data, segs + [s], va)) else None
      ensures !Covered(segs + [s], va) ==> ImageByte(data, segs + [s], va) == 0
    {
      CoveredSnoc(segs, s, va);
      ImageSnoc(data, segs, s, va);
      assert UserByte(phys, pml4, va) == if Covered(segs, va) || OnPages(s, va) then Some(ImageByte(data, segs, va)) else None;
      if InFile(s, va) {
        MappedByte(phys, own, free, pml4, va);
      }
    }
  }

  /** Once the pages of a segment are mapped, its file bytes have pages exactly when it does not overhang. */
  lemma OverhangExact(phys: Memory, own: Ownership, free: set<nat>, pml4: nat, data: seq<byte>, segs: seq<Segment>, s: Segment)
    requires Wf(phys, own, free) && IsRoot(own, pml4) && FitsFile(data, segs) && s.vaddr + s.filesz <= USER_TOP
    requires Holds(phys, pml4, data, segs, s, PageEnd(s))
    ensures (forall va :: InFile(s, va) ==> View(phys, pml4, PageOf(va)).Mapped?) <==> !Overhang(segs, s)
  {
    hide PageOf, Covered, ImageByte, UserByte, View, Wf;
    forall va: nat | InFile(s, va)
      ensures View(phys, pml4, PageOf(va)).Mapped? <==> Covered(segs + [s], va)
    {
      CoveredSnoc(segs, s, va);
      MappedByte(phys, own, free, pml4, va);
    }
  }

  lemma MappedByte(phys: Memory, own: Ownership, free: set<nat>, root: nat, va: nat)
    requires Wf(phys, own, free) && IsRoot(own, root) && va < USER_TOP
    ensures UserByte(phys, root, va).Some? <==> View(phys, root, PageOf(va)).Mapped?
  {
    hide PageOf;
    PageOfUser(va);
    if View(phys, root, PageOf(va)).Mapped? {
      MappedFrame(phys, own, free, root, PageOf(va));
    }
  }

  // ----- Loading a file -----

  /** Where the program headers end up in memory: in the first segment whose file part holds them. */
  function PhdrAddress(phoff: nat, segs: seq<Segment>): nat {
    if segs == [] then 0
    else
      var s := segs[|segs| - 1];
      var before := PhdrAddress(phoff, segs[..|segs| - 1]);
      if before == 0 && s.offset <= phoff < s.offset + s.filesz then s.vaddr + (phoff - s.offset) else before
  }

  /** The space holds the image of all the file's loadable segments, and `image` describes it. */
  ghost predicate LoadedFrom(phys: Memory, pml4: nat, data: seq<byte>, h: Header, image: LoadedImage) {
    && h.phentsize >= PHDR_SIZE && AllInFile(data, h, h.phnum)
    && var segs := Segments(data, h, h.phnum);
    && FitsFile(data, segs)
    && Loaded(phys, pml4, data, segs) && Runnable(phys, pml4)
    && image == LoadedImage(h.entry, PhdrAddress(h.phoff, segs), h.phentsize, h.phnum)
  }

  /** What the loop over the program headers keeps. */
  ghost predicate Progress(phys: Memory, pml4: nat, data: seq<byte>, h: Header, i: nat, segs: seq<Segment>, phdr: nat) {
    && AllInFile(data, h, i) && (i > 0 ==> h.phentsize >= PHDR_SIZE)
    && (h.phentsize >= PHDR_SIZE ==> segs == Segments(data, h, i))
    && FitsFile(data, segs) && Loaded(phys, pml4, data, segs) && Quiet(data, segs) && Runnable(phys, pml4)
    && phdr == PhdrAddress(h.phoff, segs)
    && forall j: nat :: j < i ==> HeaderOk(data, h, j)
  }

  /** One program header: checked, and loaded if it is a loadable segment. */
  method LoadHeader(v: Vmm, pml4: nat, data: seq<byte>, h: Header, i: nat, phdr: nat, ghost segs: seq<Segment>)
    returns (r: Option<LoadResult>, phdr': nat, ghost segs': seq<Segment>)
    requires v.Valid() && IsRoot(v.own, pml4) && NoHuge(v.m.phys, pml4)
    requires CheckIdent(data).None? && h == ReadHeader(data) && Sane(data) && i < h.phnum
    requires Progress(v.m.phys, pml4, data, h, i, segs, phdr)
    modifies v, v.m, v.m.bitmap
    ensures v.Valid() && IsRoot(v.own, pml4) && NoHuge(v.m.phys, pml4)
    ensures OnlySpace(old(v.m.phys), old(v.own), old(v.m.free), v.m.phys, v.own, v.m.free, pml4)
    ensures r.None? ==> Progress(v.m.phys, pml4, data, h, i + 1, segs', phdr')
    ensures r.Some? ==> (!HeaderOk(data, h, i) && r.value == Fault(data, h, i)) || OutOfFrames(v.m.free, r.value)
    ensures h.phentsize < PHDR_SIZE ==> r == Some(Fault(data, h, i))
  {
    hide Machine.Valid, Wf, Linked, View, Walk, PageOf, OnlySpace, UserByte, Loaded, Quiet, Covered, ImageByte,
      FromLe, NoHuge,
      CheckIdent, ReadHeader, HeaderInFile, AllInFile, ReadSegment, Segments, PhdrAddress, FitsFile, Sane,
      Overhang, Runnable;
    OnlySpaceSame(v.m.phys, v.own, v.m.free, pml4);
    phdr', segs' := phdr, segs;
    if !HeaderInFile(data, h, i) { return Some(Err(TooSmall)), phdr', segs'; }
    NextHeader(data, h, i);
    if h.phentsize < PHDR_SIZE { return Some(Panicked), phdr', segs'; }
    var s := ReadSegment(data, h, i);
    NextSegment(data, h, i);
    if !Loadable(s) { return None, phdr', segs'; }
    if s.offset + s.filesz > |data| { return Some(Err(TooSmall)), phdr', segs'; }
    NextPhdr(h.phoff, segs, s);
    if phdr == 0 && s.offset <= h.phoff < s.offset + s.filesz { phdr' := s.vaddr + (h.phoff - s.offset); }
    var mr := LoadSegment(v, pml4, s, data, segs);
    RootKept(old(v.m.phys), old(v.own), old(v.m.free), v.m.phys, v.own, v.m.free, pml4);
    if mr.OutOfMemory? { return Some(Err(OomLoadingSegment)), phdr', segs'; }
    if mr.Panic? { return Some(Panicked), phdr', segs'; }
    return None, phdr', segs + [s];
  }

  /**
   Loads a file into an empty space.  On success the space holds the image of the file's
   segments and nothing else; no other space and no kernel frame is touched, whatever happens.
   Unless the frames run out, a file is loaded if and only if it is well-formed, and otherwise its
   first bad header decides how loading ends.  Short headers decide it whatever frames there are.
   */
  method LoadInto(v: Vmm, pml4: nat, data: seq<byte>) returns (r: LoadResult)
    requires v.Valid() && IsRoot(v.own, pml4) && Sane(data)
    requires forall q :: UserPage(q) ==> View(v.m.phys, pml4, q).Absent?
    modifies v, v.m, v.m.bitmap
    ensures v.Valid() && NoHuge(v.m.phys, pml4)
    ensures OnlySpace(old(v.m.phys), old(v.own), old(v.m.free), v.m.phys, v.own, v.m.free, pml4)
    ensures CheckIdent(data).Some? ==> r == Err(CheckIdent(data).value) && v.m.phys == old(v.m.phys)
    ensures r.Ok? ==> CheckIdent(data).None? && FileOk(data, ReadHeader(data))
    ensures CheckIdent(data).None? && FileOk(data, ReadHeader(data)) ==> r.Ok? || OutOfFrames(v.m.free, r)
    ensures CheckIdent(data).None? && !r.Ok? ==>
              OutOfFrames(v.m.free, r) || exists i: nat :: FirstBad(data, ReadHeader(data), i) && r == Fault(data, ReadHeader(data), i)
    ensures CheckIdent(data).None? ==> forall i: nat :: FirstBad(data, ReadHeader(data), i) ==>
              r == Fault(data, ReadHeader(data), i) || OutOfFrames(v.m.free, r)
    ensures CheckIdent(data).None? && ReadHeader(data).phentsize < PHDR_SIZE ==> r == Fault(data, ReadHeader(data), 0)
    ensures r.Ok? ==> CheckIdent(data).None? && LoadedFrom(v.m.phys, pml4, data, ReadHeader(data), r.image)
    ensures r.Ok? ==>
              forall va :: 0 <= va < USER_TOP && Covered(Segments(data, ReadHeader(data), ReadHeader(data).phnum), va) ==>
                && View(v.m.phys, pml4, PageOf(va)).Mapped?
                && var e := View(v.m.phys, pml4, PageOf(va)).entry;
                e.present && e.user && e.writable && !e.nx
  {
    hide Machine.Valid, Wf, Linked, View, Walk, PageOf, OnlySpace, UserByte, Loaded, Quiet, Covered, ImageByte,
      FromLe, NoHuge,
      CheckIdent, ReadHeader, AllInFile, Segments, PhdrAddress, FitsFile, Sane, HeaderOk, Fault, Runnable;
    EmptyLoaded(v.m.phys, pml4, data);
    OnlySpaceSame(v.m.phys, v.own, v.m.free, pml4);
    var bad := CheckIdent(data);
    if bad.Some? { return Err(bad.value); }
    HasHeaders(data);
    var h := ReadHeader(data);
    NoSegments(data, h);
    var phdr := 0;
    ghost var segs: seq<Segment> := [];
    var i := 0;
    while i < h.phnum
      invariant 0 <= i <= h.phnum
      invariant v.Valid() && IsRoot(v.own, pml4) && NoHuge(v.m.phys, pml4)
      invariant OnlySpace(old(v.m.phys), old(v.own), old(v.m.free), v.m.phys, v.own, v.m.free, pml4)
      invariant Progress(v.m.phys, pml4, data, h, i, segs, phdr)
    {
      ghost var p1, o1, f1 := v.m.phys, v.own, v.m.free;
      var stop;
      stop, phdr, segs := LoadHeader(v, pml4, data, h, i, phdr, segs);
      OnlySpaceTransitive(old(v.m.phys), old(v.own), old(v.m.free), p1, o1, f1, v.m.phys, v.own, v.m.free, pml4);
      if stop.Some? {
        assert HeaderOk(data, h, i) || FirstBad(data, h, i);
        return stop.value;
      }
      i := i + 1;
    }
    CoveredRunnable(v.m.phys, pml4, data, segs);
    return Ok(LoadedImage(h.entry, phdr, h.phentsize, h.phnum));
  }

  lemma CoveredRunnable(phys: Memory, pml4: nat, data: seq<byte>, segs: seq<Segment>)
    requires FitsFile(data, segs) && Loaded(phys, pml4, data, segs) && Runnable(phys, pml4)
    ensures forall va :: 0 <= va < USER_TOP && Covered(segs, va) ==>
              View(phys, pml4, PageOf(va)).Mapped? && Rwx(View(phys, pml4, PageOf(va)).entry)
  {
    hide View, PageOf, Covered, ImageByte;
    forall va: nat | va < USER_TOP && Covered(segs, va)
      ensures View(phys, pml4, PageOf(va)).Mapped? && Rwx(View(phys, pml4, PageOf(va)).entry)
    {
      assert UserByte(phys, pml4, va).Some?;
      PageOfUser(va);
    }
  }

  lemma HasHeaders(data: seq<byte>)
    requires CheckIdent(data).None?
    ensures |data| >= 64 && ReadHeader(data).phnum > 0
  {
  }

  lemma NoSegments(data: seq<byte>, h: Header)
    ensures FitsFile(data, []) && Quiet(data, []) && AllInFile(data, h, 0) && PhdrAddress(h.phoff, []) == 0
    ensures h.phentsize >= PHDR_SIZE ==> Segments(data, h, 0) == []
  {
  }

  lemma NextHeader(data: seq<byte>, h: Header, i: nat)
    requires AllInFile(data, h, i) && HeaderInFile(data, h, i)
    ensures AllInFile(data, h, i + 1)
  {
    hide HeaderInFile;
  }

  lemma NextSegment(data: seq<byte>, h: Header, i: nat)
    requires h.phentsize >= PHDR_SIZE && AllInFile(data, h, i) && HeaderInFile(data, h, i) && i < h.phnum
    requires CheckIdent(data).None? && h == ReadHeader(data) && Sane(data)
    ensures AllInFile(data, h, i + 1)
    ensures var s := ReadSegment(data, h, i);
            && Segments(data, h, i + 1) == (if Loadable(s) then Segments(data, h, i) + [s] else Segments(data, h, i))
            && (Loadable(s) ==> s.vaddr + s.memsz <= USER_TOP && s.vaddr + s.filesz <= USER_TOP)
  {
  }

  lemma NextPhdr(phoff: nat, segs: seq<Segment>, s: Segment)
    ensures PhdrAddress(phoff, segs + [s]) ==
            if PhdrAddress(phoff, segs) == 0 && s.offset <= phoff < s.offset + s.filesz then s.vaddr + (phoff - s.offset)
            else PhdrAddress(phoff, segs)
  {
  }

  lemma EmptyLoaded(phys: Memory, pml4: nat, data: seq<byte>)
    requires forall q :: UserPage(q) ==> View(phys, pml4, q).Absent?
    ensures Loaded(phys, pml4, data, []) && Quiet(data, []) && NoHuge(phys, pml4) && Runnable(phys, pml4)
  {
  }

  // ----- The gABI meaning of PT_LOAD -----

  /** Segments whose file part fits their memory part, with disjoint memory ranges. */
  predicate WellSeparated(segs: seq<Segment>) {
    && (forall k :: 0 <= k < |segs| ==> segs[k].filesz <= segs[k].memsz)
    && (forall j, k :: 0 <= j < k < |segs| ==>
          segs[j].vaddr + segs[j].memsz <= segs[k].vaddr || segs[k].vaddr + segs[k].memsz <= segs[j].vaddr)
  }

  /** Every segment reads as its file bytes and then as zeros, even on pages shared with others. */
  lemma {:induction false} SegmentMeaning(data: seq<byte>, segs: seq<Segment>, k: nat, va: nat)
    requires FitsFile(data, segs) && WellSeparated(segs) && k < |segs|
    requires segs[k].vaddr <= va < segs[k].vaddr + segs[k].memsz
    ensures Covered(segs, va)
    ensures ImageByte(data, segs, va) ==
            if va < segs[k].vaddr + segs[k].filesz then data[segs[k].offset + (va - segs[k].vaddr)] else 0
    decreases |segs|
  {
    SegmentCovered(segs, k, va);
    hide Covered;
    var n := |segs| - 1;
    var front := segs[..n];
    assert forall j :: 0 <= j < n ==> front[j] == segs[j];
    if k < n {
      assert !InFile(segs[n], va);
      SegmentMeaning(data, front, k, va);
    } else {
      if !InFile(segs[n], va) { OutsideFile(data, front, va); }
    }
  }

  lemma SegmentCovered(segs: seq<Segment>, k: nat, va: nat)
    requires k < |segs| && segs[k].vaddr <= va < segs[k].vaddr + segs[k].memsz
    ensures Covered(segs, va)
  {
  }

  /** An address in no file part reads as zero. */
  lemma {:induction false} OutsideFile(data: seq<byte>, segs: seq<Segment>, va: nat)
    requires FitsFile(data, segs) && forall k :: 0 <= k < |segs| ==> !InFile(segs[k], va)
    ensures ImageByte(data, segs, va) == 0
    decreases |segs|
  {
    if segs != [] {
      OutsideFile(data, segs[..|segs| - 1], va);
    }
  }

  /** A non-zero program-header address comes from a segment that holds the headers. */
  lemma {:induction false} PhdrSegment(phoff: nat, segs: seq<Segment>) returns (k: nat)
    requires PhdrAddress(phoff, segs) != 0
    ensures k < |segs| && segs[k].offset <= phoff < segs[k].offset + segs[k].filesz
    ensures PhdrAddress(phoff, segs) == segs[k].vaddr + (phoff - segs[k].offset)
    decreases |segs|
  {
    var n := |segs| - 1;
    if PhdrAddress(phoff, segs[..n]) == 0 {
      return n;
    } else {
      k := PhdrSegment(phoff, segs[..n]);
    }
  }

  lemma {:induction false} SegmentsSane(data: seq<byte>, h: Header, n: nat)
    requires CheckIdent(data).None? && Sane(data) && h == ReadHeader(data)
    requires h.phentsize >= PHDR_SIZE && AllInFile(data, h, n) && n <= h.phnum
    ensures forall k :: 0 <= k < |Segments(data, h, n)| ==> Segments(data, h, n)[k].vaddr + Segments(data, h, n)[k].filesz <= USER_TOP
  {
    hide CheckIdent, ReadHeader, ReadSegment, HeaderInFile;
    if n > 0 {
      SegmentsSane(data, h, n - 1);
    }
  }

  /** Every number of the image record fits in a word. */
  lemma ImageSized(data: seq<byte>, h: Header)
    requires CheckIdent(data).None? && Sane(data) && h == ReadHeader(data)
    requires h.phentsize >= PHDR_SIZE && AllInFile(data, h, h.phnum)
    ensures h.entry < U64 && h.phentsize < U64 && h.phnum < U64 && PhdrAddress(h.phoff, Segments(data, h, h.phnum)) < U64
  {
    hide Sane, FromLe, PhdrAddress, Segments, AllInFile;
    U64Range();
    EncodeDecode(data[24..32]);
    EncodeDecode(data[54..56]);
    EncodeDecode(data[56..58]);
    SegmentsSane(data, h, h.phnum);
    var segs := Segments(data, h, h.phnum);
    if PhdrAddress(h.phoff, segs) != 0 {
      var k := PhdrSegment(h.phoff, segs);
    }
  }

  lemma LoadedByte(phys: Memory, pml4: nat, data: seq<byte>, segs: seq<Segment>, k: nat, va: nat)
    requires FitsFile(data, segs) && WellSeparated(segs) && Loaded(phys, pml4, data, segs) && k < |segs|
    requires segs[k].vaddr <= va < segs[k].vaddr + segs[k].memsz <= USER_TOP
    ensures UserByte(phys, pml4, va) ==
            Some(if va < segs[k].vaddr + segs[k].filesz then data[segs[k].offset + (va - segs[k].vaddr)] else 0)
  {
    hide UserByte, ImageByte, Covered;
    SegmentMeaning(data, segs, k, va);
  }

  /**
   The loaded program, read back through its page tables: each byte of each segment, and the
   program headers at the address handed to the program.
   */
  lemma LoadedMeaning(phys: Memory, pml4: nat, data: seq<byte>, segs: seq<Segment>, phoff: nat)
    requires FitsFile(data, segs) && WellSeparated(segs) && Loaded(phys, pml4, data, segs)
    requires forall k :: 0 <= k < |segs| ==> segs[k].vaddr + segs[k].memsz <= USER_TOP
    ensures forall k, va :: 0 <= k < |segs| && segs[k].vaddr <= va < segs[k].vaddr + segs[k].memsz ==>
              UserByte(phys, pml4, va) ==
              Some(if va < segs[k].vaddr + segs[k].filesz then data[segs[k].offset + (va - segs[k].vaddr)] else 0)
    ensures PhdrAddress(phoff, segs) != 0 ==>
              exists k :: 0 <= k < |segs| && segs[k].offset <= phoff < segs[k].offset + segs[k].filesz &&
                forall b :: phoff <= b < segs[k].offset + segs[k].filesz ==>
                  UserByte(phys, pml4, PhdrAddress(phoff, segs) + (b - phoff)) == Some(data[b])
  {
    hide UserByte, Loaded, PhdrAddress;
    forall k, va | 0 <= k < |segs| && segs[k].vaddr <= va < segs[k].vaddr + segs[k].memsz
      ensures UserByte(phys, pml4, va) ==
              Some(if va < segs[k].vaddr + segs[k].filesz then data[segs[k].offset + (va - segs[k].vaddr)] else 0)
    {
      LoadedByte(phys, pml4, data, segs, k, va);
    }
    if PhdrAddress(phoff, segs) != 0 {
      var k := PhdrSegment(phoff, segs);
      var phdr := PhdrAddress(phoff, segs);
      forall b | phoff <= b < segs[k].offset + segs[k].filesz
        ensures UserByte(phys, pml4, phdr + (b - phoff)) == Some(data[b])
      {
        LoadedByte(phys, pml4, data, segs, k, phdr + (b - phoff));
      }
    }
  }

  // ----- Files that are refused in unexpected ways -----

  /** Byte `i` of an x86-64 executable with `phnum` program headers of `phentsize` bytes right behind its header. */
  function StartByte(i: nat, phentsize: byte, phnum: byte): byte {
    if i == 0 then 0x7F else if i == 1 then 0x45 else if i == 2 then 0x4C else if i == 3 then 0x46
    else if i == 4 then 2 else if i == 5 then 1 else if i == 16 then 2 else if i == 18 then 62 else if i == 32 then 64
    else if i == 54 then phentsize else if i == 56 then phnum else 0
  }

  lemma {:induction false} ZerosLe(b: seq<byte>)
    requires forall k :: 0 <= k < |b| ==> b[k] == 0
    ensures FromLe(b) == 0
  {
    if b != [] { ZerosLe(b[1..]); }
  }

  /** A number of two bytes, however wide its field is. */
  lemma TwoBytes(data: seq<byte>, at: nat, n: nat)
    requires 2 <= n && at + n <= |data| && forall k :: at + 2 <= k < at + n ==> data[k] == 0
    ensures ReadLe(data, at, n) == data[at] as int + 256 * (data[at + 1] as int)
  {
    var b := data[at..at + n];
    ZerosLe(b[1..][1..]);
    assert FromLe(b[1..]) == data[at + 1];
  }

  lemma StartHeader(data: seq<byte>, phentsize: byte, phnum: byte)
    requires |data| >= 64 && phnum != 0 && forall i :: 0 <= i < 64 ==> data[i] == StartByte(i, phentsize, phnum)
    ensures CheckIdent(data).None? && ReadHeader(data) == Header(0, 64, phentsize, phnum)
  {
    hide FromLe;
    assert data[0..4] == [0x7F, 0x45, 0x4C, 0x46];
    TwoBytes(data, 16, 2);
    TwoBytes(data, 18, 2);
    TwoBytes(data, 24, 8);
    TwoBytes(data, 32, 8);
    TwoBytes(data, 54, 2);
    TwoBytes(data, 56, 2);
  }

  /** A file with two program headers of 32 bytes of which it holds one: the loader panics. */
  method ShortHeaders(v: Vmm, pml4: nat) returns (r: LoadResult)
    requires v.Valid() && IsRoot(v.own, pml4) && forall q :: UserPage(q) ==> View(v.m.phys, pml4, q).Absent?
    modifies v, v.m, v.m.bitmap
    ensures r == Panicked
  {
    hide Vmm.Valid, View, UserPage, CheckIdent, ReadHeader, Loaded, NoHuge, OnlySpace;
    var data := seq(96, i requires 0 <= i < 96 => StartByte(i, 32, 2));
    StartHeader(data, 32, 2);
    r := LoadInto(v, pml4, data);
  }

  /** One segment at 4096 with 4097 bytes in the file and one in memory. */
  function OverhangByte(i: nat): byte {
    if i == 64 then 1 else if i == 81 || i == 97 then 0x10 else if i == 96 || i == 104 then 1 else StartByte(i, 56, 1)
  }

  lemma OverhangFile(data: seq<byte>)
    requires |data| == 4200 && forall i :: 0 <= i < 4200 ==> data[i] == OverhangByte(i)
    ensures CheckIdent(data).None? && Sane(data) && FirstBad(data, ReadHeader(data), 0)
    ensures Fault(data, ReadHeader(data), 0) == Err(OomLoadingSegment)
  {
    hide FromLe, CheckIdent;
    StartHeader(data, 56, 1);
    TwoBytes(data, 64, 4);
    TwoBytes(data, 72, 8);
    TwoBytes(data, 80, 8);
    TwoBytes(data, 96, 8);
    TwoBytes(data, 104, 8);
    var h, s := Header(0, 64, 56, 1), Segment(1, 0, 4096, 4097, 1);
    assert ReadSegment(data, h, 0) == s;
    assert InFile(s, 8192) && !OnPages(s, 8192);
    CoveredSnoc([], s, 8192);
    assert Overhang([], s);
  }

  /** While frames last the loader calls that out of memory. */
  method OverhangingFile(v: Vmm, pml4: nat) returns (r: LoadResult)
    requires v.Valid() && IsRoot(v.own, pml4) && forall q :: UserPage(q) ==> View(v.m.phys, pml4, q).Absent?
    modifies v, v.m, v.m.bitmap
    ensures v.m.free != {} ==> r == Err(OomLoadingSegment)
  {
    hide Vmm.Valid, View, UserPage, CheckIdent, ReadHeader, Loaded, NoHuge, OnlySpace, FirstBad, Fault, Sane;
    var data := seq(4200, i requires 0 <= i < 4200 => OverhangByte(i));
    OverhangFile(data);
    r := LoadInto(v, pml4, data);
  }
}
