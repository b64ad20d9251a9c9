/**
 The kernel heap (kernel/src/mem/heap.rs): eight classes of one-page slabs whose free slots are
 linked through their own first word, and whole pages for larger blocks.
 */
module Heap {
  import opened Physical
  import opened Pmm

  const PHYSICAL_OFFSET: nat := 0xFFFF_8000_0000_0000
  const NUM_CLASSES: nat := 8
  const MAX_SLABS: nat := 64

  // ----- Size classes -----

  function Size(ci: nat): nat
    requires ci < NUM_CLASSES
  {
    if ci == 0 then 16 else if ci == 1 then 32 else if ci == 2 then 64 else if ci == 3 then 128
    else if ci == 4 then 256 else if ci == 5 then 512 else if ci == 6 then 1024 else 2048
  }

  function Capacity(ci: nat): nat
    requires ci < NUM_CLASSES
  {
    PAGE_SIZE / Size(ci)
  }

  /** The smallest class that fits, if any does. */
  function ClassFor(size: nat): (r: Option<nat>)
    ensures r.Some? ==> r.value < NUM_CLASSES && size <= Size(r.value) && forall c: nat :: c < r.value ==> Size(c) < size
    ensures r.None? ==> size > 2048
  {
    ClassFrom(size, 0)
  }

  function ClassFrom(size: nat, ci: nat): (r: Option<nat>)
    requires ci <= NUM_CLASSES
    requires forall c: nat :: c < ci ==> Size(c) < size
    ensures r.Some? ==> r.value < NUM_CLASSES && size <= Size(r.value) && forall c: nat :: c < r.value ==> Size(c) < size
    ensures r.None? ==> size > 2048
    decreases NUM_CLASSES - ci
  {
    if ci == NUM_CLASSES then (assert Size(7) < size; None)
    else if size <= Size(ci) then Some(ci)
    else ClassFrom(size, ci + 1)
  }

  datatype Layout = Layout(size: nat, align: nat)

  function Max(a: nat, b: nat): nat { if a < b then b else a }

  /** The number of bytes a request is rounded up to. */
  function Request(l: Layout): nat { Max(Max(l.size, l.align), 8) }

  /** The least number of pages that hold `size` bytes. */
  function PagesFor(size: nat): (n: nat)
    ensures size <= n * PAGE_SIZE < size + PAGE_SIZE
  {
    (size + PAGE_SIZE - 1) / PAGE_SIZE
  }

  /** Bytes a block of this layout occupies. */
  function Extent(l: Layout): nat {
    match ClassFor(Request(l))
    case Some(ci) => Size(ci)
    case None => PagesFor(Request(l)) * PAGE_SIZE
  }

  // ----- Addresses -----

  /** Virtual address of slot `i` of a slab page. */
  function Addr(page: nat, ci: nat, i: nat): nat
    requires ci < NUM_CLASSES
  {
    PHYSICAL_OFFSET + page * PAGE_SIZE + i * Size(ci)
  }

  /** Index of the first word of slot `i`. */
  function WordIndex(ci: nat, i: nat): nat
    requires ci < NUM_CLASSES
  {
    i * (Size(ci) / 8)
  }

  function FrameOf(addr: nat): nat
    requires addr >= PHYSICAL_OFFSET
  {
    (addr - PHYSICAL_OFFSET) / PAGE_SIZE
  }

  function WordInFrame(addr: nat): nat
    requires addr >= PHYSICAL_OFFSET
  {
    (addr - PHYSICAL_OFFSET) % PAGE_SIZE / 8
  }

  /** A slot address determines its page and its slot. */
  lemma AddrParts(page: nat, ci: nat, i: nat)
    requires ci < NUM_CLASSES && i < Capacity(ci)
    ensures FrameOf(Addr(page, ci, i)) == page
    ensures WordInFrame(Addr(page, ci, i)) == WordIndex(ci, i)
    ensures WordIndex(ci, i) + Size(ci) / 8 <= ENTRIES
    ensures (Addr(page, ci, i) - PHYSICAL_OFFSET) % PAGE_SIZE == i * Size(ci)
    ensures i * Size(ci) + Size(ci) <= PAGE_SIZE
  {
    var off := i * Size(ci);
    assert 0 <= off && off + Size(ci) <= PAGE_SIZE && off / 8 == WordIndex(ci, i) by {
      if ci == 0 {} else if ci == 1 {} else if ci == 2 {} else if ci == 3 {}
      else if ci == 4 {} else if ci == 5 {} else if ci == 6 {} else {}
    }
    assert (page * PAGE_SIZE + off) / PAGE_SIZE == page;
  }

  /** Distinct slots occupy disjoint words. */
  lemma SlotsDisjoint(ci: nat, i: nat, j: nat)
    requires ci < NUM_CLASSES && i < j
    ensures WordIndex(ci, i) + Size(ci) / 8 <= WordIndex(ci, j)
    ensures i * Size(ci) + Size(ci) <= j * Size(ci)
    ensures Size(ci) / 8 >= 2
  {
    if ci == 0 {} else if ci == 1 {} else if ci == 2 {} else if ci == 3 {}
    else if ci == 4 {} else if ci == 5 {} else if ci == 6 {} else {}
  }

  // ----- Slabs -----

  datatype Header = Header(page: nat, freeHead: nat, freeCount: nat, capacity: nat)

  const EMPTY_HEADER := Header(0, 0, 0, 0)

  predicate IsHeapPage(fr: Frame) { fr.Blank? || fr.Slab? }

  /** The address of the `j`-th free slot, or 0 at the end of the list. */
  function Link(page: nat, ci: nat, chain: seq<nat>, j: nat): nat
    requires ci < NUM_CLASSES
  {
    if j < |chain| then Addr(page, ci, chain[j]) else 0
  }

  ghost predicate Distinct(chain: seq<nat>) {
    forall i, j :: 0 <= i < j < |chain| ==> chain[i] != chain[j]
  }

  /** The free list in the page is exactly `chain`: it starts at `head`, follows it and ends. */
  ghost predicate Threaded(fr: Frame, page: nat, head: nat, ci: nat, chain: seq<nat>)
    requires ci < NUM_CLASSES && IsHeapPage(fr)
  {
    && head == Link(page, ci, chain, 0)
    && (forall j :: 0 <= j < |chain| ==> chain[j] < Capacity(ci))
    && Distinct(chain)
    && (forall j :: 0 <= j < |chain| ==>
          WordIndex(ci, chain[j]) < ENTRIES && WordOf(fr, WordIndex(ci, chain[j])) == Link(page, ci, chain, j + 1))
  }

  /** A slab header and its page agree with the list of free slots `chain`. */
  ghost predicate SlabOk(phys: Memory, free: set<nat>, h: Header, chain: seq<nat>, ci: nat)
    requires ci < NUM_CLASSES
  {
    if h.page == 0 then h == EMPTY_HEADER && chain == []
    else
      && h.page < MAX_FRAMES && h.page !in free && IsHeapPage(phys[h.page])
      && h.capacity == Capacity(ci) && h.freeCount == |chain| <= Capacity(ci)
      && Threaded(phys[h.page], h.page, h.freeHead, ci, chain)
  }

  /** Taking the first free slot off the list and zeroing it. */
  lemma PopSlot(fr: Frame, fr': Frame, page: nat, head: nat, ci: nat, chain: seq<nat>)
    requires ci < NUM_CLASSES && IsHeapPage(fr) && IsHeapPage(fr') && chain != []
    requires Threaded(fr, page, head, ci, chain)
    requires forall w: nat :: w < ENTRIES ==>
               WordOf(fr', w) == if WordIndex(ci, chain[0]) <= w < WordIndex(ci, chain[0]) + Size(ci) / 8 then 0 else WordOf(fr, w)
    ensures Threaded(fr', page, WordOf(fr, WordIndex(ci, chain[0])), ci, chain[1..])
  {
    var rest := chain[1..];
    forall j | 0 <= j < |rest|
      ensures WordOf(fr', WordIndex(ci, rest[j])) == Link(page, ci, rest, j + 1)
    {
      assert rest[j] == chain[j + 1];
      if chain[0] < rest[j] { SlotsDisjoint(ci, chain[0], rest[j]); } else { SlotsDisjoint(ci, rest[j], chain[0]); }
    }
  }

  /** Putting a slot that is not on the list back at its front. */
  lemma PushSlot(fr: Frame, page: nat, head: nat, ci: nat, chain: seq<nat>, i: nat)
    requires ci < NUM_CLASSES && IsHeapPage(fr) && i < Capacity(ci) && i !in chain
    requires Threaded(fr, page, head, ci, chain)
    ensures WordIndex(ci, i) < ENTRIES
    ensures Threaded(WithWord(fr, WordIndex(ci, i), head), page, Addr(page, ci, i), ci, [i] + chain)
  {
    hide Capacity, Addr, WordIndex, Size;
    AddrParts(page, ci, i);
    SlotsDisjoint(ci, i, i + 1);
    var more := [i] + chain;
    var fr' := WithWord(fr, WordIndex(ci, i), head);
    forall j | 0 <= j < |more|
      ensures more[j] < Capacity(ci)
      ensures WordIndex(ci, more[j]) < ENTRIES && WordOf(fr', WordIndex(ci, more[j])) == Link(page, ci, more, j + 1)
    {
      LinkShift(page, ci, chain, i, j);
      if j > 0 {
        assert more[j] == chain[j - 1];
        SlotWordsDiffer(ci, i, more[j]);
      }
    }
    DistinctCons(i, chain);
  }

  lemma LinkShift(page: nat, ci: nat, chain: seq<nat>, i: nat, j: nat)
    requires ci < NUM_CLASSES
    ensures Link(page, ci, [i] + chain, j + 1) == Link(page, ci, chain, j)
  {
    hide Addr;
  }

  lemma SlotWordsDiffer(ci: nat, i: nat, j: nat)
    requires ci < NUM_CLASSES && i != j
    ensures WordIndex(ci, i) != WordIndex(ci, j)
  {
  }

  lemma DistinctCons(i: nat, chain: seq<nat>)
    requires Distinct(chain) && i !in chain
    ensures Distinct([i] + chain)
  {
  }

  /** A write into a slot that is not on the list leaves the list alone. */
  lemma WriteLive(fr: Frame, page: nat, head: nat, ci: nat, chain: seq<nat>, i: nat, w: nat, value: nat)
    requires ci < NUM_CLASSES && IsHeapPage(fr) && i < Capacity(ci) && i !in chain
    requires Threaded(fr, page, head, ci, chain)
    requires WordIndex(ci, i) <= w < WordIndex(ci, i) + Size(ci) / 8 && w < ENTRIES
    ensures Threaded(WithWord(fr, w, value), page, head, ci, chain)
  {
    hide Capacity, Addr, WordIndex, Size, Link;
    var fr' := WithWord(fr, w, value);
    forall j | 0 <= j < |chain|
      ensures WordIndex(ci, chain[j]) < ENTRIES && WordOf(fr', WordIndex(ci, chain[j])) == WordOf(fr, WordIndex(ci, chain[j]))
    {
      if i < chain[j] { SlotsDisjoint(ci, i, chain[j]); } else { SlotsDisjoint(ci, chain[j], i); }
    }
  }

  // ----- The whole heap -----

  /** Where a live block is. */
  datatype Place = Slot(ci: nat, k: nat, i: nat) | Pages(first: nat, count: nat)

  /** What a frame of the heap is used for. */
  datatype PageUse = SlabPage(ci: nat, k: nat) | BlockPage(first: nat)

  datatype State = State(phys: Memory, free: set<nat>, slabs: seq<seq<Header>>,
                         chains: seq<seq<seq<nat>>>, live: map<nat, Place>, owner: map<nat, PageUse>)

  function BlockAddr(first: nat): nat { PHYSICAL_OFFSET + first * PAGE_SIZE }

  ghost predicate Shape(s: State) {
    && |s.slabs| == NUM_CLASSES && |s.chains| == NUM_CLASSES
    && (forall c :: 0 <= c < NUM_CLASSES ==> |s.slabs[c]| == MAX_SLABS)
    && (forall c :: 0 <= c < NUM_CLASSES ==> |s.chains[c]| == MAX_SLABS)
  }

  ghost predicate InTable(ci: nat, k: nat) { ci < NUM_CLASSES && k < MAX_SLABS }

  /** Every slab is consistent and knows its page; only `full` may have no live slot. */
  ghost predicate SlabsOk(s: State, full: Option<(nat, nat)>)
    requires Shape(s)
  {
    forall ci: nat, k: nat :: InTable(ci, k) ==>
      && SlabOk(s.phys, s.free, s.slabs[ci][k], s.chains[ci][k], ci)
      && (s.slabs[ci][k].page != 0 ==>
            && s.slabs[ci][k].page in s.owner && s.owner[s.slabs[ci][k].page] == SlabPage(ci, k)
            && (|s.chains[ci][k]| < Capacity(ci) || full == Some((ci, k))))
  }

  /** Every frame of the heap is a slab page or part of a live block. */
  ghost predicate OwnersOk(s: State)
    requires Shape(s)
  {
    forall f :: f in s.owner ==>
      && 0 < f < MAX_FRAMES && f !in s.free && IsHeapPage(s.phys[f])
      && match s.owner[f]
         case SlabPage(ci, k) => InTable(ci, k) && s.slabs[ci][k].page == f
         case BlockPage(first) =>
           && BlockAddr(first) in s.live && s.live[BlockAddr(first)].Pages?
           && s.live[BlockAddr(first)].first == first <= f < first + s.live[BlockAddr(first)].count
  }

  /** Every live block is a slot off the free list, or a run of pages. */
  ghost predicate LiveOk(s: State)
    requires Shape(s)
  {
    forall a :: a in s.live ==>
      match s.live[a]
      case Slot(ci, k, i) =>
        && InTable(ci, k) && s.slabs[ci][k].page != 0 && i < Capacity(ci) && i !in s.chains[ci][k]
        && a == Addr(s.slabs[ci][k].page, ci, i)
      case Pages(first, count) =>
        && 0 < first && 0 < count && first + count <= MAX_FRAMES && a == BlockAddr(first)
        && (forall f :: first <= f < first + count ==> f in s.owner && s.owner[f] == BlockPage(first))
  }

  /** Free and live slots partition each slab: what is not on the list is live. */
  ghost predicate Partition(s: State)
    requires Shape(s)
  {
    forall ci: nat, k: nat, i: nat :: InTable(ci, k) && s.slabs[ci][k].page != 0 && i < Capacity(ci) && i !in s.chains[ci][k] ==>
      Addr(s.slabs[ci][k].page, ci, i) in s.live && s.live[Addr(s.slabs[ci][k].page, ci, i)] == Slot(ci, k, i)
  }

  ghost predicate HeapOk(s: State, full: Option<(nat, nat)>) {
    Shape(s) && SlabsOk(s, full) && OwnersOk(s) && LiveOk(s) && Partition(s)
  }

  /** The two-dimensional tables after one entry has been replaced. */
  function Replace<T>(t: seq<seq<T>>, ci: nat, k: nat, x: T): (r: seq<seq<T>>)
    requires ci < |t| && k < |t[ci]|
    ensures |r| == |t| && forall c :: 0 <= c < |t| ==> |r[c]| == |t[c]|
    ensures forall c, l :: 0 <= c < |t| && 0 <= l < |t[c]| ==> r[c][l] == if c == ci && l == k then x else t[c][l]
  {
    t[ci := t[ci][k := x]]
  }

  /** Slots of one slab have different addresses; slots of different pages too. */
  lemma AddrUnique(page: nat, ci: nat, i: nat, page': nat, ci': nat, i': nat)
    requires ci < NUM_CLASSES && ci' < NUM_CLASSES && i < Capacity(ci) && i' < Capacity(ci')
    requires Addr(page, ci, i) == Addr(page', ci', i')
    ensures page == page' && (ci == ci' ==> i == i')
  {
    AddrParts(page, ci, i);
    AddrParts(page', ci', i');
    if ci == ci' && i < i' { SlotsDisjoint(ci, i, i'); }
    if ci == ci' && i' < i { SlotsDisjoint(ci, i', i); }
  }

  /** The page in which a live block starts belongs to it. */
  lemma LiveFrame(s: State, full: Option<(nat, nat)>, a: nat)
    requires HeapOk(s, full) && a in s.live
    ensures a >= PHYSICAL_OFFSET && FrameOf(a) in s.owner
    ensures match s.live[a]
            case Slot(ci, k, i) => s.owner[FrameOf(a)] == SlabPage(ci, k) && FrameOf(a) == s.slabs[ci][k].page
            case Pages(first, count) => s.owner[FrameOf(a)] == BlockPage(first) && FrameOf(a) == first
  {
    match s.live[a]
    case Slot(ci, k, i) => AddrParts(s.slabs[ci][k].page, ci, i);
    case Pages(first, count) => assert FrameOf(a) == first;
  }

  // ----- Transitions -----

  ghost predicate InSlab(p: Place, ci: nat, k: nat) { p.Slot? && p.ci == ci && p.k == k }

  /** `t` differs from `s` only in slab (ci, k): its header, free list, page contents and live slots. */
  ghost predicate SlabChange(s: State, t: State, ci: nat, k: nat) {
    && Shape(s) && Shape(t) && InTable(ci, k)
    && t.free == s.free && t.owner == s.owner
    && t.slabs[ci][k].page == s.slabs[ci][k].page != 0
    && (forall c: nat, l: nat :: InTable(c, l) && !(c == ci && l == k) ==>
          t.slabs[c][l] == s.slabs[c][l] && t.chains[c][l] == s.chains[c][l])
    && (forall f :: 0 <= f < MAX_FRAMES && f != s.slabs[ci][k].page ==> t.phys[f] == s.phys[f])
    && s.slabs[ci][k].page < MAX_FRAMES && IsHeapPage(t.phys[s.slabs[ci][k].page])
    && (forall a :: a in s.live && !InSlab(s.live[a], ci, k) ==> a in t.live && t.live[a] == s.live[a])
    && (forall a :: a in t.live ==>
          if InSlab(t.live[a], ci, k)
          then t.live[a].i < Capacity(ci) && t.live[a].i !in t.chains[ci][k] && a == Addr(t.slabs[ci][k].page, ci, t.live[a].i)
          else a in s.live && t.live[a] == s.live[a])
    && (forall i: nat :: i < Capacity(ci) && i !in t.chains[ci][k] ==>
          Addr(t.slabs[ci][k].page, ci, i) in t.live && t.live[Addr(t.slabs[ci][k].page, ci, i)] == Slot(ci, k, i))
  }

  /** Such a change keeps the heap consistent if the slab itself is. */
  lemma SlabChangeOk(s: State, full: Option<(nat, nat)>, t: State, full': Option<(nat, nat)>, ci: nat, k: nat)
    requires HeapOk(s, full) && SlabChange(s, t, ci, k)
    requires full.None? || full == Some((ci, k))
    requires SlabOk(t.phys, t.free, t.slabs[ci][k], t.chains[ci][k], ci)
    requires |t.chains[ci][k]| < Capacity(ci) || full' == Some((ci, k))
    ensures HeapOk(t, full')
  {
    ChangeSlabs(s, full, t, full', ci, k);
    ChangeOwners(s, t, ci, k);
    ChangeLive(s, t, ci, k);
    ChangePartition(s, t, ci, k);
    hide SlabsOk, OwnersOk, LiveOk, Partition, SlabChange;
  }

  lemma ChangeSlabs(s: State, full: Option<(nat, nat)>, t: State, full': Option<(nat, nat)>, ci: nat, k: nat)
    requires HeapOk(s, full) && SlabChange(s, t, ci, k)
    requires full.None? || full == Some((ci, k))
    requires SlabOk(t.phys, t.free, t.slabs[ci][k], t.chains[ci][k], ci)
    requires |t.chains[ci][k]| < Capacity(ci) || full' == Some((ci, k))
    ensures SlabsOk(t, full')
  {
    OtherSlabs(s, full, t, ci, k);
    hide SlabOk, OwnersOk, LiveOk, Partition, Addr, Capacity;
  }

  lemma ChangeOwners(s: State, t: State, ci: nat, k: nat)
    requires Shape(s) && OwnersOk(s) && SlabChange(s, t, ci, k)
    ensures OwnersOk(t)
  {
  }

  lemma ChangeLive(s: State, t: State, ci: nat, k: nat)
    requires Shape(s) && LiveOk(s) && SlabChange(s, t, ci, k)
    ensures LiveOk(t)
  {
  }

  lemma ChangePartition(s: State, t: State, ci: nat, k: nat)
    requires Shape(s) && Partition(s) && SlabChange(s, t, ci, k)
    ensures Partition(t)
  {
  }

  /** Taking the first free slot of slab (ci, k). */
  lemma PopOk(s: State, full: Option<(nat, nat)>, t: State, ci: nat, k: nat)
    requires HeapOk(s, full) && InTable(ci, k) && (full.None? || full == Some((ci, k)))
    requires s.slabs[ci][k].page != 0 && s.chains[ci][k] != [] && Shape(t)
    requires var hd := s.slabs[ci][k];
             var i := s.chains[ci][k][0];
             && hd.page < MAX_FRAMES && IsHeapPage(s.phys[hd.page]) && WordIndex(ci, i) < ENTRIES
             && IsHeapPage(t.phys[hd.page])
             && (forall w: nat :: w < ENTRIES ==>
                   WordOf(t.phys[hd.page], w) ==
                   if WordIndex(ci, i) <= w < WordIndex(ci, i) + Size(ci) / 8 then 0 else WordOf(s.phys[hd.page], w))
             && (forall f :: 0 <= f < MAX_FRAMES && f != hd.page ==> t.phys[f] == s.phys[f])
             && t.free == s.free && t.owner == s.owner
             && hd.freeCount > 0
             && t.slabs == Replace(s.slabs, ci, k, hd.(freeHead := WordOf(s.phys[hd.page], WordIndex(ci, i)), freeCount := hd.freeCount - 1))
             && t.chains == Replace(s.chains, ci, k, s.chains[ci][k][1..])
             && t.live == s.live[Addr(hd.page, ci, i) := Slot(ci, k, i)]
    ensures Addr(s.slabs[ci][k].page, ci, s.chains[ci][k][0]) !in s.live
    ensures HeapOk(t, None)
  {
    hide Threaded, Capacity, Addr, WordIndex, Size, SlabsOk, OwnersOk, LiveOk, Partition;
    var hd := s.slabs[ci][k];
    var chain := s.chains[ci][k];
    var i := chain[0];
    var addr := Addr(hd.page, ci, i);
    ChainHead(s, full, ci, k);
    SlabLive(s, full, ci, k);
    FreeNotLive(s, full, ci, k, i);
    PopSlot(s.phys[hd.page], t.phys[hd.page], hd.page, hd.freeHead, ci, chain);
    forall j: nat | j < Capacity(ci) && j !in t.chains[ci][k]
      ensures Addr(hd.page, ci, j) in t.live && t.live[Addr(hd.page, ci, j)] == Slot(ci, k, j)
    {
      if j != i { assert j !in chain; }
    }
    assert SlabChange(s, t, ci, k);
    SlabChangeOk(s, full, t, None, ci, k);
  }

  /** The live blocks of a slab are its slots off the free list. */
  lemma SlabLive(s: State, full: Option<(nat, nat)>, ci: nat, k: nat)
    requires HeapOk(s, full) && InTable(ci, k) && s.slabs[ci][k].page != 0
    ensures forall a :: a in s.live && InSlab(s.live[a], ci, k) ==>
              s.live[a].i < Capacity(ci) && s.live[a].i !in s.chains[ci][k] && a == Addr(s.slabs[ci][k].page, ci, s.live[a].i)
    ensures forall i: nat :: i < Capacity(ci) && i !in s.chains[ci][k] ==>
              Addr(s.slabs[ci][k].page, ci, i) in s.live && s.live[Addr(s.slabs[ci][k].page, ci, i)] == Slot(ci, k, i)
  {
    hide Addr, Capacity, SlabOk;
  }

  /** The address of a free slot is not live. */
  lemma FreeNotLive(s: State, full: Option<(nat, nat)>, ci: nat, k: nat, i: nat)
    requires HeapOk(s, full) && InTable(ci, k) && s.slabs[ci][k].page != 0
    requires i in s.chains[ci][k] && i < Capacity(ci)
    ensures Addr(s.slabs[ci][k].page, ci, i) !in s.live
  {
    hide Threaded;
    var addr := Addr(s.slabs[ci][k].page, ci, i);
    AddrParts(s.slabs[ci][k].page, ci, i);
    if addr in s.live {
      LiveFrame(s, full, addr);
      AddrUnique(s.slabs[ci][k].page, ci, i, s.slabs[ci][k].page, ci, s.live[addr].i);
    }
  }

  lemma ChainHead(s: State, full: Option<(nat, nat)>, ci: nat, k: nat)
    requires HeapOk(s, full) && InTable(ci, k) && s.slabs[ci][k].page != 0
    ensures var hd := s.slabs[ci][k];
            var chain := s.chains[ci][k];
            && hd.page < MAX_FRAMES && IsHeapPage(s.phys[hd.page]) && hd.page !in s.free
            && hd.page in s.owner && s.owner[hd.page] == SlabPage(ci, k)
            && Threaded(s.phys[hd.page], hd.page, hd.freeHead, ci, chain)
            && hd.capacity == Capacity(ci) && hd.freeCount == |chain| <= Capacity(ci)
            && (full != Some((ci, k)) ==> |chain| < Capacity(ci))
            && (chain != [] ==> chain[0] < Capacity(ci) && chain[0] !in chain[1..] && hd.freeHead == Addr(hd.page, ci, chain[0]))
  {
  }

  /** Slabs other than (ci, k) do not notice a change of its page and header. */
  lemma OtherSlabs(s: State, full: Option<(nat, nat)>, t: State, ci: nat, k: nat)
    requires HeapOk(s, full) && Shape(t) && InTable(ci, k) && s.slabs[ci][k].page != 0
    requires forall c: nat, l: nat :: InTable(c, l) && !(c == ci && l == k) ==>
               t.slabs[c][l] == s.slabs[c][l] && t.chains[c][l] == s.chains[c][l]
    requires forall f :: 0 <= f < MAX_FRAMES && f != s.slabs[ci][k].page ==> t.phys[f] == s.phys[f]
    requires forall f :: f in t.free ==> f in s.free || f == s.slabs[ci][k].page
    ensures forall c: nat, l: nat :: InTable(c, l) && !(c == ci && l == k) ==>
              SlabOk(t.phys, t.free, t.slabs[c][l], t.chains[c][l], c)
  {
  }

  /** Returning a live slot to its slab, which may now be completely free. */
  lemma PushOk(s: State, t: State, ci: nat, k: nat, i: nat)
    requires HeapOk(s, None) && InTable(ci, k) && s.slabs[ci][k].page != 0 && Shape(t)
    requires i < Capacity(ci) && i !in s.chains[ci][k]
    requires var hd := s.slabs[ci][k];
             && hd.page < MAX_FRAMES && IsHeapPage(s.phys[hd.page]) && WordIndex(ci, i) < ENTRIES
             && t.phys == s.phys[hd.page := WithWord(s.phys[hd.page], WordIndex(ci, i), hd.freeHead)]
             && t.free == s.free && t.owner == s.owner
             && t.slabs == Replace(s.slabs, ci, k, hd.(freeHead := Addr(hd.page, ci, i), freeCount := hd.freeCount + 1))
             && t.chains == Replace(s.chains, ci, k, [i] + s.chains[ci][k])
             && t.live == s.live - {Addr(hd.page, ci, i)}
    ensures HeapOk(t, Some((ci, k)))
  {
    hide Threaded, Capacity, Addr, WordIndex, Size, SlabsOk, OwnersOk, LiveOk, Partition;
    var hd := s.slabs[ci][k];
    var chain := s.chains[ci][k];
    ChainHead(s, None, ci, k);
    SlabLive(s, None, ci, k);
    PushSlot(s.phys[hd.page], hd.page, hd.freeHead, ci, chain, i);
    forall j: nat | j < Capacity(ci) && j !in t.chains[ci][k]
      ensures Addr(hd.page, ci, j) in t.live && t.live[Addr(hd.page, ci, j)] == Slot(ci, k, j)
    {
      assert j !in chain && j != i;
    }
    SlabChangeOk(s, None, t, Some((ci, k)), ci, k);
  }

  /** A client's write into a live slot. */
  lemma WriteOk(s: State, t: State, ci: nat, k: nat, i: nat, w: nat, value: nat)
    requires HeapOk(s, None) && InTable(ci, k) && s.slabs[ci][k].page != 0
    requires i < Capacity(ci) && i !in s.chains[ci][k]
    requires var page := s.slabs[ci][k].page;
             && page < MAX_FRAMES && IsHeapPage(s.phys[page]) && w < ENTRIES
             && WordIndex(ci, i) <= w < WordIndex(ci, i) + Size(ci) / 8
             && t == s.(phys := s.phys[page := WithWord(s.phys[page], w, value)])
    ensures HeapOk(t, None)
  {
    hide Threaded, Capacity, Addr, WordIndex, Size, SlabsOk, OwnersOk, LiveOk, Partition;
    var hd := s.slabs[ci][k];
    ChainHead(s, None, ci, k);
    SlabLive(s, None, ci, k);
    WriteLive(s.phys[hd.page], hd.page, hd.freeHead, ci, s.chains[ci][k], i, w, value);
    SlabChangeOk(s, None, t, None, ci, k);
  }

  /** `t` differs from `s` in slab (ci, k), which appears or disappears, and in the free set. */
  ghost predicate PageMoves(s: State, t: State, ci: nat, k: nat) {
    && Shape(s) && Shape(t) && InTable(ci, k) && t.live == s.live
    && (forall c: nat, l: nat :: InTable(c, l) && !(c == ci && l == k) ==>
          t.slabs[c][l] == s.slabs[c][l] && t.chains[c][l] == s.chains[c][l])
  }

  /** A fresh page with all its slots on the free list becomes slab (ci, k). */
  lemma NewSlabOk(s: State, t: State, ci: nat, k: nat, page: nat)
    requires HeapOk(s, None) && PageMoves(s, t, ci, k) && s.slabs[ci][k].page == 0
    requires 0 < page < MAX_FRAMES && page in s.free && t.free == s.free - {page}
    requires t.owner == s.owner[page := SlabPage(ci, k)]
    requires forall f :: 0 <= f < MAX_FRAMES && f != page ==> t.phys[f] == s.phys[f]
    requires t.slabs[ci][k].page == page && SlabOk(t.phys, t.free, t.slabs[ci][k], t.chains[ci][k], ci)
    requires forall i: nat :: i < Capacity(ci) ==> i in t.chains[ci][k]
    ensures HeapOk(t, Some((ci, k)))
  {
    hide Threaded, Capacity, Addr;
    assert page !in s.owner;
    NewSlabSlabs(s, t, ci, k, page);
    NewSlabOwners(s, t, ci, k, page);
    NewSlabLive(s, t, ci, k, page);
    NewSlabPartition(s, t, ci, k);
  }

  lemma NewSlabSlabs(s: State, t: State, ci: nat, k: nat, page: nat)
    requires Shape(s) && SlabsOk(s, None) && PageMoves(s, t, ci, k)
    requires page !in s.owner && t.free == s.free - {page} && t.owner == s.owner[page := SlabPage(ci, k)]
    requires forall f :: 0 <= f < MAX_FRAMES && f != page ==> t.phys[f] == s.phys[f]
    requires t.slabs[ci][k].page == page && SlabOk(t.phys, t.free, t.slabs[ci][k], t.chains[ci][k], ci)
    ensures SlabsOk(t, Some((ci, k)))
  {
  }

  lemma NewSlabOwners(s: State, t: State, ci: nat, k: nat, page: nat)
    requires Shape(s) && OwnersOk(s) && PageMoves(s, t, ci, k) && s.slabs[ci][k].page == 0
    requires 0 < page < MAX_FRAMES && IsHeapPage(t.phys[page]) && t.slabs[ci][k].page == page
    requires page !in s.owner && t.free == s.free - {page} && t.owner == s.owner[page := SlabPage(ci, k)]
    requires forall f :: 0 <= f < MAX_FRAMES && f != page ==> t.phys[f] == s.phys[f]
    ensures OwnersOk(t)
  {
  }

  lemma NewSlabPartition(s: State, t: State, ci: nat, k: nat)
    requires Shape(s) && Partition(s) && PageMoves(s, t, ci, k)
    requires forall i: nat :: i < Capacity(ci) ==> i in t.chains[ci][k]
    ensures Partition(t)
  {
    hide Capacity, Addr;
  }

  lemma NewSlabLive(s: State, t: State, ci: nat, k: nat, page: nat)
    requires Shape(s) && LiveOk(s) && OwnersOk(s) && PageMoves(s, t, ci, k) && s.slabs[ci][k].page == 0
    requires page in s.free && t.owner == s.owner[page := SlabPage(ci, k)]
    ensures LiveOk(t)
  {
  }

  /** A slab without live slots goes back to the frame allocator. */
  lemma ReleaseOk(s: State, t: State, ci: nat, k: nat, page: nat)
    requires HeapOk(s, Some((ci, k))) && PageMoves(s, t, ci, k) && s.slabs[ci][k].page == page != 0
    requires forall i: nat :: i < Capacity(ci) ==> i in s.chains[ci][k]
    requires t.free == s.free + {page} && t.owner == s.owner - {page} && t.phys == s.phys
    requires t.slabs[ci][k] == EMPTY_HEADER && t.chains[ci][k] == []
    ensures HeapOk(t, None)
  {
    hide Threaded, Capacity, Addr;
    assert s.owner[page] == SlabPage(ci, k);
    ReleaseSlabs(s, t, ci, k, page);
    ReleaseOwners(s, t, ci, k, page);
    ReleaseLive(s, t, ci, k, page);
    ReleasePartition(s, t, ci, k);
  }

  lemma ReleaseSlabs(s: State, t: State, ci: nat, k: nat, page: nat)
    requires Shape(s) && SlabsOk(s, Some((ci, k))) && PageMoves(s, t, ci, k) && s.slabs[ci][k].page == page != 0
    requires t.free == s.free + {page} && t.owner == s.owner - {page} && t.phys == s.phys
    requires t.slabs[ci][k] == EMPTY_HEADER && t.chains[ci][k] == []
    ensures SlabsOk(t, None)
  {
  }

  lemma ReleaseOwners(s: State, t: State, ci: nat, k: nat, page: nat)
    requires Shape(s) && OwnersOk(s) && PageMoves(s, t, ci, k) && s.slabs[ci][k].page == page != 0
    requires page in s.owner && s.owner[page] == SlabPage(ci, k)
    requires t.free == s.free + {page} && t.owner == s.owner - {page} && t.phys == s.phys
    ensures OwnersOk(t)
  {
  }

  lemma ReleasePartition(s: State, t: State, ci: nat, k: nat)
    requires Shape(s) && Partition(s) && PageMoves(s, t, ci, k) && t.slabs[ci][k] == EMPTY_HEADER
    ensures Partition(t)
  {
    hide Capacity, Addr;
  }

  lemma ReleaseLive(s: State, t: State, ci: nat, k: nat, page: nat)
    requires Shape(s) && LiveOk(s) && PageMoves(s, t, ci, k) && s.slabs[ci][k].page == page != 0
    requires page in s.owner && s.owner[page] == SlabPage(ci, k) && t.owner == s.owner - {page}
    requires forall i: nat :: i < Capacity(ci) ==> i in s.chains[ci][k]
    ensures LiveOk(t)
  {
  }

  /** A run of free frames becomes one large block. */
  lemma TakeBlockOk(s: State, t: State, first: nat, n: nat)
    requires HeapOk(s, None) && 0 < first && 0 < n && first + n <= MAX_FRAMES && FreeRun(s.free, first, n)
    requires t.slabs == s.slabs && t.chains == s.chains && t.free == Without(s.free, first, n)
    requires forall f :: 0 <= f < MAX_FRAMES ==> t.phys[f] == if first <= f < first + n then Blank else s.phys[f]
    requires t.live == s.live[BlockAddr(first) := Pages(first, n)]
    requires t.owner.Keys == s.owner.Keys + (set f | f in s.free && first <= f < first + n)
    requires forall f :: f in t.owner ==> t.owner[f] == if first <= f < first + n then BlockPage(first) else s.owner[f]
    ensures BlockAddr(first) !in s.live
    ensures HeapOk(t, None)
  {
    hide Threaded, Capacity, Addr;
    assert first in s.free;
    if BlockAddr(first) in s.live { LiveFrame(s, None, BlockAddr(first)); }
    forall f | first <= f < first + n
      ensures f in s.free && f !in s.owner
    {
    }
    forall c: nat, l: nat | InTable(c, l)
      ensures SlabOk(t.phys, t.free, t.slabs[c][l], t.chains[c][l], c)
      ensures t.slabs[c][l].page != 0 ==> t.slabs[c][l].page in t.owner && t.owner[t.slabs[c][l].page] == SlabPage(c, l)
    {
      assert SlabOk(s.phys, s.free, s.slabs[c][l], s.chains[c][l], c);
    }
    assert SlabsOk(t, None);
    TakeBlockOwners(s, t, first, n);
    TakeBlockLive(s, t, first, n);
    TakeBlockPartition(s, t, first, n);
  }

  lemma TakeBlockOwners(s: State, t: State, first: nat, n: nat)
    requires Shape(s) && OwnersOk(s) && BlockAddr(first) !in s.live && first + n <= MAX_FRAMES && 0 < first
    requires t.slabs == s.slabs && t.chains == s.chains && t.free == Without(s.free, first, n)
    requires forall f :: 0 <= f < MAX_FRAMES ==> t.phys[f] == if first <= f < first + n then Blank else s.phys[f]
    requires t.live == s.live[BlockAddr(first) := Pages(first, n)]
    requires t.owner.Keys == s.owner.Keys + (set f | f in s.free && first <= f < first + n)
    requires forall f :: f in t.owner ==> t.owner[f] == if first <= f < first + n then BlockPage(first) else s.owner[f]
    ensures OwnersOk(t)
  {
  }

  lemma TakeBlockLive(s: State, t: State, first: nat, n: nat)
    requires Shape(s) && OwnersOk(s) && LiveOk(s) && 0 < first && 0 < n && first + n <= MAX_FRAMES && FreeRun(s.free, first, n)
    requires t.slabs == s.slabs && t.chains == s.chains
    requires t.live == s.live[BlockAddr(first) := Pages(first, n)]
    requires t.owner.Keys == s.owner.Keys + (set f | f in s.free && first <= f < first + n)
    requires forall f :: f in t.owner ==> t.owner[f] == if first <= f < first + n then BlockPage(first) else s.owner[f]
    ensures LiveOk(t)
  {
    hide Capacity, Addr;
    forall a | a in t.live && t.live[a].Pages? && a != BlockAddr(first)
      ensures forall f :: t.live[a].first <= f < t.live[a].first + t.live[a].count ==> f in t.owner && t.owner[f] == BlockPage(t.live[a].first)
    {
      forall f | t.live[a].first <= f < t.live[a].first + t.live[a].count
        ensures f in t.owner && t.owner[f] == BlockPage(t.live[a].first)
      {
        assert f in s.owner && f !in s.free;
      }
    }
  }

  lemma TakeBlockPartition(s: State, t: State, first: nat, n: nat)
    requires Shape(s) && Partition(s) && t.slabs == s.slabs && t.chains == s.chains && BlockAddr(first) !in s.live
    requires t.live == s.live[BlockAddr(first) := Pages(first, n)]
    ensures Partition(t)
  {
    hide Capacity, Addr;
  }

  /** A large block is given back, frame by frame. */
  lemma DropBlockOk(s: State, t: State, first: nat, n: nat)
    requires HeapOk(s, None) && BlockAddr(first) in s.live && s.live[BlockAddr(first)] == Pages(first, n)
    requires t.slabs == s.slabs && t.chains == s.chains && t.phys == s.phys
    requires forall f :: f in t.free <==> f in s.free || first <= f < first + n
    requires t.live == s.live - {BlockAddr(first)}
    requires t.owner == s.owner - (set f | f in s.owner && first <= f < first + n)
    ensures HeapOk(t, None)
  {
    hide Threaded, Capacity, Addr;
    forall f | first <= f < first + n
      ensures f in s.owner && s.owner[f] == BlockPage(first)
    {
    }
    forall c: nat, l: nat | InTable(c, l)
      ensures SlabOk(t.phys, t.free, t.slabs[c][l], t.chains[c][l], c)
      ensures t.slabs[c][l].page != 0 ==> t.slabs[c][l].page in t.owner && t.owner[t.slabs[c][l].page] == SlabPage(c, l)
    {
      assert SlabOk(s.phys, s.free, s.slabs[c][l], s.chains[c][l], c);
    }
    assert SlabsOk(t, None);
    DropBlockOwners(s, t, first, n);
    DropBlockLive(s, t, first, n);
    DropBlockPartition(s, t, first, n);
  }

  lemma DropBlockOwners(s: State, t: State, first: nat, n: nat)
    requires Shape(s) && OwnersOk(s) && BlockAddr(first) in s.live && s.live[BlockAddr(first)] == Pages(first, n)
    requires t.slabs == s.slabs && t.chains == s.chains && t.phys == s.phys
    requires forall f :: f in t.free <==> f in s.free || first <= f < first + n
    requires t.live == s.live - {BlockAddr(first)}
    requires t.owner == s.owner - (set f | f in s.owner && first <= f < first + n)
    ensures OwnersOk(t)
  {
  }

  lemma DropBlockLive(s: State, t: State, first: nat, n: nat)
    requires Shape(s) && LiveOk(s) && BlockAddr(first) in s.live && s.live[BlockAddr(first)] == Pages(first, n)
    requires t.slabs == s.slabs && t.chains == s.chains
    requires t.live == s.live - {BlockAddr(first)}
    requires t.owner == s.owner - (set f | f in s.owner && first <= f < first + n)
    ensures LiveOk(t)
  {
  }

  lemma DropBlockPartition(s: State, t: State, first: nat, n: nat)
    requires Shape(s) && Partition(s) && t.slabs == s.slabs && t.chains == s.chains
    requires BlockAddr(first) in s.live && s.live[BlockAddr(first)].Pages?
    requires t.live == s.live - {BlockAddr(first)}
    ensures Partition(t)
  {
    hide Capacity, Addr;
  }

  // ----- What clients rely on -----

  function BlockBytes(p: Place): nat
    requires p.Slot? ==> p.ci < NUM_CLASSES
  {
    match p
    case Slot(ci, _, _) => Size(ci)
    case Pages(_, count) => count * PAGE_SIZE
  }

  lemma LivePlace(s: State, a: nat)
    requires HeapOk(s, None) && a in s.live
    ensures Shape(s)
    ensures match s.live[a]
            case Slot(ci, k, i) => InTable(ci, k) && i < Capacity(ci) && a == Addr(s.slabs[ci][k].page, ci, i)
            case Pages(first, count) =>
              && a == BlockAddr(first) && 0 < count
              && forall f :: first <= f < first + count ==> f in s.owner && s.owner[f] == BlockPage(first)
  {
  }

  /** Live blocks never overlap. */
  lemma LiveDisjoint(s: State, a: nat, b: nat)
    requires HeapOk(s, None) && a in s.live && b in s.live && a != b
    ensures s.live[a].Slot? ==> s.live[a].ci < NUM_CLASSES
    ensures s.live[b].Slot? ==> s.live[b].ci < NUM_CLASSES
    ensures a + BlockBytes(s.live[a]) <= b || b + BlockBytes(s.live[b]) <= a
  {
    hide HeapOk, Capacity, Size;
    LivePlace(s, a);
    LivePlace(s, b);
    LiveFrame(s, None, a);
    LiveFrame(s, None, b);
    if FrameOf(a) < FrameOf(b) {
      FramesApart(s, a, b);
    } else if FrameOf(b) < FrameOf(a) {
      FramesApart(s, b, a);
    } else {
      var ci, i, j := s.live[a].ci, s.live[a].i, s.live[b].i;
      if i < j { SlotsDisjoint(ci, i, j); } else { SlotsDisjoint(ci, j, i); }
    }
  }

  /** A block that starts on a lower page ends before a block on a later page starts. */
  lemma FramesApart(s: State, a: nat, b: nat)
    requires HeapOk(s, None) && a in s.live && b in s.live
    requires a >= PHYSICAL_OFFSET && b >= PHYSICAL_OFFSET && FrameOf(a) < FrameOf(b)
    ensures s.live[a].Slot? ==> s.live[a].ci < NUM_CLASSES
    ensures a + BlockBytes(s.live[a]) <= b
  {
    hide HeapOk, Capacity, Size;
    LivePlace(s, a);
    LivePlace(s, b);
    LiveFrame(s, None, a);
    LiveFrame(s, None, b);
    match s.live[a]
    case Slot(ci, k, i) => AddrParts(s.slabs[ci][k].page, ci, i);
    case Pages(first, count) =>
  }

  /** Alignments up to a page. */
  predicate IsAlignment(n: nat) {
    n == 1 || n == 2 || n == 4 || n == 8 || n == 16 || n == 32 || n == 64 || n == 128 || n == 256 || n == 512 ||
    n == 1024 || n == 2048 || n == 4096
  }

  /** Block `p` is of the kind that serves a request of this layout. */
  predicate Serves(p: Place, l: Layout) {
    match ClassFor(Request(l))
    case Some(ci) => p.Slot? && p.ci == ci
    case None => p.Pages? && p.count == PagesFor(Request(l))
  }

  /** A live block is large enough and aligned for its layout. */
  lemma LiveAligned(s: State, a: nat, l: Layout)
    requires HeapOk(s, None) && a in s.live && Serves(s.live[a], l)
    ensures s.live[a].Slot? ==> s.live[a].ci < NUM_CLASSES
    ensures l.size <= BlockBytes(s.live[a])
    ensures IsAlignment(l.align) ==> l.align > 0 && a % l.align == 0
  {
    hide HeapOk, Capacity, Size, IsAlignment;
    LivePlace(s, a);
    PositiveAlignment(l.align);
    match s.live[a]
    case Slot(ci, k, i) => if l.align > 0 { SlotAligned(s.slabs[ci][k].page, ci, i, l.align); }
    case Pages(first, count) => PageAligned(first, l.align);
  }

  lemma SlotAligned(page: nat, ci: nat, i: nat, align: nat)
    requires ci < NUM_CLASSES && 0 < align <= Size(ci)
    ensures IsAlignment(align) ==> Addr(page, ci, i) % align == 0
  {
    if IsAlignment(align) {
      DividesSize(ci, align);
      var q := Size(ci) / align;
      PageDivides(align);
      var r := PAGE_SIZE / align;
      assert Addr(page, ci, i) == align * (PHYSICAL_OFFSET / align + page * r + i * q) by {
        assert PHYSICAL_OFFSET == align * (PHYSICAL_OFFSET / align);
        Distribute(align, page, r, i, q);
      }
      Multiple(align, PHYSICAL_OFFSET / align + page * r + i * q);
    }
  }

  lemma Distribute(align: nat, page: nat, r: nat, i: nat, q: nat)
    ensures align * (page * r + i * q) == page * (align * r) + i * (align * q)
  {
  }

  lemma PositiveAlignment(n: nat)
    ensures IsAlignment(n) ==> n > 0
  {
  }

  lemma Multiple(a: nat, b: nat)
    requires a > 0
    ensures (a * b) % a == 0
  {
    assert a * b == b * a + 0;
    Remainder(b, a, 0);
  }

  lemma DividesSize(ci: nat, align: nat)
    requires ci < NUM_CLASSES && IsAlignment(align) && align <= Size(ci)
    ensures Size(ci) == align * (Size(ci) / align)
  {
  }

  lemma PageDivides(align: nat)
    requires IsAlignment(align)
    ensures PAGE_SIZE == align * (PAGE_SIZE / align)
    ensures PHYSICAL_OFFSET == align * (PHYSICAL_OFFSET / align)
  {
  }

  lemma PageAligned(first: nat, align: nat)
    ensures IsAlignment(align) ==> align > 0 && BlockAddr(first) % align == 0
  {
    if IsAlignment(align) {
      PageDivides(align);
      var r := PAGE_SIZE / align;
      assert BlockAddr(first) == align * (PHYSICAL_OFFSET / align + first * r) by { Distribute(align, first, r, 0, 0); }
      Multiple(align, PHYSICAL_OFFSET / align + first * r);
    }
  }

  /** Free frames and heap frames are disjoint, so a constant union is a constant count. */
  lemma Conservation(s: State, t: State)
    requires HeapOk(s, None) && HeapOk(t, None) && s.free + s.owner.Keys == t.free + t.owner.Keys
    ensures |s.free| + |s.owner.Keys| == |t.free| + |t.owner.Keys|
  {
  }

  // ----- Contents of live blocks -----

  function BlockWords(p: Place): nat
    requires p.Slot? ==> p.ci < NUM_CLASSES
  {
    match p
    case Slot(ci, _, _) => Size(ci) / 8
    case Pages(_, count) => count * ENTRIES
  }

  /** Word `w` of the live block at `a`. */
  ghost function BlockWord(phys: Memory, a: nat, p: Place, w: nat): nat {
    var (f, x) := if a < PHYSICAL_OFFSET then (0, 0)
                  else if p.Slot? then (FrameOf(a), WordInFrame(a) + w)
                  else (FrameOf(a) + w / ENTRIES, w % ENTRIES);
    if f < MAX_FRAMES && x < ENTRIES && IsHeapPage(phys[f]) then WordOf(phys[f], x) else 0
  }

  /** All live blocks except the one at `a` are where they were, with the same contents. */
  ghost predicate KeepsOthers(s: State, t: State, a: nat) {
    forall b :: b in s.live && b != a ==>
      && b in t.live && t.live[b] == s.live[b]
      && (s.live[b].Slot? ==> s.live[b].ci < NUM_CLASSES)
      && forall w: nat :: w < BlockWords(s.live[b]) ==> BlockWord(t.phys, b, s.live[b], w) == BlockWord(s.phys, b, s.live[b], w)
  }

  /** Memory changed only in free frames and in slot `i` of one slab page. */
  ghost predicate OnlySlot(s: State, phys': Memory, page: nat, ci: nat, i: nat)
    requires ci < NUM_CLASSES
  {
    && page < MAX_FRAMES && IsHeapPage(phys'[page]) && IsHeapPage(s.phys[page])
    && (forall f :: 0 <= f < MAX_FRAMES && f != page && f !in s.free ==> phys'[f] == s.phys[f])
    && (forall w: nat :: w < ENTRIES && !(WordIndex(ci, i) <= w < WordIndex(ci, i) + Size(ci) / 8) ==>
          WordOf(phys'[page], w) == WordOf(s.phys[page], w))
  }

  lemma SlotKeeps(s: State, full: Option<(nat, nat)>, t: State, ci: nat, k: nat, i: nat)
    requires HeapOk(s, full) && InTable(ci, k) && s.slabs[ci][k].page != 0 && i < Capacity(ci)
    requires OnlySlot(s, t.phys, s.slabs[ci][k].page, ci, i)
    requires forall b :: b in s.live && b != Addr(s.slabs[ci][k].page, ci, i) ==> b in t.live && t.live[b] == s.live[b]
    ensures KeepsOthers(s, t, Addr(s.slabs[ci][k].page, ci, i))
  {
    var page := s.slabs[ci][k].page;
    forall b | b in s.live && b != Addr(page, ci, i)
      ensures s.live[b].Slot? ==> s.live[b].ci < NUM_CLASSES
      ensures forall w: nat :: w < BlockWords(s.live[b]) ==> BlockWord(t.phys, b, s.live[b], w) == BlockWord(s.phys, b, s.live[b], w)
    {
      BlockFrames(s, full, b);
      forall w: nat | w < BlockWords(s.live[b])
        ensures BlockWord(t.phys, b, s.live[b], w) == BlockWord(s.phys, b, s.live[b], w)
      {
        SlotKeepsWord(s, full, t, ci, k, i, b, w);
      }
    }
  }

  /** Every word of a live block lies in a frame of the heap. */
  lemma BlockFrames(s: State, full: Option<(nat, nat)>, b: nat)
    requires HeapOk(s, full) && b in s.live
    ensures b >= PHYSICAL_OFFSET && FrameOf(b) in s.owner
    ensures match s.live[b]
            case Slot(ci, k, i) =>
              && InTable(ci, k) && i < Capacity(ci) && FrameOf(b) == s.slabs[ci][k].page && WordInFrame(b) == WordIndex(ci, i)
              && b == Addr(s.slabs[ci][k].page, ci, i) && s.owner[FrameOf(b)] == SlabPage(ci, k)
            case Pages(first, count) =>
              forall w: nat :: w < count * ENTRIES ==> FrameOf(b) + w / ENTRIES in s.owner && s.owner[FrameOf(b) + w / ENTRIES] == BlockPage(first)
  {
    hide SlabOk;
    LiveFrame(s, full, b);
    match s.live[b]
    case Slot(ci, k, i) => AddrParts(s.slabs[ci][k].page, ci, i);
    case Pages(first, count) =>
      forall w: nat | w < count * ENTRIES
        ensures FrameOf(b) + w / ENTRIES in s.owner && s.owner[FrameOf(b) + w / ENTRIES] == BlockPage(first)
      {
        assert first <= first + w / ENTRIES < first + count;
      }
  }

  lemma SlotKeepsWord(s: State, full: Option<(nat, nat)>, t: State, ci: nat, k: nat, i: nat, b: nat, w: nat)
    requires HeapOk(s, full) && InTable(ci, k) && s.slabs[ci][k].page != 0 && i < Capacity(ci)
    requires OnlySlot(s, t.phys, s.slabs[ci][k].page, ci, i)
    requires b in s.live && b != Addr(s.slabs[ci][k].page, ci, i)
    requires s.live[b].Slot? ==> s.live[b].ci < NUM_CLASSES
    requires w < BlockWords(s.live[b])
    ensures BlockWord(t.phys, b, s.live[b], w) == BlockWord(s.phys, b, s.live[b], w)
  {
    hide SlabsOk, OwnersOk, LiveOk, Partition, OnlySlot, BlockWord, Capacity, Addr, FrameOf, WordInFrame, WordIndex,
      Size;
    var page := s.slabs[ci][k].page;
    ChainHead(s, full, ci, k);
    BlockFrames(s, full, b);
    OwnedUsed(s, full, FrameOf(b));
    if s.live[b].Slot? {
      var j := s.live[b].i;
      if FrameOf(b) == page {
        if i < j { SlotsDisjoint(ci, i, j); } else { SlotsDisjoint(ci, j, i); }
      }
    } else {
      OwnedUsed(s, full, FrameOf(b) + w / ENTRIES);
    }
    WordKept(s, t.phys, page, ci, i, b, s.live[b], w);
  }

  lemma WordKept(s: State, phys': Memory, page: nat, ci: nat, i: nat, b: nat, p: Place, w: nat)
    requires ci < NUM_CLASSES && OnlySlot(s, phys', page, ci, i) && b >= PHYSICAL_OFFSET
    requires p.Slot? ==> (FrameOf(b) != page && FrameOf(b) !in s.free)
                         || (FrameOf(b) == page && !(WordIndex(ci, i) <= WordInFrame(b) + w < WordIndex(ci, i) + Size(ci) / 8))
    requires p.Pages? ==> FrameOf(b) + w / ENTRIES != page && FrameOf(b) + w / ENTRIES !in s.free
    ensures BlockWord(phys', b, p, w) == BlockWord(s.phys, b, p, w)
  {
    hide FrameOf, WordInFrame, WordIndex, Size;
  }

  lemma OwnedUsed(s: State, full: Option<(nat, nat)>, f: nat)
    requires HeapOk(s, full) && f in s.owner
    ensures 0 < f < MAX_FRAMES && f !in s.free && IsHeapPage(s.phys[f])
  {
  }

  /** If no frame of the heap was written, no block changed. */
  lemma FramesKeep(s: State, t: State, a: nat)
    requires HeapOk(s, None)
    requires forall f :: f in s.owner && f < MAX_FRAMES ==> t.phys[f] == s.phys[f]
    requires forall b :: b in s.live && b != a ==> b in t.live && t.live[b] == s.live[b]
    ensures KeepsOthers(s, t, a)
  {
    forall b | b in s.live && b != a
      ensures s.live[b].Slot? ==> s.live[b].ci < NUM_CLASSES
      ensures forall w: nat :: w < BlockWords(s.live[b]) ==> BlockWord(t.phys, b, s.live[b], w) == BlockWord(s.phys, b, s.live[b], w)
    {
      BlockFrames(s, None, b);
    }
  }

  // ----- The allocator -----

  /** The slots i, i + 1, ..., n - 1. */
  function Range(i: nat, n: nat): (r: seq<nat>)
    requires i <= n
    ensures |r| == n - i && forall j: nat :: j in r <==> i <= j < n
    decreases n - i
  {
    if i == n then [] else [i] + Range(i + 1, n)
  }

  function ZeroWords(fr: Frame, from: nat, n: nat): (r: Frame)
    requires IsHeapPage(fr) && from + n <= ENTRIES
    ensures IsHeapPage(r)
    ensures forall w: nat :: w < ENTRIES ==> WordOf(r, w) == if from <= w < from + n then 0 else WordOf(fr, w)
  {
    Slab(seq(ENTRIES, w requires 0 <= w < ENTRIES => if from <= w < from + n then 0 else WordOf(fr, w)))
  }

  /** A slab of the class has a free slot. */
  ghost predicate HasPartial(slabs: seq<seq<Header>>, ci: nat) {
    ci < |slabs| && exists k :: 0 <= k < |slabs[ci]| && slabs[ci][k].page != 0 && slabs[ci][k].freeCount > 0
  }

  /** The class has room for one more slab. */
  ghost predicate HasHeader(slabs: seq<seq<Header>>, ci: nat) {
    ci < |slabs| && exists k :: 0 <= k < |slabs[ci]| && slabs[ci][k].page == 0
  }

  /** The lowest run of `n` free frames. */
  ghost predicate IsFirstRun(free: set<nat>, t: nat, n: nat) {
    0 < t && FreeRun(free, t, n) && forall u :: 0 < u < t ==> !FreeRun(free, u, n)
  }

  /** Whether a request can be met: a free slot or a frame for a new slab, or a run of free frames. */
  ghost predicate CanServe(s: State, l: Layout) {
    match ClassFor(Request(l))
    case Some(ci) => HasPartial(s.slabs, ci) || (HasHeader(s.slabs, ci) && s.free != {})
    case None => exists t: nat :: 0 < t && FreeRun(s.free, t, PagesFor(Request(l)))
  }

  class SlabAllocator {
    const m: Machine
    var slabs: seq<seq<Header>>
    ghost var chains: seq<seq<seq<nat>>>
    ghost var live: map<nat, Place>
    ghost var owner: map<nat, PageUse>

    ghost function Now(): State
      reads this, m
    {
      State(m.phys, m.free, slabs, chains, live, owner)
    }

    ghost predicate Valid()
      reads this, m, m.bitmap
    {
      m.Valid() && HeapOk(Now(), None)
    }

    /** Free frames together with the frames the heap holds. */
    ghost function Frames(): set<nat>
      reads this, m
    {
      m.free + owner.Keys
    }

    constructor (m: Machine)
      requires m.Valid()
      ensures Valid() && this.m == m && live == map[] && owner == map[]
    {
      this.m := m;
      slabs := seq(NUM_CLASSES, _ => seq(MAX_SLABS, _ => EMPTY_HEADER));
      chains := seq(NUM_CLASSES, _ => seq(MAX_SLABS, _ => []));
      live := map[];
      owner := map[];
    }

    /** The first slab of a class with (`partial`) a free slot, or the first empty header. */
    method FindSlab(ci: nat, partial: bool) returns (k: Option<nat>)
      requires Shape(Now()) && ci < NUM_CLASSES
      ensures k.Some? ==> k.value < MAX_SLABS
      ensures k.Some? ==> if partial then slabs[ci][k.value].page != 0 && slabs[ci][k.value].freeCount > 0
                          else slabs[ci][k.value].page == 0
      ensures k.None? ==> forall l :: 0 <= l < MAX_SLABS ==>
                if partial then slabs[ci][l].page == 0 || slabs[ci][l].freeCount == 0 else slabs[ci][l].page != 0
    {
      for l := 0 to MAX_SLABS
        invariant forall j :: 0 <= j < l ==>
                    if partial then slabs[ci][j].page == 0 || slabs[ci][j].freeCount == 0 else slabs[ci][j].page != 0
      {
        var h := slabs[ci][l];
        if (partial && h.page != 0 && h.freeCount > 0) || (!partial && h.page == 0) { return Some(l); }
      }
      return None;
    }

    /** Threads all slots of a fresh page onto a free list, from the last slot to the first. */
    method ThreadPage(ci: nat, page: nat) returns (head: nat)
      requires ci < NUM_CLASSES && 0 < page < MAX_FRAMES && IsHeapPage(m.phys[page])
      modifies m`phys
      ensures forall f :: 0 <= f < MAX_FRAMES && f != page ==> m.phys[f] == old(m.phys)[f]
      ensures IsHeapPage(m.phys[page]) && Threaded(m.phys[page], page, head, ci, Range(0, Capacity(ci)))
    {
      hide Capacity, Size;
      head := 0;
      var i := Capacity(ci);
      while i > 0
        invariant 0 <= i <= Capacity(ci)
        invariant forall f :: 0 <= f < MAX_FRAMES && f != page ==> m.phys[f] == old(m.phys)[f]
        invariant IsHeapPage(m.phys[page]) && Threaded(m.phys[page], page, head, ci, Range(i, Capacity(ci)))
      {
        i := i - 1;
        var slot := Addr(page, ci, i);
        AddrParts(page, ci, i);
        PushSlot(m.phys[page], page, head, ci, Range(i + 1, Capacity(ci)), i);
        m.phys := m.phys[page := WithWord(m.phys[page], WordInFrame(slot), head)];
        head := slot;
      }
    }

    /** new_slab: a fresh page becomes a slab with every slot free. */
    method NewSlab(ci: nat) returns (k: Option<nat>)
      requires Valid() && ci < NUM_CLASSES
      modifies this`slabs, this`chains, this`owner, m, m.bitmap
      ensures m.Valid() && live == old(live)
      ensures k.None? <==> !HasHeader(old(slabs), ci) || old(m.free) == {}
      ensures k.None? ==> Now() == old(Now())
      ensures k.Some? ==> InTable(ci, k.value) && HeapOk(Now(), Some((ci, k.value)))
      ensures k.Some? ==> slabs[ci][k.value].page != 0 && chains[ci][k.value] != []
      ensures k.Some? ==> slabs[ci][k.value].page in old(m.free) && m.free <= old(m.free)
      ensures k.Some? ==> Frames() == old(Frames()) && KeepsOthers(old(Now()), Now(), 0)
      ensures k.Some? ==> forall f :: 0 <= f < MAX_FRAMES && f !in old(m.free) ==> m.phys[f] == old(m.phys)[f]
    {
      hide Machine.Valid, Threaded, Capacity, SlabsOk, OwnersOk, LiveOk, Partition;
      k := FindSlab(ci, false);
      if k.None? { return; }
      ghost var s := Now();
      var page := m.AllocFrame();
      if page == 0 { return None; }
      var head := ThreadPage(ci, page);
      ghost var chain := Range(0, Capacity(ci));
      slabs := Replace(slabs, ci, k.value, Header(page, head, Capacity(ci), Capacity(ci)));
      chains := Replace(chains, ci, k.value, chain);
      owner := owner[page := SlabPage(ci, k.value)];
      CapacityPositive(ci);
      NewSlabOk(s, Now(), ci, k.value, page);
      FreeNotOwned(s, page);
      FramesKeep(s, Now(), 0);
    }

    /** Takes the first free slot of a slab and zeroes it. */
    method TakeSlot(ci: nat, k: nat, ghost full: Option<(nat, nat)>) returns (ptr: nat)
      requires m.Valid() && HeapOk(Now(), full) && InTable(ci, k) && (full.None? || full == Some((ci, k)))
      requires slabs[ci][k].page != 0 && slabs[ci][k].freeCount > 0
      modifies this`slabs, this`chains, this`live, m`phys
      ensures Valid() && m.free == old(m.free)
      ensures ptr != 0 && ptr !in old(live) && ptr in live && live[ptr].Slot? && live[ptr].ci == ci
      ensures live == old(live)[ptr := live[ptr]]
      ensures forall w: nat :: w < Size(ci) / 8 ==> BlockWord(m.phys, ptr, live[ptr], w) == 0
      ensures KeepsOthers(old(Now()), Now(), ptr)
      ensures forall f :: 0 <= f < MAX_FRAMES && f !in owner ==> m.phys[f] == old(m.phys)[f]
    {
      hide Machine.Valid, Threaded, Capacity, SlabsOk, OwnersOk, LiveOk, Partition, Size, Addr, WordIndex, FrameOf,
        WordInFrame, BlockWord;
      ghost var s := Now();
      ChainHead(s, full, ci, k);
      var hd := slabs[ci][k];
      ghost var i := chains[ci][k][0];
      AddrParts(hd.page, ci, i);
      AddrHigh(hd.page, ci, i);
      ptr := hd.freeHead;
      var frame, word := FrameOf(ptr), WordInFrame(ptr);
      SlotsDisjoint(ci, i, i + 1);
      slabs := Replace(slabs, ci, k, hd.(freeHead := WordOf(m.phys[frame], word), freeCount := hd.freeCount - 1));
      chains := Replace(chains, ci, k, chains[ci][k][1..]);
      m.phys := m.phys[frame := ZeroWords(m.phys[frame], word, Size(ci) / 8)];
      live := live[ptr := Slot(ci, k, i)];
      PopOk(s, full, Now(), ci, k);
      SlotKeeps(s, full, Now(), ci, k, i);
      forall w: nat | w < Size(ci) / 8
        ensures BlockWord(m.phys, ptr, live[ptr], w) == 0
      {
        SlotWord(m.phys, ptr, live[ptr], w);
      }
    }

    /** A large block: whole pages straight from the frame allocator. */
    method TakePages(n: nat) returns (ptr: nat)
      requires Valid() && n > 0
      modifies this`live, this`owner, m, m.bitmap
      ensures Valid() && Frames() == old(Frames())
      ensures ptr == 0 <==> forall t: nat :: 0 < t ==> !FreeRun(old(m.free), t, n)
      ensures ptr == 0 ==> Now() == old(Now())
      ensures ptr != 0 ==> ptr !in old(live) && ptr in live && live[ptr].Pages? && live[ptr].count == n
      ensures ptr != 0 ==> IsFirstRun(old(m.free), live[ptr].first, n) && ptr == BlockAddr(live[ptr].first)
      ensures ptr != 0 ==> live == old(live)[ptr := live[ptr]]
      ensures ptr != 0 ==> forall w: nat :: w < n * ENTRIES ==> BlockWord(m.phys, ptr, live[ptr], w) == 0
      ensures KeepsOthers(old(Now()), Now(), ptr)
      ensures forall f :: 0 <= f < MAX_FRAMES && f !in old(m.free) ==> m.phys[f] == old(m.phys)[f]
    {
      hide Machine.Valid, HeapOk, KeepsOthers, BlockWord, BlockAddr, FreeRun, Without;
      ghost var s := Now();
      var first := m.AllocFrames(n);
      if first == 0 {
        FramesKeep(s, s, 0);
        return 0;
      }
      ptr := BlockAddr(first);
      live := live[ptr := Pages(first, n)];
      owner := owner + map f | f in s.free && first <= f < first + n :: BlockPage(first);
      BlockTaken(s, Now(), first, n);
    }

    /** A slot of a partly used slab, or else of a new one. */
    method AllocSlot(ci: nat) returns (ptr: nat)
      requires Valid() && ci < NUM_CLASSES
      modifies this, m, m.bitmap
      ensures Valid() && Frames() == old(Frames())
      ensures ptr == 0 <==> !HasPartial(old(slabs), ci) && (!HasHeader(old(slabs), ci) || old(m.free) == {})
      ensures ptr == 0 ==> Now() == old(Now())
      ensures ptr != 0 ==> ptr !in old(live) && ptr in live && live[ptr].Slot? && live[ptr].ci == ci
      ensures ptr != 0 ==> live == old(live)[ptr := live[ptr]]
      ensures ptr != 0 ==> forall w: nat :: w < Size(ci) / 8 ==> BlockWord(m.phys, ptr, live[ptr], w) == 0
      ensures KeepsOthers(old(Now()), Now(), ptr)
      ensures forall f :: 0 <= f < MAX_FRAMES && f !in old(m.free) && f !in old(owner) ==> m.phys[f] == old(m.phys)[f]
    {
      hide Machine.Valid, SlabsOk, OwnersOk, LiveOk, Partition, KeepsOthers, BlockWord, Size, FreeRun, Threaded, SlabOk;
      ghost var s := Now();
      FramesKeep(s, s, 0);
      ZeroNotLive(s);
      var k := FindSlab(ci, true);
      if k.Some? {
        ptr := TakeSlot(ci, k.value, None);
        return;
      }
      k := NewSlab(ci);
      if k.None? { return 0; }
      ghost var t := Now();
      ChainHead(t, Some((ci, k.value)), ci, k.value);
      ptr := TakeSlot(ci, k.value, Some((ci, k.value)));
      KeepsTwice(s, t, Now(), ptr);
    }

    /**
     alloc: a zeroed block that overlaps no live block.  The result is null exactly when the request
     cannot be met, and then nothing changes; otherwise exactly this block becomes live, and free and
     heap frames together stay the same.
     */
    method Alloc(l: Layout) returns (ptr: nat)
      requires Valid()
      modifies this, m, m.bitmap
      ensures Valid() && Frames() == old(Frames())
      ensures ptr == 0 <==> !CanServe(old(Now()), l)
      ensures ptr == 0 ==> Now() == old(Now())
      ensures ptr != 0 ==> ptr !in old(live) && ptr in live && Serves(live[ptr], l)
      ensures ptr != 0 && live[ptr].Pages? ==>
                IsFirstRun(old(m.free), live[ptr].first, PagesFor(Request(l))) && ptr == BlockAddr(live[ptr].first)
      ensures ptr != 0 ==> live == old(live)[ptr := live[ptr]] && (live[ptr].Slot? ==> live[ptr].ci < NUM_CLASSES)
      ensures ptr != 0 ==> forall w: nat :: w < BlockWords(live[ptr]) ==> BlockWord(m.phys, ptr, live[ptr], w) == 0
      ensures KeepsOthers(old(Now()), Now(), ptr)
      ensures forall f :: 0 <= f < MAX_FRAMES && f !in old(m.free) && f !in old(owner) ==> m.phys[f] == old(m.phys)[f]
    {
      hide Machine.Valid, HeapOk, KeepsOthers, BlockWord, Size;
      var size := Request(l);
      var c := ClassFor(size);
      if c.Some? {
        ptr := AllocSlot(c.value);
      } else {
        ptr := TakePages(PagesFor(size));
      }
    }

    /** Which slab of a class an address lies in. */
    method FindOwner(ci: nat, ptr: nat) returns (k: Option<nat>)
      requires Shape(Now()) && ci < NUM_CLASSES && ptr >= PHYSICAL_OFFSET
      ensures k.Some? ==> k.value < MAX_SLABS && slabs[ci][k.value].page != 0 && slabs[ci][k.value].page == FrameOf(ptr)
      ensures k.None? ==> forall l :: 0 <= l < MAX_SLABS ==> slabs[ci][l].page == 0 || slabs[ci][l].page != FrameOf(ptr)
    {
      var phys := ptr - PHYSICAL_OFFSET;
      for l := 0 to MAX_SLABS
        invariant forall j :: 0 <= j < l ==> slabs[ci][j].page == 0 || slabs[ci][j].page != FrameOf(ptr)
      {
        var h := slabs[ci][l];
        if h.page != 0 && h.page * PAGE_SIZE <= phys < h.page * PAGE_SIZE + PAGE_SIZE { return Some(l); }
      }
      return None;
    }

    /** Links a live slot back onto the front of its slab's free list. */
    method PushBack(ptr: nat, ci: nat, k: nat, ghost i: nat)
      requires Valid() && InTable(ci, k) && ptr in live && live[ptr] == Slot(ci, k, i) && ptr >= PHYSICAL_OFFSET
      requires slabs[ci][k].page == FrameOf(ptr)
      modifies this`slabs, this`chains, this`live, m`phys
      ensures m.Valid() && HeapOk(Now(), Some((ci, k))) && m.free == old(m.free)
      ensures slabs[ci][k].page == FrameOf(ptr) == old(slabs)[ci][k].page
      ensures live == old(live) - {ptr} && KeepsOthers(old(Now()), Now(), ptr)
      ensures forall f :: 0 <= f < MAX_FRAMES && f != FrameOf(ptr) ==> m.phys[f] == old(m.phys)[f]
    {
      hide Machine.Valid, Threaded, Capacity, SlabsOk, OwnersOk, LiveOk, Partition, Size, Addr, WordIndex, FrameOf,
        WordInFrame, KeepsOthers;
      ghost var s := Now();
      BlockFrames(s, None, ptr);
      SlotOff(s, ptr);
      var hd := slabs[ci][k];
      ChainHead(s, None, ci, k);
      AddrParts(hd.page, ci, i);
      SlotsDisjoint(ci, i, i + 1);
      m.phys := m.phys[hd.page := WithWord(m.phys[hd.page], WordInFrame(ptr), hd.freeHead)];
      slabs := Replace(slabs, ci, k, hd.(freeHead := ptr, freeCount := hd.freeCount + 1));
      chains := Replace(chains, ci, k, [i] + chains[ci][k]);
      live := live - {ptr};
      PushOk(s, Now(), ci, k, i);
      DropKeeps(s, Now(), ci, k, i);
    }

    /** Gives the page of a slab without live slots back. */
    method ReleaseSlab(ci: nat, k: nat)
      requires m.Valid() && HeapOk(Now(), Some((ci, k))) && InTable(ci, k) && slabs[ci][k].page != 0
      requires |chains[ci][k]| == Capacity(ci)
      modifies this`slabs, this`chains, this`owner, m`free, m`freeFrames, m.bitmap
      ensures Valid() && Frames() == old(Frames()) && m.free == old(m.free) + {old(slabs)[ci][k].page}
    {
      hide Machine.Valid, Threaded, Capacity, SlabsOk, OwnersOk, LiveOk, Partition, PageMoves;
      ghost var t := Now();
      var page := slabs[ci][k].page;
      ChainHead(t, Some((ci, k)), ci, k);
      m.FreeFrame(page);
      slabs := Replace(slabs, ci, k, EMPTY_HEADER);
      chains := Replace(chains, ci, k, []);
      owner := owner - {page};
      ReleaseFull(t, Now(), ci, k, page);
    }

    /** Returns a slot; the slab's page goes back exactly when it was the last live slot. */
    method DropSlot(ptr: nat, ci: nat)
      requires Valid() && ptr in live && live[ptr].Slot? && live[ptr].ci == ci
      modifies this`slabs, this`chains, this`live, this`owner, m, m.bitmap
      ensures Valid() && Frames() == old(Frames()) && ptr >= PHYSICAL_OFFSET
      ensures live == old(live) - {ptr} && KeepsOthers(old(Now()), Now(), ptr)
      ensures m.free == if exists b :: b in live && InSlab(live[b], ci, old(live)[ptr].k)
                        then old(m.free) else old(m.free) + {FrameOf(ptr)}
      ensures forall f :: 0 <= f < MAX_FRAMES && f !in old(owner) ==> m.phys[f] == old(m.phys)[f]
    {
      hide Machine.Valid, Threaded, Capacity, SlabsOk, OwnersOk, LiveOk, Partition, FrameOf, KeepsOthers, BlockAddr;
      ghost var s := Now();
      ghost var p := live[ptr];
      BlockFrames(s, None, ptr);
      SlotOff(s, ptr);
      var k := FindOwner(ci, ptr);
      assert slabs[ci][p.k].page == FrameOf(ptr);
      SameSlab(s, ci, k.value, p.k, FrameOf(ptr));
      PushBack(ptr, ci, k.value, p.i);
      ghost var t := Now();
      ChainHead(t, Some((ci, k.value)), ci, k.value);
      if slabs[ci][k.value].freeCount == slabs[ci][k.value].capacity {
        NoLiveSlot(t, ci, k.value);
        ReleaseSlab(ci, k.value);
        KeepsSamePhys(s, t, Now(), ptr);
      } else {
        NotFullOk(t, ci, k.value);
        ghost var b := LiveSlot(t, ci, k.value);
      }
    }

    /** Returns the frames of a large block one by one. */
    method DropPages(ptr: nat, n: nat)
      requires Valid() && ptr in live && live[ptr].Pages? && live[ptr].count == n
      modifies this`live, this`owner, m, m.bitmap
      ensures Valid() && Frames() == old(Frames())
      ensures live == old(live) - {ptr} && KeepsOthers(old(Now()), Now(), ptr)
      ensures m.phys == old(m.phys)
      ensures forall f :: f in m.free <==> f in old(m.free) || old(live)[ptr].first <= f < old(live)[ptr].first + n
    {
      hide Machine.Valid, HeapOk, KeepsOthers, Serves, BlockAddr;
      ghost var s := Now();
      PagesBound(s, ptr);
      var first := (ptr - PHYSICAL_OFFSET) / PAGE_SIZE;
      for i := 0 to n
        invariant m.Valid() && m.phys == s.phys
        invariant forall f :: f in m.free <==> f in s.free || first <= f < first + i
        invariant slabs == s.slabs && chains == s.chains && live == s.live && owner == s.owner
      {
        m.FreeFrame(first + i);
      }
      live := live - {ptr};
      owner := owner - (set f | f in owner && first <= f < first + n);
      DropPagesOk(s, Now(), first, n);
    }

    /** dealloc, for a null pointer or a live block with the layout it was allocated with. */
    method Dealloc(ptr: nat, l: Layout)
      requires Valid() && (ptr == 0 || (ptr in live && Serves(live[ptr], l)))
      modifies this, m, m.bitmap
      ensures Valid() && Frames() == old(Frames())
      ensures ptr == 0 ==> Now() == old(Now())
      ensures ptr != 0 ==> live == old(live) - {ptr} && KeepsOthers(old(Now()), Now(), ptr)
      ensures forall f :: 0 <= f < MAX_FRAMES && f !in old(owner) ==> m.phys[f] == old(m.phys)[f]
    {
      hide Machine.Valid, HeapOk, KeepsOthers;
      if ptr == 0 { return; }
      var c := ClassFor(Request(l));
      if c.Some? {
        DropSlot(ptr, c.value);
      } else {
        DropPages(ptr, PagesFor(Request(l)));
      }
    }

    /** A client writes one word of a block it holds. */
    method Store(ptr: nat, w: nat, value: nat)
      requires Valid() && ptr in live && (live[ptr].Slot? ==> live[ptr].ci < NUM_CLASSES) && w < BlockWords(live[ptr])
      modifies m`phys
      ensures Valid() && KeepsOthers(old(Now()), Now(), ptr)
      ensures forall f :: 0 <= f < MAX_FRAMES && f !in owner ==> m.phys[f] == old(m.phys)[f]
      ensures forall v: nat :: v < BlockWords(live[ptr]) ==>
                BlockWord(m.phys, ptr, live[ptr], v) == if v == w then value else old(BlockWord(m.phys, ptr, live[ptr], v))
    {
      hide Machine.Valid, HeapOk, KeepsOthers, BlockWord, BlockWords, Size, FrameOf, WordInFrame, FrameAt, WordAt;
      ghost var s := Now();
      WordPlace(s, ptr, w);
      var f, x := FrameAt(ptr, w), WordAt(ptr, w);
      m.phys := m.phys[f := WithWord(m.phys[f], x, value)];
      StoreOk(s, Now(), ptr, w, value);
    }
  }

  /** The frame and word of word `w` of a live block. */
  function FrameAt(a: nat, w: nat): nat
    requires a >= PHYSICAL_OFFSET
  {
    (a - PHYSICAL_OFFSET + 8 * w) / PAGE_SIZE
  }

  function WordAt(a: nat, w: nat): nat
    requires a >= PHYSICAL_OFFSET
  {
    (a - PHYSICAL_OFFSET + 8 * w) % PAGE_SIZE / 8
  }

  lemma WordPlace(s: State, a: nat, w: nat)
    requires HeapOk(s, None) && a in s.live && (s.live[a].Slot? ==> s.live[a].ci < NUM_CLASSES) && w < BlockWords(s.live[a])
    ensures a >= PHYSICAL_OFFSET && FrameAt(a, w) in s.owner && FrameAt(a, w) < MAX_FRAMES && WordAt(a, w) < ENTRIES
    ensures IsHeapPage(s.phys[FrameAt(a, w)])
    ensures match s.live[a]
            case Slot(_, _, _) => FrameAt(a, w) == FrameOf(a) && WordAt(a, w) == WordInFrame(a) + w
            case Pages(first, _) =>
              && FrameAt(a, w) == FrameOf(a) + w / ENTRIES && WordAt(a, w) == w % ENTRIES
              && s.owner[FrameAt(a, w)] == BlockPage(first)
  {
    hide HeapOk, Capacity, Size;
    BlockFrames(s, None, a);
    LivePlace(s, a);
    match s.live[a]
    case Slot(ci, k, i) =>
      AddrParts(s.slabs[ci][k].page, ci, i);
      SlotWords(s.slabs[ci][k].page, ci, i, w);
      OwnedUsed(s, None, FrameOf(a));
    case Pages(first, count) =>
      assert 8 * w == 8 * ENTRIES * (w / ENTRIES) + 8 * (w % ENTRIES);
      assert a - PHYSICAL_OFFSET + 8 * w == (first + w / ENTRIES) * PAGE_SIZE + 8 * (w % ENTRIES);
      OwnedUsed(s, None, FrameOf(a) + w / ENTRIES);
  }

  lemma SlotWords(page: nat, ci: nat, i: nat, w: nat)
    requires ci < NUM_CLASSES && i < Capacity(ci) && w < Size(ci) / 8
    ensures FrameAt(Addr(page, ci, i), w) == page && WordAt(Addr(page, ci, i), w) == WordIndex(ci, i) + w
  {
    AddrParts(page, ci, i);
    var off := i * Size(ci);
    assert off == 8 * WordIndex(ci, i) by {
      if ci == 0 {} else if ci == 1 {} else if ci == 2 {} else if ci == 3 {}
      else if ci == 4 {} else if ci == 5 {} else if ci == 6 {} else {}
    }
    WithinPage(page, off + 8 * w);
  }

  lemma WithinPage(page: nat, off: nat)
    requires off < PAGE_SIZE
    ensures (page * PAGE_SIZE + off) / PAGE_SIZE == page && (page * PAGE_SIZE + off) % PAGE_SIZE == off
  {
  }

  /** Reading a live block word by word. */
  lemma WordRead(s: State, phys: Memory, a: nat, w: nat)
    requires HeapOk(s, None) && a in s.live && (s.live[a].Slot? ==> s.live[a].ci < NUM_CLASSES) && w < BlockWords(s.live[a])
    ensures a >= PHYSICAL_OFFSET && FrameAt(a, w) < MAX_FRAMES && WordAt(a, w) < ENTRIES
    ensures IsHeapPage(phys[FrameAt(a, w)]) ==> BlockWord(phys, a, s.live[a], w) == WordOf(phys[FrameAt(a, w)], WordAt(a, w))
  {
    hide HeapOk, FrameAt, WordAt, FrameOf, WordInFrame;
    WordPlace(s, a, w);
  }

  lemma {:induction false} WordsApart(s: State, a: nat, v: nat, w: nat)
    requires HeapOk(s, None) && a in s.live && (s.live[a].Slot? ==> s.live[a].ci < NUM_CLASSES)
    requires v < BlockWords(s.live[a]) && w < BlockWords(s.live[a]) && v != w
    ensures a >= PHYSICAL_OFFSET && (FrameAt(a, v) != FrameAt(a, w) || WordAt(a, v) != WordAt(a, w))
  {
    hide HeapOk, FrameAt, WordAt, FrameOf, WordInFrame;
    WordPlace(s, a, v);
    WordPlace(s, a, w);
  }

  lemma StoreOk(s: State, t: State, a: nat, w: nat, value: nat)
    requires HeapOk(s, None) && a in s.live && (s.live[a].Slot? ==> s.live[a].ci < NUM_CLASSES) && w < BlockWords(s.live[a])
    requires a >= PHYSICAL_OFFSET && FrameAt(a, w) < MAX_FRAMES && WordAt(a, w) < ENTRIES && IsHeapPage(s.phys[FrameAt(a, w)])
    requires t == s.(phys := s.phys[FrameAt(a, w) := WithWord(s.phys[FrameAt(a, w)], WordAt(a, w), value)])
    ensures HeapOk(t, None) && KeepsOthers(s, t, a)
    ensures forall v: nat :: v < BlockWords(s.live[a]) ==>
              BlockWord(t.phys, a, s.live[a], v) == if v == w then value else BlockWord(s.phys, a, s.live[a], v)
  {
    hide HeapOk, KeepsOthers, BlockWord, BlockWords, FrameAt, WordAt, FrameOf, WordInFrame;
    WordPlace(s, a, w);
    if s.live[a].Slot? { StoreSlot(s, t, a, w, value); } else { StorePages(s, t, a, w, value); }
    forall v: nat | v < BlockWords(s.live[a])
      ensures BlockWord(t.phys, a, s.live[a], v) == if v == w then value else BlockWord(s.phys, a, s.live[a], v)
    {
      WordPlace(s, a, v);
      WordRead(s, s.phys, a, v);
      WordRead(s, t.phys, a, v);
      if v != w { WordsApart(s, a, v, w); }
    }
  }

  lemma StoreSlot(s: State, t: State, a: nat, w: nat, value: nat)
    requires HeapOk(s, None) && a in s.live && s.live[a].Slot? && s.live[a].ci < NUM_CLASSES && w < BlockWords(s.live[a])
    requires a >= PHYSICAL_OFFSET && FrameAt(a, w) < MAX_FRAMES && WordAt(a, w) < ENTRIES && IsHeapPage(s.phys[FrameAt(a, w)])
    requires t == s.(phys := s.phys[FrameAt(a, w) := WithWord(s.phys[FrameAt(a, w)], WordAt(a, w), value)])
    ensures HeapOk(t, None) && KeepsOthers(s, t, a)
  {
    hide SlabsOk, OwnersOk, LiveOk, Partition, KeepsOthers, FrameAt, WordAt, FrameOf, WordInFrame, Addr, WordIndex,
      Size, Capacity;
    var ci, k, i := s.live[a].ci, s.live[a].k, s.live[a].i;
    WordPlace(s, a, w);
    BlockFrames(s, None, a);
    SlotOff(s, a);
    var page := s.slabs[ci][k].page;
    assert t.phys[page] == WithWord(s.phys[page], WordAt(a, w), value);
    WriteOk(s, t, ci, k, i, WordAt(a, w), value);
    SlotKeeps(s, None, t, ci, k, i);
  }

  lemma StorePages(s: State, t: State, a: nat, w: nat, value: nat)
    requires HeapOk(s, None) && a in s.live && s.live[a].Pages? && w < BlockWords(s.live[a])
    requires a >= PHYSICAL_OFFSET && FrameAt(a, w) < MAX_FRAMES && WordAt(a, w) < ENTRIES && IsHeapPage(s.phys[FrameAt(a, w)])
    requires t == s.(phys := s.phys[FrameAt(a, w) := WithWord(s.phys[FrameAt(a, w)], WordAt(a, w), value)])
    ensures HeapOk(t, None) && KeepsOthers(s, t, a)
  {
    hide HeapOk, KeepsOthers, FrameAt, WordAt, FrameOf, WordInFrame, BlockWord, BlockWords;
    var f := FrameAt(a, w);
    WordPlace(s, a, w);
    BlockPageWrite(s, t, f);
    PagesBound(s, a);
    forall b | b in s.live && b != a
      ensures s.live[b].Slot? ==> s.live[b].ci < NUM_CLASSES
      ensures forall v: nat :: v < BlockWords(s.live[b]) ==> BlockWord(t.phys, b, s.live[b], v) == BlockWord(s.phys, b, s.live[b], v)
    {
      LivePlace(s, b);
      forall v: nat | v < BlockWords(s.live[b])
        ensures BlockWord(t.phys, b, s.live[b], v) == BlockWord(s.phys, b, s.live[b], v)
      {
        OtherBlock(s, a, b, v, f);
        WordPlace(s, b, v);
        WordRead(s, s.phys, b, v);
        WordRead(s, t.phys, b, v);
      }
    }
    KeepsOthersIntro(s, t, a);
  }

  lemma KeepsOthersIntro(s: State, t: State, a: nat)
    requires forall b :: b in s.live && b != a ==>
      && b in t.live && t.live[b] == s.live[b]
      && (s.live[b].Slot? ==> s.live[b].ci < NUM_CLASSES)
      && forall w: nat :: w < BlockWords(s.live[b]) ==> BlockWord(t.phys, b, s.live[b], w) == BlockWord(s.phys, b, s.live[b], w)
    ensures KeepsOthers(s, t, a)
  {
    hide BlockWord, BlockWords;
  }

  /** No word of another block lies in a page of a large block. */
  lemma OtherBlock(s: State, a: nat, b: nat, v: nat, f: nat)
    requires HeapOk(s, None) && a in s.live && s.live[a].Pages? && b in s.live && b != a
    requires (s.live[b].Slot? ==> s.live[b].ci < NUM_CLASSES) && v < BlockWords(s.live[b])
    requires f in s.owner && s.owner[f] == BlockPage(s.live[a].first)
    ensures b >= PHYSICAL_OFFSET && FrameAt(b, v) != f
  {
    hide HeapOk, FrameAt, WordAt, FrameOf, WordInFrame, BlockWords;
    WordPlace(s, b, v);
    BlockFrames(s, None, b);
    LivePlace(s, a);
    LivePlace(s, b);
  }

  /** A write into a page of a large block leaves the slabs alone. */
  lemma BlockPageWrite(s: State, t: State, f: nat)
    requires HeapOk(s, None) && f in s.owner && s.owner[f].BlockPage? && f < MAX_FRAMES
    requires IsHeapPage(t.phys[f]) && t == s.(phys := s.phys[f := t.phys[f]])
    ensures HeapOk(t, None)
  {
    hide Threaded, Capacity, Addr, BlockAddr;
    forall c: nat, l: nat | InTable(c, l)
      ensures SlabOk(t.phys, t.free, t.slabs[c][l], t.chains[c][l], c)
    {
      assert SlabOk(s.phys, s.free, s.slabs[c][l], s.chains[c][l], c);
    }
  }

  lemma SlotOff(s: State, a: nat)
    requires HeapOk(s, None) && a in s.live && s.live[a].Slot?
    ensures InTable(s.live[a].ci, s.live[a].k) && s.live[a].i !in s.chains[s.live[a].ci][s.live[a].k]
    ensures s.slabs[s.live[a].ci][s.live[a].k].page != 0
  {
  }

  lemma SameSlab(s: State, ci: nat, k: nat, l: nat, page: nat)
    requires HeapOk(s, None) && InTable(ci, k) && InTable(ci, l) && page != 0
    requires s.slabs[ci][k].page == page && s.slabs[ci][l].page == page
    ensures k == l
  {
  }

  lemma DropKeeps(s: State, t: State, ci: nat, k: nat, i: nat)
    requires HeapOk(s, None) && InTable(ci, k) && s.slabs[ci][k].page != 0 && i < Capacity(ci) && WordIndex(ci, i) < ENTRIES
    requires s.slabs[ci][k].page < MAX_FRAMES && IsHeapPage(s.phys[s.slabs[ci][k].page])
    requires t.phys == s.phys[s.slabs[ci][k].page := WithWord(s.phys[s.slabs[ci][k].page], WordIndex(ci, i), s.slabs[ci][k].freeHead)]
    requires t.live == s.live - {Addr(s.slabs[ci][k].page, ci, i)}
    ensures KeepsOthers(s, t, Addr(s.slabs[ci][k].page, ci, i))
  {
    hide SlabsOk, OwnersOk, LiveOk, Partition, KeepsOthers, Capacity, Addr, WordIndex, Size;
    SlotsDisjoint(ci, i, i + 1);
    var page := s.slabs[ci][k].page;
    assert t.phys[page] == WithWord(s.phys[page], WordIndex(ci, i), s.slabs[ci][k].freeHead);
    SlotKeeps(s, None, t, ci, k, i);
  }

  lemma KeepsSamePhys(s: State, t: State, u: State, a: nat)
    requires KeepsOthers(s, t, a) && u.phys == t.phys && u.live == t.live
    ensures KeepsOthers(s, u, a)
  {
  }

  /** Distinct numbers below `n`: no more than `n`, and all of them if there are `n`. */
  lemma {:induction false} Pigeonhole(chain: seq<nat>, n: nat)
    requires Distinct(chain) && forall j :: 0 <= j < |chain| ==> chain[j] < n
    ensures |chain| <= n
    ensures |chain| == n ==> forall i: nat :: i < n ==> i in chain
    ensures |chain| < n ==> exists i: nat :: i < n && i !in chain
  {
    var elems := set j | 0 <= j < |chain| :: chain[j];
    var all := Below(n);
    ChainCard(chain);
    RangeCard(n);
    assert elems <= all;
    SubsetCard(elems, all);
    if |chain| < n {
      assert all - elems != {} by {
        if all - elems == {} {
          forall x | x in all
            ensures x in elems
          {
            assert x !in all - elems;
          }
          SubsetCard(all, elems);
        }
      }
      var i :| i in all - elems;
      assert i < n && i !in chain;
    } else {
      forall i: nat | i < n
        ensures i in chain
      {
        if i !in elems { SubsetCard(elems, all - {i}); }
      }
    }
  }

  lemma {:induction false} ChainCard(chain: seq<nat>)
    requires Distinct(chain)
    ensures |set j | 0 <= j < |chain| :: chain[j]| == |chain|
  {
    var elems := set j | 0 <= j < |chain| :: chain[j];
    if chain != [] {
      var front := chain[..|chain| - 1];
      ChainCard(front);
      var rest := set j | 0 <= j < |front| :: front[j];
      var last := chain[|chain| - 1];
      assert last !in rest;
      assert elems == rest + {last} by {
        forall x | x in elems
          ensures x in rest + {last}
        {
          var j :| 0 <= j < |chain| && chain[j] == x;
          if j < |front| { assert front[j] == x; }
        }
        forall x | x in rest + {last}
          ensures x in elems
        {
          if x in rest { var j :| 0 <= j < |front| && front[j] == x; assert chain[j] == x; }
          else { assert chain[|chain| - 1] == x; }
        }
      }
    }
  }

  ghost function Below(n: nat): set<nat> { set i: nat | i in Range(0, n) }

  lemma {:induction false} RangeCard(n: nat)
    ensures |Below(n)| == n
  {
    if n > 0 {
      RangeCard(n - 1);
      assert Below(n) == Below(n - 1) + {n - 1};
    }
  }

  lemma SubsetCard(a: set<nat>, b: set<nat>)
    requires a <= b
    ensures |a| <= |b|
  {
    assert b == a + (b - a);
  }

  lemma FullChain(t: State, ci: nat, k: nat)
    requires HeapOk(t, Some((ci, k))) && InTable(ci, k) && t.slabs[ci][k].page != 0 && |t.chains[ci][k]| == Capacity(ci)
    ensures forall i: nat :: i < Capacity(ci) ==> i in t.chains[ci][k]
  {
    ChainHead(t, Some((ci, k)), ci, k);
    Pigeonhole(t.chains[ci][k], Capacity(ci));
  }

  lemma ReleaseFull(s: State, t: State, ci: nat, k: nat, page: nat)
    requires HeapOk(s, Some((ci, k))) && InTable(ci, k) && s.slabs[ci][k].page == page != 0 && |s.chains[ci][k]| == Capacity(ci)
    requires t == s.(free := s.free + {page}, owner := s.owner - {page},
                     slabs := Replace(s.slabs, ci, k, EMPTY_HEADER), chains := Replace(s.chains, ci, k, []))
    ensures HeapOk(t, None) && t.free + t.owner.Keys == s.free + s.owner.Keys
  {
    hide SlabsOk, OwnersOk, LiveOk, Partition, Capacity;
    FullChain(s, ci, k);
    ChainHead(s, Some((ci, k)), ci, k);
    ReleaseOk(s, t, ci, k, page);
  }

  lemma NoLiveSlot(t: State, ci: nat, k: nat)
    requires HeapOk(t, Some((ci, k))) && InTable(ci, k) && t.slabs[ci][k].page != 0 && |t.chains[ci][k]| == Capacity(ci)
    ensures forall b :: b in t.live ==> !InSlab(t.live[b], ci, k)
  {
    FullChain(t, ci, k);
    SlabLive(t, Some((ci, k)), ci, k);
  }

  lemma NotFullOk(t: State, ci: nat, k: nat)
    requires HeapOk(t, Some((ci, k))) && InTable(ci, k) && t.slabs[ci][k].page != 0 && |t.chains[ci][k]| < Capacity(ci)
    ensures HeapOk(t, None)
  {
    hide SlabOk, OwnersOk, LiveOk, Partition;
  }

  lemma LiveSlot(t: State, ci: nat, k: nat) returns (b: nat)
    requires HeapOk(t, Some((ci, k))) && InTable(ci, k) && t.slabs[ci][k].page != 0 && |t.chains[ci][k]| < Capacity(ci)
    ensures b in t.live && InSlab(t.live[b], ci, k)
  {
    ChainHead(t, Some((ci, k)), ci, k);
    Pigeonhole(t.chains[ci][k], Capacity(ci));
    SlabLive(t, Some((ci, k)), ci, k);
    var i: nat :| i < Capacity(ci) && i !in t.chains[ci][k];
    b := Addr(t.slabs[ci][k].page, ci, i);
  }

  lemma DropPagesOk(s: State, t: State, first: nat, n: nat)
    requires HeapOk(s, None) && BlockAddr(first) in s.live && s.live[BlockAddr(first)] == Pages(first, n)
    requires t.slabs == s.slabs && t.chains == s.chains && t.phys == s.phys
    requires forall f :: f in t.free <==> f in s.free || first <= f < first + n
    requires t.live == s.live - {BlockAddr(first)}
    requires t.owner == s.owner - (set f | f in s.owner && first <= f < first + n)
    ensures HeapOk(t, None) && KeepsOthers(s, t, BlockAddr(first)) && t.free + t.owner.Keys == s.free + s.owner.Keys
  {
    hide HeapOk, KeepsOthers, BlockAddr;
    DropBlockOk(s, t, first, n);
    FramesKeep(s, t, BlockAddr(first));
    PagesBound(s, BlockAddr(first));
  }

  lemma PagesBound(s: State, a: nat)
    requires HeapOk(s, None) && a in s.live && s.live[a].Pages?
    ensures 0 < s.live[a].first && s.live[a].first + s.live[a].count <= MAX_FRAMES && a >= PHYSICAL_OFFSET
    ensures (a - PHYSICAL_OFFSET) / PAGE_SIZE == s.live[a].first && a == BlockAddr(s.live[a].first)
    ensures forall f :: s.live[a].first <= f < s.live[a].first + s.live[a].count ==> f in s.owner
  {
  }

  /** The complete effect of taking a run of pages. */
  lemma BlockTaken(s: State, t: State, first: nat, n: nat)
    requires HeapOk(s, None) && 0 < first && 0 < n && first + n <= MAX_FRAMES && FreeRun(s.free, first, n)
    requires t.slabs == s.slabs && t.chains == s.chains && t.free == Without(s.free, first, n)
    requires forall f :: 0 <= f < MAX_FRAMES ==> t.phys[f] == if first <= f < first + n then Blank else s.phys[f]
    requires t.live == s.live[BlockAddr(first) := Pages(first, n)]
    requires t.owner == s.owner + map f | f in s.free && first <= f < first + n :: BlockPage(first)
    ensures BlockAddr(first) !in s.live && HeapOk(t, None) && KeepsOthers(s, t, BlockAddr(first)) && BlockAddr(first) != 0
    ensures t.free + t.owner.Keys == s.free + s.owner.Keys
    ensures forall f :: 0 <= f < MAX_FRAMES && f !in s.free ==> t.phys[f] == s.phys[f]
    ensures forall w: nat :: w < n * ENTRIES ==> BlockWord(t.phys, BlockAddr(first), Pages(first, n), w) == 0
  {
    hide HeapOk, KeepsOthers, BlockWord;
    forall f | f in s.free
      ensures f !in s.owner
    {
      FreeNotOwned(s, f);
    }
    TakeBlockOk(s, t, first, n);
    FramesKeep(s, t, BlockAddr(first));
    forall w: nat | w < n * ENTRIES
      ensures BlockWord(t.phys, BlockAddr(first), Pages(first, n), w) == 0
    {
      PageWord(t.phys, first, n, w);
    }
  }

  lemma ZeroNotLive(s: State)
    requires HeapOk(s, None)
    ensures 0 !in s.live
  {
    if 0 in s.live { LiveFrame(s, None, 0); }
  }

  lemma AddrHigh(page: nat, ci: nat, i: nat)
    requires ci < NUM_CLASSES
    ensures Addr(page, ci, i) >= PHYSICAL_OFFSET > 0
  {
  }

  lemma SlotWord(phys: Memory, a: nat, p: Place, w: nat)
    requires p.Slot? && a >= PHYSICAL_OFFSET && FrameOf(a) < MAX_FRAMES && WordInFrame(a) + w < ENTRIES
    requires IsHeapPage(phys[FrameOf(a)]) && WordOf(phys[FrameOf(a)], WordInFrame(a) + w) == 0
    ensures BlockWord(phys, a, p, w) == 0
  {
  }

  lemma PageWord(phys: Memory, first: nat, n: nat, w: nat)
    requires first + n <= MAX_FRAMES && w < n * ENTRIES
    requires forall f :: first <= f < first + n ==> phys[f] == Blank
    ensures BlockWord(phys, BlockAddr(first), Pages(first, n), w) == 0
  {
  }

  lemma KeepsTwice(s: State, t: State, u: State, a: nat)
    requires KeepsOthers(s, t, 0) && KeepsOthers(t, u, a) && 0 !in s.live
    ensures KeepsOthers(s, u, a)
  {
  }

  lemma CapacityPositive(ci: nat)
    requires ci < NUM_CLASSES
    ensures 2 <= Capacity(ci) <= 256
  {
  }

  lemma FreeNotOwned(s: State, f: nat)
    requires HeapOk(s, None) && f in s.free
    ensures f !in s.owner
  {
  }

  // ----- Whole runs -----

  datatype Action = Take(l: Layout) | Give(ptr: nat) | Put(ptr: nat, w: nat, value: nat)

  /** What a client knows: the blocks it holds, their layouts and what it stored in them. */
  datatype Client = Client(layouts: map<nat, Layout>, contents: map<nat, seq<nat>>)

  const NO_BLOCKS := Client(map[], map[])

  /** The heap holds exactly the client's blocks, with exactly the contents the client put there. */
  ghost predicate Represents(s: State, c: Client) {
    && c.layouts.Keys == c.contents.Keys == s.live.Keys
    && (forall a :: a in c.layouts ==> Serves(s.live[a], c.layouts[a]))
    && (forall a :: a in c.layouts ==> Holds(s, a, c.contents[a]))
  }

  ghost predicate Holds(s: State, a: nat, words: seq<nat>)
    requires a in s.live
  {
    && (s.live[a].Slot? ==> s.live[a].ci < NUM_CLASSES)
    && |words| == BlockWords(s.live[a])
    && forall w: nat :: w < |words| ==> BlockWord(s.phys, a, s.live[a], w) == words[w]
  }

  lemma ServedWords(p: Place, l: Layout)
    requires Serves(p, l)
    ensures p.Slot? ==> p.ci < NUM_CLASSES
    ensures BlockWords(p) == WordsFor(l)
  {
  }

  /** The number of words of a block of this layout. */
  function WordsFor(l: Layout): nat {
    match ClassFor(Request(l))
    case Some(ci) => Size(ci) / 8
    case None => PagesFor(Request(l)) * ENTRIES
  }

  function Changed(words: seq<nat>, w: nat, value: nat): seq<nat>
    requires w < |words|
  {
    words[..w] + [value] + words[w + 1..]
  }

  /** What an action means to the client. */
  ghost predicate Means(c: Client, act: Action, c': Client) {
    match act
    case Take(l) => c' == c || exists p :: p !in c.layouts && c' == Taken(c, p, l)
    case Give(p) => c' == Given(c, p)
    case Put(p, w, v) => c' == if p in c.contents && w < |c.contents[p]| then Stored(c, p, w, v) else c
  }

  function Taken(c: Client, p: nat, l: Layout): Client {
    Client(c.layouts[p := l], c.contents[p := seq(WordsFor(l), _ => 0)])
  }

  function Given(c: Client, p: nat): Client { Client(c.layouts - {p}, c.contents - {p}) }

  function Stored(c: Client, p: nat, w: nat, v: nat): Client
    requires p in c.contents && w < |c.contents[p]|
  {
    c.(contents := c.contents[p := Changed(c.contents[p], w, v)])
  }

  lemma OthersHeld(s: State, t: State, c: Client, p: nat)
    requires Represents(s, c) && KeepsOthers(s, t, p)
    ensures forall b :: b in c.layouts && b != p ==> b in t.live && t.live[b] == s.live[b] && Holds(t, b, c.contents[b])
  {
  }

  lemma TookOk(s: State, t: State, c: Client, p: nat, l: Layout)
    requires Represents(s, c) && KeepsOthers(s, t, p) && p !in s.live && p in t.live && t.live == s.live[p := t.live[p]]
    requires Serves(t.live[p], l) && (t.live[p].Slot? ==> t.live[p].ci < NUM_CLASSES)
    requires forall w: nat :: w < BlockWords(t.live[p]) ==> BlockWord(t.phys, p, t.live[p], w) == 0
    ensures Represents(t, Taken(c, p, l))
  {
    hide KeepsOthers, Serves, BlockWord, BlockWords, WordsFor;
    ServedWords(t.live[p], l);
    assert Holds(t, p, seq(WordsFor(l), _ => 0));
    OthersHeld(s, t, c, p);
  }

  lemma GaveOk(s: State, t: State, c: Client, p: nat)
    requires Represents(s, c) && KeepsOthers(s, t, p) && t.live == s.live - {p}
    ensures Represents(t, Given(c, p))
  {
    hide KeepsOthers, Serves, Holds;
    OthersHeld(s, t, c, p);
  }

  lemma StoredOk(s: State, t: State, c: Client, p: nat, x: nat, v: nat)
    requires Represents(s, c) && KeepsOthers(s, t, p) && t.live == s.live && p in c.layouts && x < |c.contents[p]|
    requires s.live[p].Slot? ==> s.live[p].ci < NUM_CLASSES
    requires forall w: nat :: w < BlockWords(s.live[p]) ==>
               BlockWord(t.phys, p, s.live[p], w) == if w == x then v else BlockWord(s.phys, p, s.live[p], w)
    ensures Represents(t, Stored(c, p, x, v))
  {
    hide KeepsOthers, Serves, BlockWord, BlockWords;
    assert Holds(t, p, Changed(c.contents[p], x, v));
    OthersHeld(s, t, c, p);
  }

  /** One action of a client keeps the heap a faithful store. */
  method Step(h: SlabAllocator, c: Client, act: Action) returns (c': Client)
    requires h.Valid() && Represents(h.Now(), c)
    modifies h, h.m, h.m.bitmap
    ensures h.Valid() && h.Frames() == old(h.Frames())
    ensures Represents(h.Now(), c') && Means(c, act, c')
    ensures act.Take? ==> (c' == c <==> !CanServe(old(h.Now()), act.l))
    ensures forall f :: 0 <= f < MAX_FRAMES && f !in old(h.Frames()) ==> h.m.phys[f] == old(h.m.phys)[f]
  {
    hide Machine.Valid, HeapOk, KeepsOthers, BlockWord, BlockWords, Serves;
    ghost var s := h.Now();
    c' := c;
    match act {
      case Take(l) =>
        var p := h.Alloc(l);
        if p != 0 {
          c' := Taken(c, p, l);
          TookOk(s, h.Now(), c, p, l);
        }
      case Give(p) =>
        c' := Given(c, p);
        if p in c.layouts {
          ZeroNotLive(s);
          h.Dealloc(p, c.layouts[p]);
          GaveOk(s, h.Now(), c, p);
        } else {
          assert c' == c;
        }
      case Put(p, w, v) =>
        if p in c.layouts && w < |c.contents[p]| {
          h.Store(p, w, v);
          c' := Stored(c, p, w, v);
          StoredOk(s, h.Now(), c, p, w, v);
        }
    }
  }

  /** When every block has been returned, so has every frame. */
  lemma NothingLeaks(s: State)
    requires HeapOk(s, None) && s.live == map[]
    ensures s.owner == map[]
  {
    hide Threaded, SlabOk, Capacity, Partition, LiveOk;
    forall f | f in s.owner
      ensures false
    {
      match s.owner[f]
      case SlabPage(ci, k) =>
        ChainHead(s, None, ci, k);
        NotFullAnywhere(s, ci, k);
        var b := LiveSlot(s, ci, k);
      case BlockPage(first) =>
    }
  }

  lemma NotFullAnywhere(s: State, ci: nat, k: nat)
    requires HeapOk(s, None)
    ensures HeapOk(s, Some((ci, k)))
  {
    hide SlabOk, OwnersOk, LiveOk, Partition;
  }

  /** The guarantees every client gets, at every moment of every run. */
  ghost predicate Guarantees(c: Client) {
    && (forall a, b :: a in c.layouts && b in c.layouts && a != b ==>
          a + Extent(c.layouts[a]) <= b || b + Extent(c.layouts[b]) <= a)
    && (forall a :: a in c.layouts ==>
          && c.layouts[a].size <= Extent(c.layouts[a])
          && (IsAlignment(c.layouts[a].align) ==> c.layouts[a].align > 0 && a % c.layouts[a].align == 0))
  }

  lemma ServedBytes(p: Place, l: Layout)
    requires Serves(p, l)
    ensures p.Slot? ==> p.ci < NUM_CLASSES
    ensures BlockBytes(p) == Extent(l)
  {
  }

  lemma ClientGuarantees(s: State, c: Client)
    requires HeapOk(s, None) && Represents(s, c)
    ensures Guarantees(c)
  {
    hide HeapOk, Serves, BlockBytes, Extent, IsAlignment, Holds;
    forall a | a in c.layouts
      ensures c.layouts[a].size <= Extent(c.layouts[a])
      ensures IsAlignment(c.layouts[a].align) ==> c.layouts[a].align > 0 && a % c.layouts[a].align == 0
    {
      LiveAligned(s, a, c.layouts[a]);
      ServedBytes(s.live[a], c.layouts[a]);
    }
    forall a, b | a in c.layouts && b in c.layouts && a != b
      ensures a + Extent(c.layouts[a]) <= b || b + Extent(c.layouts[b]) <= a
    {
      LiveDisjoint(s, a, b);
      ServedBytes(s.live[a], c.layouts[a]);
      ServedBytes(s.live[b], c.layouts[b]);
    }
  }

  /**
   The first `n` actions of a run: at every moment the heap holds exactly the client's blocks, and
   each action did what it means to the client; an allocation fails only if it cannot be served.
   */
  ghost predicate History(ss: seq<State>, cs: seq<Client>, acts: seq<Action>, n: nat) {
    && n <= |acts| && |ss| == |cs| == n + 1 && cs[0] == NO_BLOCKS
    && (forall i :: 0 <= i <= n ==> HeapOk(ss[i], None) && Represents(ss[i], cs[i]) && Guarantees(cs[i]))
    && (forall i :: 0 <= i < n ==> Means(cs[i], acts[i], cs[i + 1]))
    && (forall i :: 0 <= i < n && acts[i].Take? ==> (cs[i + 1] == cs[i] <==> !CanServe(ss[i], acts[i].l)))
  }

  lemma HistoryNext(ss: seq<State>, cs: seq<Client>, acts: seq<Action>, n: nat, s: State, c: Client)
    requires History(ss, cs, acts, n) && n < |acts|
    requires HeapOk(s, None) && Represents(s, c) && Guarantees(c) && Means(cs[n], acts[n], c)
    requires acts[n].Take? ==> (c == cs[n] <==> !CanServe(ss[n], acts[n].l))
    ensures History(ss + [s], cs + [c], acts, n + 1)
  {
    hide HeapOk, Represents, Guarantees, Means, CanServe;
  }

  lemma HistoryStart(s: State, acts: seq<Action>)
    requires HeapOk(s, None) && s.live == map[]
    ensures History([s], [NO_BLOCKS], acts, 0)
  {
    hide HeapOk, Represents, Guarantees;
    EmptyClient(s);
    ClientGuarantees(s, NO_BLOCKS);
  }

  /**
   Any sequence of allocations, writes and frees leaves the heap a faithful store: the blocks held
   are disjoint, large enough and aligned, they read back what was last written (zero if nothing
   was), and once all are returned the frame allocator has every frame back.
   */
  method Run(h: SlabAllocator, acts: seq<Action>) returns (c: Client, ghost cs: seq<Client>, ghost ss: seq<State>)
    requires h.Valid() && h.live == map[]
    modifies h, h.m, h.m.bitmap
    ensures History(ss, cs, acts, |acts|) && ss[0] == old(h.Now()) && ss[|acts|] == h.Now() && cs[|acts|] == c
    ensures h.Valid() && h.Frames() == old(h.Frames())
    ensures c.layouts == map[] ==> h.m.free == old(h.m.free) && h.m.freeFrames == old(h.m.freeFrames)
  {
    hide HeapOk, Guarantees, Means, CanServe, Represents, History, Machine.Tracks;
    NothingLeaks(h.Now());
    c := NO_BLOCKS;
    HistoryStart(h.Now(), acts);
    EmptyClient(h.Now());
    cs, ss := [c], [h.Now()];
    for n := 0 to |acts|
      invariant |cs| == |ss| == n + 1 && History(ss, cs, acts, n) && ss[0] == old(h.Now()) && cs[n] == c && ss[n] == h.Now()
      invariant h.Valid() && Represents(h.Now(), c) && h.Frames() == old(h.Frames())
    {
      c := Step(h, c, acts[n]);
      ClientGuarantees(h.Now(), c);
      HistoryNext(ss, cs, acts, n, h.Now(), c);
      cs, ss := cs + [c], ss + [h.Now()];
    }
    if c.layouts == map[] {
      HoldsNothing(h.Now(), c);
      NothingLeaks(h.Now());
    }
  }

  lemma EmptyClient(s: State)
    requires s.live == map[]
    ensures Represents(s, NO_BLOCKS)
  {
  }

  lemma HoldsNothing(s: State, c: Client)
    requires Represents(s, c) && c.layouts == map[]
    ensures s.live == map[]
  {
  }

  /** A block of whole pages is aligned to `pages` pages exactly when its first frame number is. */
  lemma LargeAlignment(first: nat, pages: nat)
    requires pages > 0 && PHYSICAL_OFFSET % (pages * PAGE_SIZE) == 0
    ensures BlockAddr(first) % (pages * PAGE_SIZE) == 0 <==> first % pages == 0
  {
    var n := pages * PAGE_SIZE;
    var q, r := first / pages, first % pages;
    assert first * PAGE_SIZE == q * n + r * PAGE_SIZE by {
      assert first == q * pages + r;
      assert (q * pages) * PAGE_SIZE == q * (pages * PAGE_SIZE);
    }
    var o := PHYSICAL_OFFSET / n;
    assert PHYSICAL_OFFSET == o * n;
    assert BlockAddr(first) == (o + q) * n + r * PAGE_SIZE;
    assert r * PAGE_SIZE < n;
    Remainder(o + q, n, r * PAGE_SIZE);
  }

  /** The alignments of more than a page that divide the base of the direct map. */
  predicate IsLargeAlignment(n: nat) { n > PAGE_SIZE && n % PAGE_SIZE == 0 && PHYSICAL_OFFSET % n == 0 }

  function Pow2(k: nat): nat { if k == 0 then 1 else 2 * Pow2(k - 1) }

  /** Every power of two from 2^13 to 2^47 is one of them. */
  lemma LargeAlignments(k: nat)
    requires 13 <= k <= 47
    ensures IsLargeAlignment(Pow2(k))
  {
    DividesOffset(k);
    WholePages(k);
  }

  lemma {:induction false} DividesOffset(k: nat)
    requires k <= 47
    ensures Pow2(k) > 0 && PHYSICAL_OFFSET % Pow2(k) == 0
    decreases 47 - k
  {
    if k == 47 {
      LargestPower();
    } else {
      DividesOffset(k + 1);
      Half(PHYSICAL_OFFSET, Pow2(k));
    }
  }

  lemma LargestPower()
    ensures Pow2(47) == 0x8000_0000_0000
  {
    assert Pow2(12) == 4096 && Pow2(20) == 0x10_0000 && Pow2(30) == 0x4000_0000 && Pow2(40) == 0x100_0000_0000;
  }

  lemma Half(x: nat, p: nat)
    requires p > 0 && x % (2 * p) == 0
    ensures x % p == 0
  {
    var q := x / (2 * p);
    assert x == (2 * q) * p + 0;
    Remainder(2 * q, p, 0);
  }

  lemma {:induction false} WholePages(k: nat)
    requires k >= 13
    ensures Pow2(k) > PAGE_SIZE && Pow2(k) % PAGE_SIZE == 0
  {
    if k == 13 {
      assert Pow2(13) == 8192;
    } else {
      WholePages(k - 1);
    }
  }

  /**
   alloc with an alignment beyond a page: the block is aligned if and only if the lowest run of free
   frames that is long enough begins at a suitable frame.
   */
  method AllocAligned(h: SlabAllocator, l: Layout) returns (ptr: nat)
    requires h.Valid() && IsLargeAlignment(l.align)
    modifies h, h.m, h.m.bitmap
    ensures h.Valid()
    ensures ptr == 0 <==> forall t: nat :: 0 < t ==> !FreeRun(old(h.m.free), t, PagesFor(Request(l)))
    ensures forall t: nat :: IsFirstRun(old(h.m.free), t, PagesFor(Request(l))) ==>
              ptr == BlockAddr(t) && (ptr % l.align == 0 <==> t % (l.align / PAGE_SIZE) == 0)
  {
    hide HeapOk, Machine.Valid, KeepsOthers, FreeRun, BlockAddr;
    ptr := h.Alloc(l);
    if ptr != 0 {
      var pages := l.align / PAGE_SIZE;
      assert l.align == pages * PAGE_SIZE;
      LargeAlignment(h.live[ptr].first, pages);
    }
  }

  /** Two pages aligned to two pages, with frames 1 to 7 free: the block begins at frame 1. */
  method Misaligned() returns (ptr: nat)
    ensures ptr == BlockAddr(1) && ptr % 8192 != 0
  {
    hide HeapOk, Machine.Valid, Machine.Tracks, BootFree, IsFirstRun, FreeRun;
    var m := new Machine();
    var boot := BootInfo([MemMapEntry(0, 8, EFI_CONVENTIONAL_MEMORY)], 0, 0);
    m.Init(boot);
    LowFrames(boot, m.free);
    var h := new SlabAllocator(m);
    ptr := AllocAligned(h, Layout(8192, 8192));
  }

  lemma LowFrames(boot: BootInfo, free: set<nat>)
    requires boot == BootInfo([MemMapEntry(0, 8, EFI_CONVENTIONAL_MEMORY)], 0, 0)
    requires forall f: nat :: f in free <==> BootFree(boot, f)
    ensures IsFirstRun(free, 1, 2)
  {
    assert Covers(boot.mmap[0], 1) && Covers(boot.mmap[0], 2);
    assert BootFree(boot, 1) && BootFree(boot, 2);
    assert 1 in free && 2 in free;
  }

  lemma Remainder(q: nat, n: nat, r: nat)
    requires r < n
    ensures (q * n + r) % n == r
  {
    var x := q * n + r;
    var q', r' := x / n, x % n;
    assert x == q' * n + r';
    SameDivision(q, q', n, r, r');
  }

  lemma SameDivision(q: nat, q': nat, n: nat, r: nat, r': nat)
    requires r < n && r' < n && q * n + r == q' * n + r'
    ensures r == r'
  {
    Gap(q, q', n);
    Gap(q', q, n);
  }

  lemma Gap(a: nat, b: nat, n: nat)
    ensures a < b ==> a * n + n <= b * n
  {
    if a < b {
      var d: nat := b - a - 1;
      assert b * n == a * n + n + d * n by { assert b == a + 1 + d; }
      assert d * n >= 0;
    }
  }
}
