/**
 Cloning address spaces (kernel/src/arch/amd64/paging.rs, the second half).  The four nested
 loops of clone_user_address_space differ only in the level they work on; `CloneTable` is one
 of them with the level as a parameter, and calls itself where the source enters the next loop.
 */
module Fork {
  import opened Physical
  import opened Pmm
  import opened Paging

  // ----- What a copy is -----

  /** Entry `i` of table `d` copies entry `i` of table `s`, through frames of `pool` only. */
  ghost predicate CopyEntry(phys: Memory, level: nat, s: nat, d: nat, i: nat, pool: set<nat>)
    requires 1 <= level <= 4
    decreases level, 0
  {
    var a, b := At(phys, s, i), At(phys, d, i);
    if !a.present then b == ZERO_ENTRY
    else if level == 2 && a.huge then b == a
    else
      && b == a.(frame := b.frame)
      && a.frame < MAX_FRAMES && b.frame < MAX_FRAMES && b.frame in pool
      && (if level == 1 then phys[b.frame] == phys[a.frame]
          else CopyOf(phys, level - 1, a.frame, b.frame, pool))
  }

  ghost predicate CopyOf(phys: Memory, level: nat, s: nat, d: nat, pool: set<nat>)
    requires 1 <= level <= 4
    decreases level, 1
  {
    forall i: nat :: i < Span(level) ==> CopyEntry(phys, level, s, d, i, pool)
  }

  /** A copy stays one while the owned frames up to its level keep their contents. */
  lemma {:induction false} CopyStable(phys: Memory, phys': Memory, own: Ownership, free: set<nat>,
                                      level: nat, s: nat, d: nat, i: nat, pool: set<nat>)
    requires Wf(phys, own, free) && 1 <= level <= 4 && i < Span(level)
    requires s in own && d in own && own[s].level == level && own[d].level == level
    requires At(phys', s, i) == At(phys, s, i) && At(phys', d, i) == At(phys, d, i)
    requires forall f :: f in own && f < MAX_FRAMES && own[f].level < level ==> phys'[f] == phys[f]
    requires CopyEntry(phys, level, s, d, i, pool)
    ensures CopyEntry(phys', level, s, d, i, pool)
    decreases level
  {
    var a, b := At(phys, s, i), At(phys, d, i);
    LinkedEntry(phys, own, free, s, i);
    LinkedEntry(phys, own, free, d, i);
    if level > 1 && a.present && !(level == 2 && a.huge) {
      var below := level - 1;
      forall j: nat | j < Span(below)
        ensures CopyEntry(phys', below, a.frame, b.frame, j, pool)
      {
        assert CopyEntry(phys, below, a.frame, b.frame, j, pool);
        CopyStable(phys, phys', own, free, below, a.frame, b.frame, j, pool);
      }
    }
  }

  // ----- One step of the copying loop -----

  /**
   What the copying of table `d` may have done since a given state: owned frames other than `d`
   and frames of no space are untouched, and every newly owned frame came from the free pool.
   */
  ghost predicate Copies(phys: Memory, own: Ownership, free: set<nat>,
                         phys': Memory, own': Ownership, free': set<nat>, d: nat) {
    && free' <= free
    && (forall f :: f in own ==> f in own' && own'[f] == own[f])
    && (forall f :: f in own' ==> f in own || (f in free && own'[f].level < 4))
    && (forall f :: 0 <= f < MAX_FRAMES && f != d && f !in free ==> phys'[f] == phys[f])
    && (forall i :: 256 <= i < ENTRIES && IsRoot(own, d) ==> At(phys', d, i) == At(phys, d, i))
  }

  lemma CopiesTransitive(p0: Memory, o0: Ownership, f0: set<nat>, p1: Memory, o1: Ownership, f1: set<nat>,
                         p2: Memory, o2: Ownership, f2: set<nat>, d: nat)
    requires Copies(p0, o0, f0, p1, o1, f1, d) && Copies(p1, o1, f1, p2, o2, f2, d)
    ensures Copies(p0, o0, f0, p2, o2, f2, d)
  {
  }

  /** Earlier entries of the copy survive a step that touches only `d` and free frames. */
  lemma CopiesKeep(phys: Memory, own: Ownership, free: set<nat>,
                   phys': Memory, own': Ownership, free': set<nat>, level: nat, s: nat, d: nat, n: nat, pool: set<nat>)
    requires Wf(phys, own, free) && Copies(phys, own, free, phys', own', free', d)
    requires 1 <= level <= 4 && n <= Span(level)
    requires s in own && d in own && own[s].level == level && own[d].level == level && s != d
    requires forall j: nat :: j < n ==> CopyEntry(phys, level, s, d, j, pool)
    requires forall j: nat :: j < n ==> At(phys', d, j) == At(phys, d, j)
    ensures forall j: nat :: j < n ==> CopyEntry(phys', level, s, d, j, pool)
  {
    forall j: nat | j < n
      ensures CopyEntry(phys', level, s, d, j, pool)
    {
      assert At(phys', d, j) == At(phys, d, j);
      CopyStable(phys, phys', own, free, level, s, d, j, pool);
    }
  }

  lemma CopiesGood(phys: Memory, own: Ownership, free: set<nat>,
                   phys': Memory, own': Ownership, free': set<nat>, d: nat, kernel: nat)
    requires Good(phys, own, free, kernel) && Copies(phys, own, free, phys', own', free', d) && d in own
    requires Wf(phys', own', free')
    ensures Good(phys', own', free', kernel)
  {
    forall r: nat, i: nat | IsRoot(own', r) && 256 <= i < ENTRIES
      ensures At(phys', r, i) == At(phys', kernel, i)
    {
      assert IsRoot(own, r);
      assert At(phys, r, i) == At(phys, kernel, i);
      assert phys'[kernel] == phys[kernel];
      assert r != d ==> phys'[r] == phys[r];
    }
  }

  /** A huge page is shared: its entry is copied as it is. */
  lemma CopyHuge(phys: Memory, own: Ownership, free: set<nat>, d: nat, i: nat, a: Entry, kernel: nat)
    requires Good(phys, own, free, kernel) && d in own && own[d].level == 2 && i < ENTRIES
    requires a.present && a.huge
    ensures Good(Put(phys, d, i, a), own, free, kernel)
    ensures Copies(phys, own, free, Put(phys, d, i, a), own, free, d)
    ensures Open(phys, own) ==> Open(Put(phys, d, i, a), own)
  {
    var phys' := Put(phys, d, i, a);
    forall f, j: nat | f in own && own[f].level >= 1 && j < Span(own[f].level)
      ensures Linked(phys', own, f, j)
    {
      assert Linked(phys, own, f, j);
    }
    CopiesGood(phys, own, free, phys', own, free, d, kernel);
  }

  /** A mapped page gets a fresh frame with the same contents. */
  lemma CopyLeaf(phys: Memory, own: Ownership, free: set<nat>, d: nat, i: nat, a: Entry, g: nat, kernel: nat)
    requires Good(phys, own, free, kernel) && d in own && own[d].level == 1 && i < ENTRIES
    requires a.present && a.frame in own && own[a.frame].level == 0
    requires g in free && 0 < g < MAX_FRAMES
    ensures var phys' := Put(phys[g := phys[a.frame]], d, i, a.(frame := g));
            && Good(phys', own[g := Node(0, d, i)], free - {g}, kernel)
            && Copies(phys, own, free, phys', own[g := Node(0, d, i)], free - {g}, d)
            && phys'[g] == phys[a.frame]
            && (Open(phys, own) ==> Open(phys', own[g := Node(0, d, i)]))
  {
    hide Open;
    var filled := phys[g := phys[a.frame]];
    OpenTables(phys, own, Put(filled, d, i, a.(frame := g)), own[g := Node(0, d, i)]);
    assert Wf(filled, own, free - {g}) by {
      forall f, j: nat | f in own && own[f].level >= 1 && j < Span(own[f].level)
        ensures Linked(filled, own, f, j)
      {
        assert Linked(phys, own, f, j);
      }
    }
    MapLeaf(filled, own, free - {g}, d, i, g, a.(frame := g));
    CopiesGood(phys, own, free, Put(filled, d, i, a.(frame := g)), own[g := Node(0, d, i)], free - {g}, d, kernel);
  }

  /** A lower table gets a fresh, empty table with the same flags. */
  lemma CopyTable(phys: Memory, own: Ownership, free: set<nat>, d: nat, i: nat, a: Entry, g: nat, kernel: nat)
    requires Good(phys, own, free, kernel) && d in own && own[d].level >= 2 && i < Span(own[d].level)
    requires At(phys, d, i) == ZERO_ENTRY && a.present && !a.nx && a.high == 0
    requires g in free && 0 < g < MAX_FRAMES
    ensures var phys' := Put(phys[g := Blank], d, i, a.(frame := g));
            var own' := own[g := Node(own[d].level - 1, d, i)];
            && Good(phys', own', free - {g}, kernel)
            && Copies(phys, own, free, phys', own', free - {g}, d)
            && phys'[g] == Blank
            && (Passes(a, own[d].level) && Open(phys, own) ==> Open(phys', own'))
  {
    hide Open;
    if Passes(a, own[d].level) { OpenLink(phys, own, Put(phys[g := Blank], d, i, a.(frame := g)), d, i, g, a.(frame := g)); }
    LinkTable(phys, own, free, d, i, g, a.(frame := g));
    CopiesGood(phys, own, free, Put(phys[g := Blank], d, i, a.(frame := g)),
               own[g := Node(own[d].level - 1, d, i)], free - {g}, d, kernel);
  }

  // ----- The cloning loops -----

  /** Copies entry `i`; `ok` is false when an allocation fails, where the source panics. */
  method CloneEntry(v: Vmm, level: nat, src: nat, dst: nat, i: nat, ghost pool: set<nat>) returns (ok: bool)
    requires v.Valid() && 1 <= level <= 4 && i < Span(level) && src != dst
    requires src in v.own && v.own[src].level == level && dst in v.own && v.own[dst].level == level
    requires v.m.free <= pool && At(v.m.phys, dst, i) == ZERO_ENTRY
    modifies v, v.m, v.m.bitmap
    ensures v.Valid()
    ensures Copies(old(v.m.phys), old(v.own), old(v.m.free), v.m.phys, v.own, v.m.free, dst)
    ensures forall j :: j != i ==> At(v.m.phys, dst, j) == At(old(v.m.phys), dst, j)
    ensures ok ==> CopyEntry(v.m.phys, level, src, dst, i, pool)
    ensures !ok ==> v.m.free == {}
    ensures Open(old(v.m.phys), old(v.own)) ==> Open(v.m.phys, v.own)
    decreases level, 1
  {
    hide Machine.Valid, Linked, Wf, CopyOf, Copies, Open;
    LinkedEntry(v.m.phys, v.own, v.m.free, src, i);
    LinkedEntry(v.m.phys, v.own, v.m.free, dst, i);
    CopiesNothing(v.m.phys, v.own, v.m.free, dst);
    var a := EntryOf(v.m.phys[src], i);
    if !a.present { return true; }
    if level == 2 && a.huge {
      CopyHuge(v.m.phys, v.own, v.m.free, dst, i, a, v.kernelPml4);
      v.m.phys := Put(v.m.phys, dst, i, a);
      return true;
    }
    if level == 1 {
      ok := CloneLeaf(v, src, dst, i, pool);
    } else {
      ok := CloneBelow(v, level, src, dst, i, pool);
    }
  }

  /** The body of the outer loops: a link gets a fresh table with the same flags, and what is below it is copied. */
  method CloneBelow(v: Vmm, level: nat, src: nat, dst: nat, i: nat, ghost pool: set<nat>) returns (ok: bool)
    requires v.Valid() && 2 <= level <= 4 && i < Span(level) && src != dst
    requires src in v.own && v.own[src].level == level && dst in v.own && v.own[dst].level == level
    requires v.m.free <= pool && At(v.m.phys, dst, i) == ZERO_ENTRY
    requires var a := At(v.m.phys, src, i); a.present && !(level == 2 && a.huge)
    modifies v, v.m, v.m.bitmap
    ensures v.Valid()
    ensures Copies(old(v.m.phys), old(v.own), old(v.m.free), v.m.phys, v.own, v.m.free, dst)
    ensures forall j :: j != i ==> At(v.m.phys, dst, j) == At(old(v.m.phys), dst, j)
    ensures ok ==> CopyEntry(v.m.phys, level, src, dst, i, pool)
    ensures !ok ==> v.m.free == {}
    ensures Open(old(v.m.phys), old(v.own)) ==> Open(v.m.phys, v.own)
    decreases level, 0
  {
    hide Machine.Valid, Linked, Wf, CopyOf, Copies, Open;
    LinkedEntry(v.m.phys, v.own, v.m.free, src, i);
    LinkedEntry(v.m.phys, v.own, v.m.free, dst, i);
    CopiesNothing(v.m.phys, v.own, v.m.free, dst);
    var a := EntryOf(v.m.phys[src], i);
    ghost var p0, o0, f0 := v.m.phys, v.own, v.m.free;
    OwnedFrame(p0, o0, f0, src);
    OwnedFrame(p0, o0, f0, dst);
    OwnedFrame(p0, o0, f0, a.frame);
    var g := v.m.AllocFrame();
    if g == 0 { return false; }
    CopyTable(p0, o0, f0, dst, i, a, g, v.kernelPml4);
    if Open(p0, o0) { OpenAt(p0, o0, src, i); }
    v.m.phys := Put(v.m.phys, dst, i, a.(frame := g));
    v.own := v.own[g := Node(level - 1, dst, i)];
    ghost var p1, o1, f1 := v.m.phys, v.own, v.m.free;
    ok := CloneTable(v, level - 1, a.frame, g, pool);
    NestedCopies(p0, o0, f0, p1, o1, f1, v.m.phys, v.own, v.m.free, dst, g);
  }

  /** The innermost loop body: a mapped page is copied byte for byte into a fresh frame. */
  method CloneLeaf(v: Vmm, src: nat, dst: nat, i: nat, ghost pool: set<nat>) returns (ok: bool)
    requires v.Valid() && i < ENTRIES && src != dst
    requires src in v.own && v.own[src].level == 1 && dst in v.own && v.own[dst].level == 1
    requires v.m.free <= pool && At(v.m.phys, src, i).present
    modifies v, v.m, v.m.bitmap
    ensures v.Valid()
    ensures Copies(old(v.m.phys), old(v.own), old(v.m.free), v.m.phys, v.own, v.m.free, dst)
    ensures forall j :: j != i ==> At(v.m.phys, dst, j) == At(old(v.m.phys), dst, j)
    ensures ok ==> CopyEntry(v.m.phys, 1, src, dst, i, pool)
    ensures !ok ==> v.m.free == {}
    ensures Open(old(v.m.phys), old(v.own)) ==> Open(v.m.phys, v.own)
  {
    hide Machine.Valid, Linked, Wf, CopyOf, Copies, Open;
    ghost var p0, o0, f0 := v.m.phys, v.own, v.m.free;
    LinkedEntry(p0, o0, f0, src, i);
    CopiesNothing(p0, o0, f0, dst);
    var a := EntryOf(v.m.phys[src], i);
    OwnedFrame(p0, o0, f0, src);
    OwnedFrame(p0, o0, f0, dst);
    OwnedFrame(p0, o0, f0, a.frame);
    var g := v.m.AllocFrame();
    if g == 0 { return false; }
    CopyLeaf(p0, o0, f0, dst, i, a, g, v.kernelPml4);
    v.m.phys := v.m.phys[g := v.m.phys[a.frame]];
    assert v.m.phys == p0[g := p0[a.frame]];
    v.m.phys := Put(v.m.phys, dst, i, a.(frame := g));
    v.own := v.own[g := Node(0, dst, i)];
    return true;
  }

  method CloneTable(v: Vmm, level: nat, src: nat, dst: nat, ghost pool: set<nat>) returns (ok: bool)
    requires v.Valid() && 1 <= level <= 4 && src != dst
    requires src in v.own && v.own[src].level == level && dst in v.own && v.own[dst].level == level
    requires v.m.free <= pool
    requires forall j: nat :: j < Span(level) ==> At(v.m.phys, dst, j) == ZERO_ENTRY
    modifies v, v.m, v.m.bitmap
    ensures v.Valid()
    ensures Copies(old(v.m.phys), old(v.own), old(v.m.free), v.m.phys, v.own, v.m.free, dst)
    ensures ok ==> CopyOf(v.m.phys, level, src, dst, pool)
    ensures !ok ==> v.m.free == {}
    ensures Open(old(v.m.phys), old(v.own)) ==> Open(v.m.phys, v.own)
    decreases level, 2
  {
    hide Machine.Valid, Linked, Wf, CopyEntry, Copies, Open;
    CopiesNothing(v.m.phys, v.own, v.m.free, dst);
    for i := 0 to Span(level)
      invariant v.Valid()
      invariant Copies(old(v.m.phys), old(v.own), old(v.m.free), v.m.phys, v.own, v.m.free, dst)
      invariant src in v.own && v.own[src].level == level && dst in v.own && v.own[dst].level == level
      invariant v.m.free <= pool && (Open(old(v.m.phys), old(v.own)) ==> Open(v.m.phys, v.own))
      invariant forall j: nat :: j < i ==> CopyEntry(v.m.phys, level, src, dst, j, pool)
      invariant forall j: nat :: i <= j < Span(level) ==> At(v.m.phys, dst, j) == ZERO_ENTRY
    {
      ghost var p1, o1, f1 := v.m.phys, v.own, v.m.free;
      ok := CloneEntry(v, level, src, dst, i, pool);
      CopiesTransitive(old(v.m.phys), old(v.own), old(v.m.free), p1, o1, f1, v.m.phys, v.own, v.m.free, dst);
      if !ok { return; }
      CopiesKeep(p1, o1, f1, v.m.phys, v.own, v.m.free, level, src, dst, i, pool);
      CopiesOwn(p1, o1, f1, v.m.phys, v.own, v.m.free, dst);
    }
    ok := true;
  }

  lemma CopiesNothing(phys: Memory, own: Ownership, free: set<nat>, d: nat)
    ensures Copies(phys, own, free, phys, own, free, d)
  {
  }

  lemma CopiesOwn(phys: Memory, own: Ownership, free: set<nat>,
                  phys': Memory, own': Ownership, free': set<nat>, d: nat)
    requires Copies(phys, own, free, phys', own', free', d)
    ensures free' <= free && forall f :: f in own ==> f in own' && own'[f] == own[f]
  {
  }

  lemma OwnedFrame(phys: Memory, own: Ownership, free: set<nat>, f: nat)
    requires Wf(phys, own, free) && f in own
    ensures 0 < f < MAX_FRAMES && f !in free && (own[f].level >= 1 ==> IsTable(phys[f])) && (own[f].level == 0 ==> IsData(phys[f]))
  {
  }

  /** Filling the fresh table `g` below `d` is, seen from before, still a step of copying `d`. */
  lemma NestedCopies(p0: Memory, o0: Ownership, f0: set<nat>, p1: Memory, o1: Ownership, f1: set<nat>,
                     p2: Memory, o2: Ownership, f2: set<nat>, d: nat, g: nat)
    requires Copies(p0, o0, f0, p1, o1, f1, d) && Copies(p1, o1, f1, p2, o2, f2, g)
    requires g in f0 && g !in f1 && d !in f0 && d != g && d < MAX_FRAMES
    ensures Copies(p0, o0, f0, p2, o2, f2, d)
    ensures p2[d] == p1[d]
    ensures forall j :: At(p2, d, j) == At(p1, d, j)
    ensures forall f :: f in o0 ==> f in o2 && o2[f] == o0[f]
  {
  }

  // ----- Whole address spaces -----

  /**
   A new space with an empty user half and the kernel half of the boot PML4.  The source does
   not look at the result of the allocation, so a free frame is required.
   */
  method CloneKernelAddressSpace(v: Vmm) returns (root: nat)
    requires v.Valid() && v.m.free != {}
    modifies v, v.m, v.m.bitmap
    ensures v.Valid()
    ensures root in old(v.m.free) && v.m.free == old(v.m.free) - {root}
    ensures v.own == old(v.own)[root := Node(4, 0, 0)]
    ensures forall f :: 0 <= f < MAX_FRAMES && f != root ==> v.m.phys[f] == old(v.m.phys)[f]
    ensures forall j :: 0 <= j < 256 ==> At(v.m.phys, root, j) == ZERO_ENTRY
    ensures forall j :: 256 <= j < ENTRIES ==> At(v.m.phys, root, j) == At(old(v.m.phys), v.kernelPml4, j)
    ensures Open(old(v.m.phys), old(v.own)) ==> Open(v.m.phys, v.own)
  {
    hide Machine.Valid, Linked, Open;
    root := v.m.AllocFrame();
    v.m.phys := v.m.phys[root := Blank];
    for i := 256 to 512
      invariant v.m.Valid() && v.m.free == old(v.m.free) - {root} && v.own == old(v.own)
      invariant forall f :: 0 <= f < MAX_FRAMES && f != root ==> v.m.phys[f] == old(v.m.phys)[f]
      invariant IsTable(v.m.phys[root])
      invariant forall j :: 0 <= j < ENTRIES ==>
                  At(v.m.phys, root, j) == if 256 <= j < i then At(old(v.m.phys), v.kernelPml4, j) else ZERO_ENTRY
    {
      v.m.phys := Put(v.m.phys, root, i, EntryOf(v.m.phys[v.kernelPml4], i));
    }
    NewRoot(old(v.m.phys), v.own, old(v.m.free), v.m.phys, root, v.kernelPml4);
    v.own := v.own[root := Node(4, 0, 0)];
  }

  lemma RootOpen(phys: Memory, own: Ownership, phys': Memory, root: nat)
    requires forall f :: 0 <= f < MAX_FRAMES && f != root ==> phys'[f] == phys[f]
    requires forall j :: 0 <= j < 256 ==> At(phys', root, j) == ZERO_ENTRY
    ensures Open(phys, own) ==> Open(phys', own[root := Node(4, 0, 0)])
  {
    var own' := own[root := Node(4, 0, 0)];
    if Open(phys, own) {
      forall f, i: nat | f in own' && own'[f].level >= 2 && i < Span(own'[f].level)
        ensures Passes(At(phys', f, i), own'[f].level)
      {
        if f != root { OpenAt(phys, own, f, i); }
      }
    }
  }

  lemma NewRoot(phys: Memory, own: Ownership, free: set<nat>, phys': Memory, root: nat, kernel: nat)
    requires Good(phys, own, free, kernel) && root in free && 0 < root < MAX_FRAMES
    requires forall f :: 0 <= f < MAX_FRAMES && f != root ==> phys'[f] == phys[f]
    requires IsTable(phys'[root])
    requires forall j :: 0 <= j < 256 ==> At(phys', root, j) == ZERO_ENTRY
    requires forall j :: 256 <= j < ENTRIES ==> At(phys', root, j) == At(phys, kernel, j)
    ensures Good(phys', own[root := Node(4, 0, 0)], free - {root}, kernel)
    ensures Open(phys, own) ==> Open(phys', own[root := Node(4, 0, 0)])
  {
    hide Open;
    var own' := own[root := Node(4, 0, 0)];
    RootOpen(phys, own, phys', root);
    forall f, j: nat | f in own' && own'[f].level >= 1 && j < Span(own'[f].level)
      ensures Linked(phys', own', f, j)
    {
      if f != root { assert Linked(phys, own, f, j); }
    }
    forall r: nat, i: nat | IsRoot(own', r) && 256 <= i < ENTRIES
      ensures At(phys', r, i) == At(phys', kernel, i)
    {
      assert r != root ==> IsRoot(own, r) && At(phys, r, i) == At(phys, kernel, i);
    }
  }

  /** How a page of the child relates to the same page of the parent. */
  ghost predicate DeepCopied(phys: Memory, parent: Lookup, child: Lookup, pool: set<nat>) {
    match parent
    case Absent => child.Absent?
    case HugePage(e) => child == parent
    case Mapped(a) =>
      && child.Mapped?
      && child.entry == a.(frame := child.entry.frame)
      && a.frame < MAX_FRAMES && child.entry.frame < MAX_FRAMES
      && child.entry.frame in pool
      && phys[child.entry.frame] == phys[a.frame]
  }

  /** A copied table makes every page below it a deep copy. */
  lemma {:induction false} CopyWalk(phys: Memory, level: nat, s: nat, d: nat, p: Page, pool: set<nat>)
    requires 1 <= level <= 4 && CopyOf(phys, level, s, d, pool) && UserPage(p)
    ensures DeepCopied(phys, Walk(phys, level, s, p), Walk(phys, level, d, p), pool)
  {
    var i := Index(p, level);
    assert CopyEntry(phys, level, s, d, i, pool);
    var a, b := At(phys, s, i), At(phys, d, i);
    if level > 1 && a.present && !(level == 2 && a.huge) {
      CopyWalk(phys, level - 1, a.frame, b.frame, p, pool);
    }
  }

  /** Every table and every page frame the child reaches below its root is fresh. */
  lemma {:induction false} CopyReach(phys: Memory, s: nat, d: nat, p: Page, level: nat, pool: set<nat>)
    requires CopyOf(phys, 4, s, d, pool) && UserPage(p) && level <= 4
    requires Reach(phys, d, p, level).Some?
    ensures Reach(phys, s, p, level).Some?
    ensures level < 4 ==> Reach(phys, d, p, level).value in pool
    ensures level >= 1 ==> CopyOf(phys, level, Reach(phys, s, p, level).value, Reach(phys, d, p, level).value, pool)
    decreases 4 - level
  {
    if level < 4 {
      CopyReach(phys, s, d, p, level + 1, pool);
      var s1, d1 := Reach(phys, s, p, level + 1).value, Reach(phys, d, p, level + 1).value;
      assert CopyEntry(phys, level + 1, s1, d1, Index(p, level + 1), pool);
    }
  }

  /** Pages of the kernel half look the same in spaces whose roots agree there. */
  lemma KernelHalfView(phys: Memory, r: nat, s: nat, q: Page)
    requires 256 <= q.i4 < ENTRIES && At(phys, r, q.i4) == At(phys, s, q.i4)
    ensures View(phys, r, q) == View(phys, s, q)
  {
  }

  /**
   Fork: the child maps exactly the pages the parent maps, with the same flags and the same
   bytes, in frames that were free before; every space that existed before, the parent
   included, is untouched; and the kernel half is the parent's.
   */
  method CloneUserAddressSpace(v: Vmm, src: nat) returns (ok: bool, child: nat)
    requires v.Valid() && IsRoot(v.own, src) && v.m.free != {}
    modifies v, v.m, v.m.bitmap
    ensures v.Valid()
    ensures v.m.free <= old(v.m.free)
    ensures child in old(v.m.free) && IsRoot(v.own, child)
    ensures !ok ==> v.m.free == {}
    ensures forall f :: f in old(v.own) ==> f in v.own && v.own[f] == old(v.own)[f]
    ensures forall f :: 0 <= f < MAX_FRAMES && f !in old(v.m.free) ==> v.m.phys[f] == old(v.m.phys)[f]
    ensures forall f :: f in v.own ==> f in old(v.own) || (f in old(v.m.free) && (f == child || v.own[f].level < 4))
    ensures SameView(old(v.m.phys), old(v.own), v.m.phys)
    ensures Open(old(v.m.phys), old(v.own)) ==> Open(v.m.phys, v.own)
    ensures forall q: Page :: 256 <= q.i4 < ENTRIES ==> View(v.m.phys, child, q) == View(v.m.phys, src, q)
    ensures ok ==> forall q: Page :: UserPage(q) ==>
              DeepCopied(v.m.phys, View(v.m.phys, src, q), View(v.m.phys, child, q), old(v.m.free))
    ensures ok ==> forall q: Page, k: nat :: UserPage(q) && k <= 4 && Reach(v.m.phys, child, q, k).Some? ==>
              Reach(v.m.phys, child, q, k).value in old(v.m.free)
  {
    hide Open;
    child := CloneKernelAddressSpace(v);
    ghost var p1, o1, f1 := v.m.phys, v.own, v.m.free;
    OwnedFrame(old(v.m.phys), old(v.own), old(v.m.free), src);
    ok := CloneTable(v, 4, src, child, old(v.m.free));
    ForkResult(old(v.m.phys), old(v.own), old(v.m.free), p1, o1, f1, v.m.phys, v.own, v.m.free, src, child, v.kernelPml4);
    if ok {
      ForkCopies(v.m.phys, src, child, old(v.m.free));
    }
  }

  lemma ForkResult(p0: Memory, o0: Ownership, f0: set<nat>, p1: Memory, o1: Ownership, f1: set<nat>,
                   p2: Memory, o2: Ownership, f2: set<nat>, src: nat, child: nat, kernel: nat)
    requires Good(p0, o0, f0, kernel) && Good(p2, o2, f2, kernel) && IsRoot(o0, src) && child in f0
    requires f1 == f0 - {child} && o1 == o0[child := Node(4, 0, 0)]
    requires forall f :: 0 <= f < MAX_FRAMES && f != child ==> p1[f] == p0[f]
    requires Copies(p1, o1, f1, p2, o2, f2, child)
    ensures f2 <= f0 && IsRoot(o2, child)
    ensures forall f :: f in o0 ==> f in o2 && o2[f] == o0[f]
    ensures forall f :: 0 <= f < MAX_FRAMES && f !in f0 ==> p2[f] == p0[f]
    ensures forall f :: f in o2 ==> f in o0 || (f in f0 && (f == child || o2[f].level < 4))
    ensures SameView(p0, o0, p2)
    ensures forall q: Page :: 256 <= q.i4 < ENTRIES ==> View(p2, child, q) == View(p2, src, q)
  {
    forall f | 0 <= f < MAX_FRAMES && f !in f0
      ensures p2[f] == p0[f]
    {
      assert p1[f] == p0[f];
    }
    forall r, q | IsRoot(o0, r) && UserPage(q)
      ensures View(p2, r, q) == View(p0, r, q)
    {
      TablesStable(p0, p2, o0, f0, r, q);
    }
    forall q: Page | 256 <= q.i4 < ENTRIES
      ensures View(p2, child, q) == View(p2, src, q)
    {
      assert IsRoot(o2, src) && IsRoot(o2, child);
      KernelHalfView(p2, child, src, q);
    }
  }

  lemma ForkCopies(phys: Memory, src: nat, child: nat, pool: set<nat>)
    requires CopyOf(phys, 4, src, child, pool) && child in pool
    ensures forall q: Page :: UserPage(q) ==> DeepCopied(phys, View(phys, src, q), View(phys, child, q), pool)
    ensures forall q: Page, k: nat :: UserPage(q) && k <= 4 && Reach(phys, child, q, k).Some? ==>
              Reach(phys, child, q, k).value in pool
  {
    forall q: Page | UserPage(q)
      ensures DeepCopied(phys, View(phys, src, q), View(phys, child, q), pool)
    {
      CopyWalk(phys, 4, src, child, q, pool);
    }
    forall q: Page, k: nat | UserPage(q) && k <= 4 && Reach(phys, child, q, k).Some?
      ensures Reach(phys, child, q, k).value in pool
    {
      CopyReach(phys, src, child, q, k, pool);
    }
  }
}
