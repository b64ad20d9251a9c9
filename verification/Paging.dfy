/**
 The four-level page tables of kernel/src/arch/amd64/paging.rs.

 Tables are ordinary physical frames.  `Ownership` records, for every frame that is part of the
 user half of some address space, its place in that space: its level (4 = PML4 ... 1 = page
 table, 0 = a mapped page), the table that points at it and the index of the pointing entry.
 A place is a function of the frame, so two entries that name the same frame must be the same
 entry: separation of the trees needs no further statement.
 */
module Paging {
  import opened Physical
  import opened Pmm

  /** The four table indices of a virtual page. */
  datatype Page = Page(i4: nat, i3: nat, i2: nat, i1: nat)

  datatype MapFlags = MapFlags(writable: bool, user: bool, executable: bool)

  /** Indices taken from a virtual address by shifting and masking with 0x1FF. */
  function PageOf(virt: nat): Page {
    Page(virt / 0x80_0000_0000 % 512, virt / 0x4000_0000 % 512, virt / 0x20_0000 % 512, virt / 0x1000 % 512)
  }

  predicate UserPage(p: Page) {
    p.i4 < 256 && p.i3 < ENTRIES && p.i2 < ENTRIES && p.i1 < ENTRIES
  }

  function Index(p: Page, level: nat): nat
    requires 1 <= level <= 4
  {
    if level == 4 then p.i4 else if level == 3 then p.i3 else if level == 2 then p.i2 else p.i1
  }

  lemma PageOfUser(virt: nat)
    requires virt < USER_TOP
    ensures UserPage(PageOf(virt))
  {
  }

  /** Distinct user pages have distinct indices. */
  lemma PageOfInjective(v: nat, w: nat)
    requires v < USER_TOP && w < USER_TOP
    requires PageOf(v) == PageOf(w)
    ensures v / PAGE_SIZE == w / PAGE_SIZE
  {
    PageNumber(v);
    PageNumber(w);
  }

  lemma PageNumber(v: nat)
    requires v < USER_TOP
    ensures v / PAGE_SIZE ==
            ((PageOf(v).i4 * 512 + PageOf(v).i3) * 512 + PageOf(v).i2) * 512 + PageOf(v).i1
  {
    var n := v / 0x1000;
    assert v / 0x20_0000 == n / 512;
    assert v / 0x4000_0000 == n / 512 / 512;
    assert v / 0x80_0000_0000 == n / 512 / 512 / 512;
  }

  // ----- Table entries in memory -----

  /** Entry `i` of frame `f`, read as a table. */
  ghost function At(phys: Memory, f: nat, i: nat): Entry {
    if f < MAX_FRAMES && i < ENTRIES && IsTable(phys[f]) then EntryOf(phys[f], i) else ZERO_ENTRY
  }

  predicate IsTable(fr: Frame) { fr.Blank? || fr.Table? }
  predicate IsData(fr: Frame) { fr.Blank? || fr.Data? }

  /** Memory after entry `i` of table `f` has been overwritten. */
  function Put(phys: Memory, f: nat, i: nat, e: Entry): (r: Memory)
    requires f < MAX_FRAMES && i < ENTRIES && IsTable(phys[f])
    ensures forall g :: 0 <= g < MAX_FRAMES && g != f ==> r[g] == phys[g]
    ensures IsTable(r[f])
    ensures forall g, j :: At(r, g, j) == if g == f && j == i then e else At(phys, g, j)
  {
    phys[f := WithEntry(phys[f], i, e)]
  }

  // ----- Walking the tables -----

  datatype Lookup = Absent | HugePage(entry: Entry) | Mapped(entry: Entry)

  /** What the tables rooted at `t`, a table of level `level`, say about a page. */
  ghost function Walk(phys: Memory, level: nat, t: nat, p: Page): Lookup
    requires 1 <= level <= 4
  {
    var e := At(phys, t, Index(p, level));
    if !e.present then Absent
    else if level == 1 then Mapped(e)
    else if level == 2 && e.huge then HugePage(e)
    else Walk(phys, level - 1, e.frame, p)
  }

  /** What address space `root` says about a page. */
  ghost function View(phys: Memory, root: nat, p: Page): Lookup {
    Walk(phys, 4, root, p)
  }

  /** The frame of level `level` on the path of page `p`. */
  ghost function Reach(phys: Memory, root: nat, p: Page, level: nat): Option<nat>
    requires level <= 4
    decreases 4 - level
  {
    if level == 4 then Some(root)
    else match Reach(phys, root, p, level + 1)
         case None => None
         case Some(t) =>
           var e := At(phys, t, Index(p, level + 1));
           if e.present && !(level == 1 && e.huge) then Some(e.frame) else None
  }

  lemma {:induction false} WalkFromReach(phys: Memory, root: nat, p: Page, level: nat)
    requires 1 <= level <= 4 && Reach(phys, root, p, level).Some?
    ensures View(phys, root, p) == Walk(phys, level, Reach(phys, root, p, level).value, p)
    decreases 4 - level
  {
    if level < 4 {
      WalkFromReach(phys, root, p, level + 1);
    }
  }

  // ----- Ownership -----

  datatype Node = Node(level: nat, parent: nat, idx: nat)
  type Ownership = map<nat, Node>

  /** Number of entries of a table that belong to user space. */
  function Span(level: nat): nat { if level == 4 then 256 else ENTRIES }

  /** Entry `i` of the owned table `f` is empty, a huge page, or names the frame that sits below it. */
  ghost predicate Linked(phys: Memory, own: Ownership, f: nat, i: nat)
    requires f in own && own[f].level >= 1
  {
    var e := At(phys, f, i);
    var level := own[f].level;
    || e == ZERO_ENTRY
    || (e.present && level == 2 && e.huge)
    || (&& e.present
        && e.frame in own && own[e.frame] == Node(level - 1, f, i)
        && (level >= 2 ==> !e.nx && e.high == 0))
  }

  /** The user halves of all address spaces are well-formed, separate trees of used frames. */
  ghost predicate Wf(phys: Memory, own: Ownership, free: set<nat>) {
    && (forall f :: f in own ==> 0 < f < MAX_FRAMES && f !in free && own[f].level <= 4)
    && (forall f :: f in own && own[f].level >= 1 ==> IsTable(phys[f]))
    && (forall f :: f in own && own[f].level == 0 ==> IsData(phys[f]))
    && (forall f, i: nat :: f in own && own[f].level >= 1 && i < Span(own[f].level) ==> Linked(phys, own, f, i))
  }

  ghost predicate IsRoot(own: Ownership, r: nat) { r in own && own[r].level == 4 }

  /** A frame on a user path is owned, at the place the path gives it. */
  lemma {:induction false} ReachOwned(phys: Memory, own: Ownership, free: set<nat>, root: nat, p: Page, level: nat)
    requires Wf(phys, own, free) && IsRoot(own, root) && UserPage(p)
    requires level <= 4 && Reach(phys, root, p, level).Some?
    ensures var t := Reach(phys, root, p, level).value;
            && t in own && own[t].level == level
            && (level < 4 ==> && Reach(phys, root, p, level + 1) == Some(own[t].parent)
                              && own[t].idx == Index(p, level + 1))
    decreases 4 - level
  {
    if level < 4 {
      ReachOwned(phys, own, free, root, p, level + 1);
      var up := Reach(phys, root, p, level + 1).value;
      assert Linked(phys, own, up, Index(p, level + 1));
    }
  }

  /**
   No aliasing: if two user paths meet in a frame, they start in the same space and agree on
   every index above it.  At level 0: no two mapped pages share a frame.
   */
  lemma {:induction false} ReachUnique(phys: Memory, own: Ownership, free: set<nat>,
                                       r: nat, p: Page, s: nat, q: Page, level: nat)
    requires Wf(phys, own, free) && IsRoot(own, r) && IsRoot(own, s) && UserPage(p) && UserPage(q)
    requires level <= 4 && Reach(phys, r, p, level).Some?
    requires Reach(phys, r, p, level) == Reach(phys, s, q, level)
    ensures r == s && forall k :: level < k <= 4 ==> Index(p, k) == Index(q, k)
    decreases 4 - level
  {
    if level < 4 {
      ReachOwned(phys, own, free, r, p, level);
      ReachOwned(phys, own, free, s, q, level);
      ReachUnique(phys, own, free, r, p, s, q, level + 1);
    }
  }

  /** Paths that meet in a mapped page are the same page of the same space. */
  lemma LeafUnique(phys: Memory, own: Ownership, free: set<nat>, r: nat, p: Page, s: nat, q: Page)
    requires Wf(phys, own, free) && IsRoot(own, r) && IsRoot(own, s) && UserPage(p) && UserPage(q)
    requires Reach(phys, r, p, 0).Some? && Reach(phys, r, p, 0) == Reach(phys, s, q, 0)
    ensures r == s && p == q
  {
    ReachUnique(phys, own, free, r, p, s, q, 0);
    assert Index(p, 1) == Index(q, 1) && Index(p, 2) == Index(q, 2);
    assert Index(p, 3) == Index(q, 3) && Index(p, 4) == Index(q, 4);
  }

  /** A page is mapped exactly when its path reaches level 0, and the entry names that frame. */
  lemma ViewReach(phys: Memory, root: nat, p: Page)
    ensures View(phys, root, p).Mapped? <==> Reach(phys, root, p, 0).Some?
    ensures View(phys, root, p).Mapped? ==>
              && View(phys, root, p).entry.frame == Reach(phys, root, p, 0).value
              && Reach(phys, root, p, 1).Some?
              && View(phys, root, p).entry == At(phys, Reach(phys, root, p, 1).value, p.i1)
  {
    if Reach(phys, root, p, 1).Some? {
      WalkFromReach(phys, root, p, 1);
    } else if Reach(phys, root, p, 2).Some? {
      WalkFromReach(phys, root, p, 2);
    } else if Reach(phys, root, p, 3).Some? {
      WalkFromReach(phys, root, p, 3);
    }
  }

  // ----- Effect of a single write on all walks -----

  /** A path that does not read entry (t, i) is not affected when that entry changes. */
  ghost predicate Reads(phys: Memory, level: nat, x: nat, q: Page, t: nat, i: nat)
    requires 1 <= level <= 4
  {
    || (x == t && Index(q, level) == i)
    || (var e := At(phys, x, Index(q, level));
        level > 1 && e.present && !(level == 2 && e.huge) && Reads(phys, level - 1, e.frame, q, t, i))
  }

  lemma {:induction false} WalkAvoids(phys: Memory, phys': Memory, own: Ownership, free: set<nat>,
                                      level: nat, x: nat, q: Page, t: nat, i: nat)
    requires Wf(phys, own, free) && x in own && own[x].level == level && 1 <= level <= 4 && UserPage(q)
    requires forall f, j :: f in own && own[f].level >= 1 && !(f == t && j == i) ==> At(phys', f, j) == At(phys, f, j)
    requires !Reads(phys, level, x, q, t, i)
    ensures Walk(phys', level, x, q) == Walk(phys, level, x, q)
  {
    var e := At(phys, x, Index(q, level));
    assert Linked(phys, own, x, Index(q, level));
    if level > 1 && e.present && !(level == 2 && e.huge) {
      WalkAvoids(phys, phys', own, free, level - 1, e.frame, q, t, i);
    }
  }

  /** A user path reads entry (t, i) of an owned table only if it reaches `t` from the root. */
  lemma {:induction false} ReadsReach(phys: Memory, own: Ownership, free: set<nat>,
                                      root: nat, level: nat, x: nat, q: Page, t: nat, i: nat)
    requires Wf(phys, own, free) && IsRoot(own, root) && UserPage(q) && t in own
    requires 1 <= level <= 4 && Reach(phys, root, q, level) == Some(x)
    requires Reads(phys, level, x, q, t, i)
    ensures 1 <= own[t].level <= level
    ensures Reach(phys, root, q, own[t].level) == Some(t) && Index(q, own[t].level) == i
    decreases level
  {
    ReachOwned(phys, own, free, root, q, level);
    if !(x == t && Index(q, level) == i) {
      var e := At(phys, x, Index(q, level));
      assert Reach(phys, root, q, level - 1) == Some(e.frame);
      ReadsReach(phys, own, free, root, level - 1, e.frame, q, t, i);
    }
  }

  /** Spaces whose tables were not written look as before. */
  lemma TablesStable(phys: Memory, phys': Memory, own: Ownership, free: set<nat>, r: nat, q: Page)
    requires Wf(phys, own, free) && IsRoot(own, r) && UserPage(q)
    requires forall f :: f in own && f < MAX_FRAMES && own[f].level >= 1 ==> phys'[f] == phys[f]
    ensures View(phys', r, q) == View(phys, r, q)
  {
    if Reads(phys, 4, r, q, r, ENTRIES) {
      ReadsReach(phys, own, free, r, 4, r, q, r, ENTRIES);
    }
    WalkAvoids(phys, phys', own, free, 4, r, q, r, ENTRIES);
  }

  /** The entry written for a freshly allocated lower table. */
  function TableEntry(t: nat, user: bool): Entry {
    Entry(true, true, user, false, false, t, 0, 0)
  }

  /** The entry written for a mapped page. */
  function LeafEntry(frame: nat, flags: MapFlags): Entry {
    Entry(true, flags.writable, flags.user, false, !flags.executable, frame, 0, 0)
  }

  /** Linking a fresh, empty table below an empty entry keeps the trees well-formed. */
  lemma LinkTable(phys: Memory, own: Ownership, free: set<nat>, t: nat, i: nat, g: nat, e: Entry)
    requires Wf(phys, own, free) && t in own && 2 <= own[t].level && i < Span(own[t].level)
    requires At(phys, t, i) == ZERO_ENTRY
    requires g in free && 0 < g < MAX_FRAMES
    requires e.present && e.frame == g && !e.nx && e.high == 0
    ensures Wf(Put(phys[g := Blank], t, i, e), own[g := Node(own[t].level - 1, t, i)], free - {g})
  {
    var own' := own[g := Node(own[t].level - 1, t, i)];
    var phys' := Put(phys[g := Blank], t, i, e);
    forall f, j: nat | f in own' && own'[f].level >= 1 && j < Span(own'[f].level)
      ensures Linked(phys', own', f, j)
    {
      if f == g {
        assert At(phys', f, j) == ZERO_ENTRY;
      } else {
        assert Linked(phys, own, f, j);
      }
    }
  }

  /** ... and no page looks any different, in any space. */
  lemma LinkTableView(phys: Memory, own: Ownership, free: set<nat>, t: nat, i: nat, g: nat, e: Entry, r: nat, q: Page)
    requires Wf(phys, own, free) && t in own && 2 <= own[t].level && i < Span(own[t].level)
    requires At(phys, t, i) == ZERO_ENTRY
    requires g in free && 0 < g < MAX_FRAMES
    requires e.present && e.frame == g && !e.huge
    requires IsRoot(own, r) && UserPage(q)
    ensures View(Put(phys[g := Blank], t, i, e), r, q) == View(phys, r, q)
  {
    LinkTableWalk(phys, own, free, t, i, g, e, 4, r, q);
  }

  lemma {:induction false} LinkTableWalk(phys: Memory, own: Ownership, free: set<nat>, t: nat, i: nat, g: nat, e: Entry,
                                         level: nat, x: nat, q: Page)
    requires Wf(phys, own, free) && t in own && 2 <= own[t].level && i < Span(own[t].level)
    requires At(phys, t, i) == ZERO_ENTRY
    requires g in free && 0 < g < MAX_FRAMES
    requires e.present && e.frame == g && !e.huge
    requires x in own && own[x].level == level && 1 <= level <= 4 && UserPage(q)
    ensures Walk(Put(phys[g := Blank], t, i, e), level, x, q) == Walk(phys, level, x, q)
    decreases level
  {
    var phys' := Put(phys[g := Blank], t, i, e);
    var j := Index(q, level);
    if x == t && j == i {
      assert At(phys', g, Index(q, level - 1)) == ZERO_ENTRY;
      assert Walk(phys', level - 1, g, q) == Absent;
    } else {
      var c := At(phys, x, j);
      assert At(phys', x, j) == c;
      assert Linked(phys, own, x, j);
      if level > 1 && c.present && !(level == 2 && c.huge) {
        LinkTableWalk(phys, own, free, t, i, g, e, level - 1, c.frame, q);
      }
    }
  }

  /** Rewriting the leaf entry of a page changes that page and nothing else, in any space. */
  lemma LeafWriteView(phys: Memory, own: Ownership, free: set<nat>, root: nat, p: Page, pt: nat, e: Entry, r: nat, q: Page)
    requires Wf(phys, own, free) && IsRoot(own, root) && UserPage(p)
    requires Reach(phys, root, p, 1) == Some(pt)
    requires IsRoot(own, r) && UserPage(q)
    requires pt in own && own[pt].level == 1
    ensures View(Put(phys, pt, p.i1, e), r, q) ==
            if r == root && q == p then (if e.present then Mapped(e) else Absent) else View(phys, r, q)
  {
    var phys' := Put(phys, pt, p.i1, e);
    if Reads(phys, 4, r, q, pt, p.i1) {
      ReadsReach(phys, own, free, r, 4, r, q, pt, p.i1);
      ReachUnique(phys, own, free, root, p, r, q, 1);
      assert Index(p, 2) == Index(q, 2) && Index(p, 3) == Index(q, 3) && Index(p, 4) == Index(q, 4);
      assert p == q;
      ReachStable(phys, phys', own, free, root, p, 1);
      WalkFromReach(phys', root, p, 1);
    } else {
      WalkAvoids(phys, phys', own, free, 4, r, q, pt, p.i1);
      if r == root && q == p {
        ReachReads(phys, root, p, 4);
      }
    }
  }

  /** The path of a page reads its own leaf entry. */
  lemma {:induction false} ReachReads(phys: Memory, root: nat, p: Page, level: nat)
    requires 1 <= level <= 4 && Reach(phys, root, p, 1).Some?
    ensures Reach(phys, root, p, level).Some?
    ensures Reads(phys, level, Reach(phys, root, p, level).value, p, Reach(phys, root, p, 1).value, p.i1)
  {
    if level > 1 {
      ReachReads(phys, root, p, level - 1);
      assert Reach(phys, root, p, level - 1).Some?;
      assert Reach(phys, root, p, level).Some?;
    }
  }

  /** Paths down to level 1 depend only on tables of level 2 and up. */
  lemma {:induction false} ReachStable(phys: Memory, phys': Memory, own: Ownership, free: set<nat>,
                                       root: nat, p: Page, level: nat)
    requires Wf(phys, own, free) && IsRoot(own, root) && UserPage(p) && 1 <= level <= 4
    requires forall f, j :: f in own && own[f].level >= 2 ==> At(phys', f, j) == At(phys, f, j)
    ensures Reach(phys', root, p, level) == Reach(phys, root, p, level)
    decreases 4 - level
  {
    if level < 4 {
      ReachStable(phys, phys', own, free, root, p, level + 1);
      if Reach(phys, root, p, level + 1).Some? {
        ReachOwned(phys, own, free, root, p, level + 1);
      }
    }
  }

  /** Pointing a leaf entry at a used frame nobody owns. */
  lemma MapLeaf(phys: Memory, own: Ownership, free: set<nat>, pt: nat, i: nat, frame: nat, e: Entry)
    requires Wf(phys, own, free) && pt in own && own[pt].level == 1 && i < ENTRIES
    requires frame !in own && frame !in free && 0 < frame < MAX_FRAMES && IsData(phys[frame])
    requires e.present && e.frame == frame
    ensures Wf(Put(phys, pt, i, e), own[frame := Node(0, pt, i)], free)
  {
    var own' := own[frame := Node(0, pt, i)];
    var phys' := Put(phys, pt, i, e);
    forall f, j: nat | f in own' && own'[f].level >= 1 && j < Span(own'[f].level)
      ensures Linked(phys', own', f, j)
    {
      assert Linked(phys, own, f, j);
    }
  }

  /** Clearing a leaf entry and giving up the frame it named. */
  lemma UnmapLeaf(phys: Memory, own: Ownership, free: set<nat>, pt: nat, i: nat)
    requires Wf(phys, own, free) && pt in own && own[pt].level == 1 && i < ENTRIES
    requires At(phys, pt, i).present
    ensures At(phys, pt, i).frame in own && own[At(phys, pt, i).frame] == Node(0, pt, i)
    ensures Wf(Put(phys, pt, i, ZERO_ENTRY), own - {At(phys, pt, i).frame}, free)
  {
    assert Linked(phys, own, pt, i);
    var frame := At(phys, pt, i).frame;
    var own' := own - {frame};
    var phys' := Put(phys, pt, i, ZERO_ENTRY);
    forall f, j: nat | f in own' && own'[f].level >= 1 && j < Span(own'[f].level)
      ensures Linked(phys', own', f, j)
    {
      assert Linked(phys, own, f, j);
    }
  }

  /** Changing a present leaf entry without moving it. */
  lemma ProtectLeaf(phys: Memory, own: Ownership, free: set<nat>, pt: nat, i: nat, e: Entry)
    requires Wf(phys, own, free) && pt in own && own[pt].level == 1 && i < ENTRIES
    requires At(phys, pt, i).present && e.present && e.frame == At(phys, pt, i).frame
    ensures Wf(Put(phys, pt, i, e), own, free)
  {
    var phys' := Put(phys, pt, i, e);
    forall f, j: nat | f in own && own[f].level >= 1 && j < Span(own[f].level)
      ensures Linked(phys', own, f, j)
    {
      assert Linked(phys, own, f, j);
    }
  }

  // ----- What a run of table operations keeps -----

  /**
   Between two states only fresh frames became owned (plus the frames in `taken`, which the
   caller had allocated), nothing owned was given up, mapped pages kept their contents, frames
   of no user space kept theirs, and so did the kernel half of every root.
   */
  ghost predicate Extends(phys: Memory, own: Ownership, free: set<nat>,
                          phys': Memory, own': Ownership, free': set<nat>, taken: set<nat>) {
    && free' <= free
    && (forall f :: f in own ==> f in own' && own'[f] == own[f])
    && (forall f :: f in own' ==> || f in own
                                  || (f in free && own'[f].level < 4)
                                  || (f in taken && own'[f].level == 0))
    && (forall f :: 0 <= f < MAX_FRAMES && f !in own && f !in free ==> phys'[f] == phys[f])
    && (forall f :: f in own && f < MAX_FRAMES && own[f].level == 0 ==> phys'[f] == phys[f])
    && (forall r, i :: IsRoot(own, r) && 256 <= i < ENTRIES ==> At(phys', r, i) == At(phys, r, i))
  }

  /** Every frame that left the free set became a table, or is one of `leaves`. */
  ghost predicate NewTables(own: Ownership, free: set<nat>, own': Ownership, free': set<nat>, leaves: set<nat>) {
    && (forall f :: f in free ==> f in free' || (f in own' && (own'[f].level >= 1 || f in leaves)))
    && (forall f :: f in own' && f !in own ==> own'[f].level >= 1 || f in leaves)
  }

  lemma NewTablesTransitive(o0: Ownership, f0: set<nat>, o1: Ownership, f1: set<nat>, o2: Ownership, f2: set<nat>, leaves: set<nat>)
    requires NewTables(o0, f0, o1, f1, leaves) && NewTables(o1, f1, o2, f2, leaves)
    requires forall f :: f in o1 ==> f in o2 && o2[f] == o1[f]
    ensures NewTables(o0, f0, o2, f2, leaves)
  {
  }

  /** No user page of any space looks different. */
  ghost predicate SameView(phys: Memory, own: Ownership, phys': Memory) {
    forall r, q :: IsRoot(own, r) && UserPage(q) ==> View(phys', r, q) == View(phys, r, q)
  }

  /** Exactly page `p` of space `root` changed, and now looks like `l`. */
  ghost predicate OnePageView(phys: Memory, own: Ownership, phys': Memory, root: nat, p: Page, l: Lookup) {
    forall r, q :: IsRoot(own, r) && UserPage(q) ==>
      View(phys', r, q) == if r == root && q == p then l else View(phys, r, q)
  }

  lemma OnePageAt(phys: Memory, own: Ownership, phys': Memory, root: nat, p: Page, l: Lookup)
    requires OnePageView(phys, own, phys', root, p, l) && IsRoot(own, root) && UserPage(p)
    ensures View(phys', root, p) == l
  {
  }

  lemma ExtendsTransitive(p0: Memory, o0: Ownership, f0: set<nat>, p1: Memory, o1: Ownership, f1: set<nat>,
                          p2: Memory, o2: Ownership, f2: set<nat>, taken: set<nat>)
    requires Extends(p0, o0, f0, p1, o1, f1, taken) && Extends(p1, o1, f1, p2, o2, f2, taken)
    requires taken !! f0
    ensures Extends(p0, o0, f0, p2, o2, f2, taken)
  {
  }

  lemma SameViewTransitive(p0: Memory, o0: Ownership, p1: Memory, o1: Ownership, p2: Memory)
    requires SameView(p0, o0, p1) && SameView(p1, o1, p2)
    requires forall f :: f in o0 ==> f in o1 && o1[f] == o0[f]
    ensures SameView(p0, o0, p2)
  {
  }

  /** All spaces are well-formed and share the kernel half of the boot PML4. */
  ghost predicate Good(phys: Memory, own: Ownership, free: set<nat>, kernel: nat) {
    && Wf(phys, own, free)
    && 0 < kernel < MAX_FRAMES && IsTable(phys[kernel]) && kernel !in own && kernel !in free
    && (forall r, i :: IsRoot(own, r) && 256 <= i < ENTRIES ==> At(phys, r, i) == At(phys, kernel, i))
  }

  lemma ExtendsGood(phys: Memory, own: Ownership, free: set<nat>,
                    phys': Memory, own': Ownership, free': set<nat>, taken: set<nat>, kernel: nat)
    requires Good(phys, own, free, kernel) && Extends(phys, own, free, phys', own', free', taken)
    requires Wf(phys', own', free') && kernel !in taken
    ensures Good(phys', own', free', kernel)
  {
  }

  /** The complete effect of linking a fresh table. */
  lemma LinkTableStep(phys: Memory, own: Ownership, free: set<nat>, t: nat, i: nat, g: nat, user: bool, kernel: nat)
    requires Good(phys, own, free, kernel) && t in own && 2 <= own[t].level && i < Span(own[t].level)
    requires At(phys, t, i) == ZERO_ENTRY && g in free && 0 < g < MAX_FRAMES
    ensures var phys' := Put(phys[g := Blank], t, i, TableEntry(g, user));
            var own' := own[g := Node(own[t].level - 1, t, i)];
            && Good(phys', own', free - {g}, kernel)
            && Extends(phys, own, free, phys', own', free - {g}, {})
            && SameView(phys, own, phys')
            && forall f, j :: f in own && !(f == t && j == i) ==> At(phys', f, j) == At(phys, f, j)
  {
    var e := TableEntry(g, user);
    var phys' := Put(phys[g := Blank], t, i, e);
    LinkTable(phys, own, free, t, i, g, e);
    forall r, q | IsRoot(own, r) && UserPage(q)
      ensures View(phys', r, q) == View(phys, r, q)
    {
      LinkTableView(phys, own, free, t, i, g, e, r, q);
    }
    ExtendsGood(phys, own, free, phys', own[g := Node(own[t].level - 1, t, i)], free - {g}, {}, kernel);
  }

  lemma NotOwned(phys: Memory, own: Ownership, free: set<nat>, g: nat)
    requires Wf(phys, own, free) && g in free
    ensures g !in own
  {
  }

  lemma NoStep(phys: Memory, own: Ownership, free: set<nat>)
    ensures Extends(phys, own, free, phys, own, free, {}) && SameView(phys, own, phys)
  {
  }

  // ----- What the processor allows -----

  /** A link to a lower table restricts nothing: user code may read, write and execute through it. */
  predicate Passes(e: Entry, level: nat) {
    e.present && !(level == 2 && e.huge) ==> e.user && e.writable && !e.nx
  }

  /** All links of all spaces pass. */
  ghost predicate Open(phys: Memory, own: Ownership) {
    forall f, i: nat :: f in own && own[f].level >= 2 && i < Span(own[f].level) ==> Passes(At(phys, f, i), own[f].level)
  }

  /** What user code may do with a page. */
  datatype Rights = Rights(read: bool, write: bool, execute: bool)

  /**
   The rights user code has to a page below table `t`: each level of the walk must grant them, as
   section 5.6 of volume 2 of the AMD64 Architecture Programmer's Manual describes.
   */
  ghost function RightsBelow(phys: Memory, level: nat, t: nat, p: Page): Rights
    requires 1 <= level <= 4
  {
    var e := At(phys, t, Index(p, level));
    if !e.present then Rights(false, false, false)
    else
      var here := Rights(e.user, e.user && e.writable, e.user && !e.nx);
      if level == 1 || (level == 2 && e.huge) then here
      else
        var below := RightsBelow(phys, level - 1, e.frame, p);
        Rights(here.read && below.read, here.write && below.write, here.execute && below.execute)
  }

  ghost function UserRights(phys: Memory, root: nat, p: Page): Rights { RightsBelow(phys, 4, root, p) }

  /** The rights a leaf entry alone would give. */
  function LeafRights(e: Entry): Rights { Rights(e.user, e.user && e.writable, e.user && !e.nx) }

  lemma {:induction false} RightsOfWalk(phys: Memory, own: Ownership, free: set<nat>, level: nat, t: nat, p: Page)
    requires Wf(phys, own, free) && Open(phys, own) && 1 <= level <= 4 && t in own && own[t].level == level && UserPage(p)
    ensures Walk(phys, level, t, p).Absent? ==> RightsBelow(phys, level, t, p) == Rights(false, false, false)
    ensures Walk(phys, level, t, p).Mapped? ==> RightsBelow(phys, level, t, p) == LeafRights(Walk(phys, level, t, p).entry)
    decreases level
  {
    hide Wf, Linked, Open;
    var i := Index(p, level);
    LinkedEntry(phys, own, free, t, i);
    var e := At(phys, t, i);
    if level > 1 && e.present && !(level == 2 && e.huge) {
      OpenAt(phys, own, t, i);
      RightsOfWalk(phys, own, free, level - 1, e.frame, p);
    }
  }

  lemma OpenAt(phys: Memory, own: Ownership, t: nat, i: nat)
    requires Open(phys, own) && t in own && own[t].level >= 2 && i < Span(own[t].level)
    ensures Passes(At(phys, t, i), own[t].level)
  {
  }

  /** If all links pass, the processor enforces exactly what the entry of a page says, and nothing else is accessible. */
  lemma RightsAreLeaf(phys: Memory, own: Ownership, free: set<nat>, root: nat, p: Page)
    requires Wf(phys, own, free) && Open(phys, own) && IsRoot(own, root) && UserPage(p)
    ensures View(phys, root, p).Absent? ==> UserRights(phys, root, p) == Rights(false, false, false)
    ensures View(phys, root, p).Mapped? ==> UserRights(phys, root, p) == LeafRights(View(phys, root, p).entry)
  {
    RightsOfWalk(phys, own, free, 4, root, p);
  }

  /** The processor enforces exactly what the entries of the space's pages say. */
  ghost predicate Enforced(phys: Memory, root: nat) {
    forall p: Page :: UserPage(p) ==>
      match View(phys, root, p)
      case Absent => UserRights(phys, root, p) == Rights(false, false, false)
      case Mapped(e) => UserRights(phys, root, p) == LeafRights(e)
      case HugePage(_) => true
  }

  lemma OpenEnforced(phys: Memory, own: Ownership, free: set<nat>, root: nat)
    requires Wf(phys, own, free) && Open(phys, own) && IsRoot(own, root)
    ensures Enforced(phys, root)
  {
    hide Wf, Open, View, UserRights;
    forall p: Page | UserPage(p)
      ensures View(phys, root, p).Absent? ==> UserRights(phys, root, p) == Rights(false, false, false)
      ensures View(phys, root, p).Mapped? ==> UserRights(phys, root, p) == LeafRights(View(phys, root, p).entry)
    {
      RightsAreLeaf(phys, own, free, root, p);
    }
  }

  /** Links pass while the tables that hold them are as they were. */
  lemma OpenTables(phys: Memory, own: Ownership, phys': Memory, own': Ownership)
    requires forall f :: f in own' && own'[f].level >= 2 ==> f in own && own[f].level == own'[f].level && (f < MAX_FRAMES ==> phys'[f] == phys[f])
    ensures Open(phys, own) ==> Open(phys', own')
  {
    if Open(phys, own) {
      forall f, i: nat | f in own' && own'[f].level >= 2 && i < Span(own'[f].level)
        ensures Passes(At(phys', f, i), own'[f].level)
      {
        OpenAt(phys, own, f, i);
      }
    }
  }

  lemma OpenLink(phys: Memory, own: Ownership, phys': Memory, t: nat, i: nat, g: nat, e: Entry)
    requires t in own && own[t].level >= 2 && g !in own && Passes(e, own[t].level) && At(phys', t, i) == e
    requires forall f, j :: f in own && !(f == t && j == i) ==> At(phys', f, j) == At(phys, f, j)
    requires forall j: nat :: j < ENTRIES ==> At(phys', g, j) == ZERO_ENTRY
    ensures Open(phys, own) ==> Open(phys', own[g := Node(own[t].level - 1, t, i)])
  {
    var own' := own[g := Node(own[t].level - 1, t, i)];
    if Open(phys, own) {
      forall f, j: nat | f in own' && own'[f].level >= 2 && j < Span(own'[f].level)
        ensures Passes(At(phys', f, j), own'[f].level)
      {
        if f != g && !(f == t && j == i) { OpenAt(phys, own, f, j); }
      }
    }
  }

  /** Writing an entry of a page table, which holds no links. */
  lemma OpenLeaf(phys: Memory, own: Ownership, free: set<nat>, pt: nat, i: nat, e: Entry, own': Ownership)
    requires Wf(phys, own, free) && pt in own && own[pt].level == 1 && i < ENTRIES
    requires forall f :: f in own' && own'[f].level >= 1 ==> f in own && own[f] == own'[f]
    ensures Open(phys, own) ==> Open(Put(phys, pt, i, e), own')
  {
    OpenTables(phys, own, Put(phys, pt, i, e), own');
  }

  /**
   The kernel's memory manager: physical memory, the frame allocator, the boot PML4 and (for
   the proofs) who owns which frame.
   */
  class Vmm {
    const m: Machine
    const kernelPml4: nat
    ghost var own: Ownership

    ghost predicate Valid()
      reads this, m, m.bitmap
    {
      m.Valid() && Good(m.phys, own, m.free, kernelPml4)
    }

    constructor (m: Machine, kernelPml4: nat)
      requires m.Valid() && 0 < kernelPml4 < MAX_FRAMES && kernelPml4 !in m.free
      requires IsTable(m.phys[kernelPml4])
      ensures Valid() && own == map[] && this.m == m && this.kernelPml4 == kernelPml4 && Open(m.phys, own)
    {
      this.m := m;
      this.kernelPml4 := kernelPml4;
      own := map[];
    }

    /**
     One level of map_page_in: an empty entry gets a fresh table below it.  The result is the
     entry that is there afterwards; `ok` is false when alloc_table panics.
     */
    method EnsureTable(t: nat, i: nat, user: bool) returns (ok: bool, e: Entry)
      requires Valid() && t in own && 2 <= own[t].level && i < Span(own[t].level)
      modifies this, m, m.bitmap
      ensures Valid()
      ensures Extends(old(m.phys), old(own), old(m.free), m.phys, own, m.free, {})
      ensures SameView(old(m.phys), old(own), m.phys)
      ensures NewTables(old(own), old(m.free), own, m.free, {})
      ensures forall f :: f in old(own) ==> f in own && own[f] == old(own)[f]
      ensures !ok ==> m.free == {}
      ensures if ok then m.freeFrames + 1 >= old(m.freeFrames) else old(m.freeFrames) == 0
      ensures ok ==> e == At(m.phys, t, i) && e.present
      ensures ok ==> e == if At(old(m.phys), t, i) == ZERO_ENTRY then TableEntry(e.frame, user) else At(old(m.phys), t, i)
      ensures user && Open(old(m.phys), old(own)) ==> Open(m.phys, own)
      ensures ok && At(old(m.phys), t, i) == ZERO_ENTRY ==>
                e.frame in old(m.free) && e.writable && e.user == user && !e.huge && !e.nx && e.low == 0 && e.high == 0
      ensures forall f, j :: f in old(own) && !(f == t && j == i) ==> At(m.phys, f, j) == At(old(m.phys), f, j)
    {
      hide Machine.Valid, Linked, Extends, SameView, Wf, Walk, View, Open;
      LinkedEntry(m.phys, own, m.free, t, i);
      e := EntryOf(m.phys[t], i);
      NoStep(m.phys, own, m.free);
      if e != ZERO_ENTRY {
        return true, e;
      }
      var g := m.AllocFrame();
      if g == 0 {
        return false, e;
      }
      NotOwned(old(m.phys), own, old(m.free), g);
      LinkTableStep(old(m.phys), own, old(m.free), t, i, g, user, kernelPml4);
      e := TableEntry(g, user);
      m.phys := Put(m.phys, t, i, e);
      if user { OpenLink(old(m.phys), own, m.phys, t, i, g, e); }
      own := own[g := Node(own[t].level - 1, t, i)];
      return true, e;
    }

    /** Makes sure the three upper levels of a page's path exist; returns its directory entry. */
    method EnsurePath(pml4: nat, p: Page, user: bool) returns (ok: bool, pd: nat, e2: Entry)
      requires Valid() && IsRoot(own, pml4) && UserPage(p)
      modifies this, m, m.bitmap
      ensures Valid()
      ensures Extends(old(m.phys), old(own), old(m.free), m.phys, own, m.free, {})
      ensures SameView(old(m.phys), old(own), m.phys)
      ensures NewTables(old(own), old(m.free), own, m.free, {})
      ensures forall f :: f in old(own) ==> f in own && own[f] == old(own)[f]
      ensures !ok ==> m.free == {}
      ensures if ok then m.freeFrames + 3 >= old(m.freeFrames) else old(m.freeFrames) < 3
      ensures ok ==> Reach(m.phys, pml4, p, 2) == Some(pd) && e2 == At(m.phys, pd, p.i2) && e2.present
      ensures ok ==> pd in own && own[pd].level == 2
      ensures user && Open(old(m.phys), old(own)) ==> Open(m.phys, own)
    {
      hide Machine.Valid, Linked, Extends, SameView, Wf, Walk, View, Put, NewTables, Open;
      var e4, e3;
      pd, e2 := 0, ZERO_ENTRY;
      ok, e4 := EnsureTable(pml4, p.i4, user);
      if !ok { return; }
      ghost var p1, o1, f1 := m.phys, own, m.free;
      LinkedEntry(m.phys, own, m.free, pml4, p.i4);
      ok, e3 := EnsureTable(e4.frame, p.i3, user);
      ghost var p2, o2, f2 := m.phys, own, m.free;
      ExtendsTransitive(old(m.phys), old(own), old(m.free), p1, o1, f1, p2, o2, f2, {});
      SameViewTransitive(old(m.phys), old(own), p1, o1, p2);
      NewTablesTransitive(old(own), old(m.free), o1, f1, o2, f2, {});
      if !ok { return; }
      LinkedEntry(m.phys, own, m.free, e4.frame, p.i3);
      pd := e3.frame;
      ok, e2 := EnsureTable(pd, p.i2, user);
      ExtendsTransitive(old(m.phys), old(own), old(m.free), p2, o2, f2, m.phys, own, m.free, {});
      SameViewTransitive(old(m.phys), old(own), p2, o2, m.phys);
      NewTablesTransitive(old(own), old(m.free), o2, f2, own, m.free, {});
      if ok {
        assert Reach(m.phys, pml4, p, 3) == Some(e4.frame);
      }
    }

    /**
     Maps a page.  The tables as a map from pages to entries change at that page only; every
     other page, including those that share tables with it, looks as before.  A huge page on
     the path makes the call a no-op; `ok` is false when alloc_table panics.
     */
    method MapPageIn(pml4: nat, virt: nat, frame: nat, flags: MapFlags) returns (ok: bool)
      requires Valid() && IsRoot(own, pml4) && virt < USER_TOP
      requires 0 < frame < MAX_FRAMES && frame !in own && frame !in m.free && frame != kernelPml4
      requires IsData(m.phys[frame])
      modifies this, m, m.bitmap
      ensures Valid()
      ensures Extends(old(m.phys), old(own), old(m.free), m.phys, own, m.free, {frame})
      ensures NewTables(old(own), old(m.free), own, m.free, {frame})
      ensures !ok ==> m.free == {}
      ensures if ok then m.freeFrames + 3 >= old(m.freeFrames) else old(m.freeFrames) < 3
      ensures !ok || View(old(m.phys), pml4, PageOf(virt)).HugePage? ==>
                SameView(old(m.phys), old(own), m.phys) && frame !in own
      ensures ok && !View(old(m.phys), pml4, PageOf(virt)).HugePage? ==>
                && OnePageView(old(m.phys), old(own), m.phys, pml4, PageOf(virt), Mapped(LeafEntry(frame, flags)))
                && frame in own && own[frame].level == 0
                && View(m.phys, pml4, PageOf(virt)).Mapped?
                && var e := View(m.phys, pml4, PageOf(virt)).entry;
                && e.present && e.frame == frame && e.writable == flags.writable && e.user == flags.user && e.nx == !flags.executable
                && !e.huge && e.low == 0 && e.high == 0
      ensures flags.user && Open(old(m.phys), old(own)) ==> Open(m.phys, own)
    {
      hide Machine.Valid, Linked, Extends, SameView, OnePageView, PageOf, Walk, View, Put, Wf, Reach, Open;
      PageOfUser(virt);
      var p := PageOf(virt);
      var pd, e2;
      ok, pd, e2 := EnsurePath(pml4, p, flags.user);
      TakenMore(old(m.phys), old(own), old(m.free), m.phys, own, m.free, frame);
      if !ok { return; }
      PathDown(m.phys, pml4, p, pd);
      SameViewAt(old(m.phys), old(own), m.phys, pml4, p);
      if e2.huge { return; }
      LinkedEntry(m.phys, own, m.free, pd, p.i2);
      var pt := e2.frame;
      MapLeafStep(old(m.phys), old(own), old(m.free), m.phys, own, m.free,
                  pml4, p, pt, frame, LeafEntry(frame, flags), kernelPml4);
      LinkedEntry(m.phys, own, m.free, pt, p.i1);
      m.phys := Put(m.phys, pt, p.i1, LeafEntry(frame, flags));
      own := own[frame := Node(0, pt, p.i1)];
      OnePageAt(old(m.phys), old(own), m.phys, pml4, p, Mapped(LeafEntry(frame, flags)));
    }

    /** The page table that holds a page's entry, if the three upper levels lead to one. */
    method PtePtr(pml4: nat, virt: nat) returns (pt: Option<nat>)
      requires Valid() && IsRoot(own, pml4) && virt < USER_TOP
      ensures pt == Reach(m.phys, pml4, PageOf(virt), 1)
      ensures pt.Some? ==> pt.value in own && own[pt.value].level == 1
    {
      hide Machine.Valid, Linked, PageOf, Walk, View, Wf;
      PageOfUser(virt);
      var p := PageOf(virt);
      LinkedEntry(m.phys, own, m.free, pml4, p.i4);
      var e4 := EntryOf(m.phys[pml4], p.i4);
      if !e4.present {
        assert Reach(m.phys, pml4, p, 3) == None;
        return None;
      }
      assert Reach(m.phys, pml4, p, 3) == Some(e4.frame);
      LinkedEntry(m.phys, own, m.free, e4.frame, p.i3);
      var e3 := EntryOf(m.phys[e4.frame], p.i3);
      if !e3.present {
        return None;
      }
      assert Reach(m.phys, pml4, p, 2) == Some(e3.frame);
      LinkedEntry(m.phys, own, m.free, e3.frame, p.i2);
      var e2 := EntryOf(m.phys[e3.frame], p.i2);
      if !e2.present || e2.huge {
        return None;
      }
      return Some(e2.frame);
    }

    /** Looks a page up; a huge page yields the address inside it. */
    method TranslatePage(pml4: nat, virt: nat) returns (r: Translation)
      requires Valid() && IsRoot(own, pml4) && virt < USER_TOP
      ensures r == match View(m.phys, pml4, PageOf(virt))
                   case Absent => NotMapped
                   case Mapped(e) => InFrame(e.frame)
                   case HugePage(e) => InHuge(e.frame * PAGE_SIZE + virt % 0x20_0000)
    {
      hide Machine.Valid, Linked, PageOf, Wf, View;
      PageOfUser(virt);
      var p := PageOf(virt);
      LinkedEntry(m.phys, own, m.free, pml4, p.i4);
      var e4 := EntryOf(m.phys[pml4], p.i4);
      ViewIsWalk(m.phys, pml4, p, 4);
      if !e4.present { return NotMapped; }
      LinkedEntry(m.phys, own, m.free, e4.frame, p.i3);
      var e3 := EntryOf(m.phys[e4.frame], p.i3);
      if !e3.present {
        assert Walk(m.phys, 3, e4.frame, p) == Absent;
        return NotMapped;
      }
      assert Walk(m.phys, 3, e4.frame, p) == Walk(m.phys, 2, e3.frame, p);
      LinkedEntry(m.phys, own, m.free, e3.frame, p.i2);
      var e2 := EntryOf(m.phys[e3.frame], p.i2);
      if !e2.present { return NotMapped; }
      if e2.huge { return InHuge(e2.frame * PAGE_SIZE + virt % 0x20_0000); }
      assert Walk(m.phys, 2, e3.frame, p) == Walk(m.phys, 1, e2.frame, p);
      LinkedEntry(m.phys, own, m.free, e2.frame, p.i1);
      var e1 := EntryOf(m.phys[e2.frame], p.i1);
      if !e1.present { return NotMapped; }
      return InFrame(e1.frame);
    }

    /** Removes a page from the map and hands its frame, no longer owned, to the caller. */
    method UnmapPageIn(pml4: nat, virt: nat) returns (frame: Option<nat>)
      requires Valid() && IsRoot(own, pml4) && virt < USER_TOP
      modifies this, m`phys
      ensures Valid() && m.free == old(m.free)
      ensures frame == match View(old(m.phys), pml4, PageOf(virt)) case Mapped(e) => Some(e.frame) case _ => None
      ensures frame.None? ==> m.phys == old(m.phys) && own == old(own)
      ensures frame.Some? ==>
                && frame.value in old(own) && old(own)[frame.value].level == 0 && frame.value != 0
                && own == old(own) - {frame.value}
                && OnePageView(old(m.phys), old(own), m.phys, pml4, PageOf(virt), Absent)
                && KeepsData(old(m.phys), old(own), m.phys)
      ensures Open(old(m.phys), old(own)) ==> Open(m.phys, own)
    {
      hide Machine.Valid, Linked, PageOf, Wf, View, Walk, Reach, Put, OnePageView, KeepsData, Open;
      PageOfUser(virt);
      ghost var p := PageOf(virt);
      ViewReach(m.phys, pml4, p);
      ReachStep(m.phys, pml4, p);
      var pt := PtePtr(pml4, virt);
      if pt.None? { return None; }
      var i1 := PageOf(virt).i1;
      LinkedEntry(m.phys, own, m.free, pt.value, i1);
      var e := EntryOf(m.phys[pt.value], i1);
      if !e.present { return None; }
      UnmapStep(m.phys, own, m.free, pml4, p, pt.value, kernelPml4);
      m.phys := Put(m.phys, pt.value, i1, ZERO_ENTRY);
      own := own - {e.frame};
      return Some(e.frame);
    }

    /** Changes the permissions of a mapped page and nothing else. */
    method ProtectPageIn(pml4: nat, virt: nat, flags: MapFlags) returns (ok: bool)
      requires Valid() && IsRoot(own, pml4) && virt < USER_TOP
      modifies this, m`phys
      ensures Valid() && m.free == old(m.free) && own == old(own)
      ensures ok == View(old(m.phys), pml4, PageOf(virt)).Mapped?
      ensures !ok ==> m.phys == old(m.phys)
      ensures ok ==> OnePageView(old(m.phys), own, m.phys, pml4, PageOf(virt),
                                 Mapped(WithFlags(View(old(m.phys), pml4, PageOf(virt)).entry, flags)))
      ensures ok ==> KeepsData(old(m.phys), old(own), m.phys)
      ensures ok ==>
                && View(m.phys, pml4, PageOf(virt)).Mapped?
                && var was, e := View(old(m.phys), pml4, PageOf(virt)).entry, View(m.phys, pml4, PageOf(virt)).entry;
                && e.writable == flags.writable && e.user == flags.user && e.nx == !flags.executable
                && e.present == was.present && e.frame == was.frame && e.huge == was.huge && e.low == was.low && e.high == was.high
      ensures Open(old(m.phys), own) ==> Open(m.phys, own)
    {
      hide Machine.Valid, Linked, PageOf, Wf, View, Walk, Reach, Put, OnePageView, KeepsData, Open;
      PageOfUser(virt);
      ghost var p := PageOf(virt);
      ViewReach(m.phys, pml4, p);
      ReachStep(m.phys, pml4, p);
      var pt := PtePtr(pml4, virt);
      if pt.None? { return false; }
      var i1 := PageOf(virt).i1;
      LinkedEntry(m.phys, own, m.free, pt.value, i1);
      var e := EntryOf(m.phys[pt.value], i1);
      if !e.present { return false; }
      ProtectStep(m.phys, own, m.free, pml4, p, pt.value, flags, kernelPml4);
      ghost var l := Mapped(WithFlags(View(m.phys, pml4, p).entry, flags));
      m.phys := Put(m.phys, pt.value, i1, WithFlags(e, flags));
      OnePageAt(old(m.phys), own, m.phys, pml4, p, l);
      return true;
    }
  }

  datatype Translation = NotMapped | InFrame(frame: nat) | InHuge(addr: nat)

  /** An entry with its permissions replaced. */
  function WithFlags(e: Entry, flags: MapFlags): Entry {
    e.(writable := flags.writable, user := flags.user, nx := !flags.executable)
  }

  /** Only tables were written: mapped pages and frames of no user space are as before. */
  ghost predicate KeepsData(phys: Memory, own: Ownership, phys': Memory) {
    forall f :: 0 <= f < MAX_FRAMES && (f !in own || own[f].level == 0) ==> phys'[f] == phys[f]
  }

  lemma ViewIsWalk(phys: Memory, root: nat, p: Page, level: nat)
    requires level == 4
    ensures View(phys, root, p) == Walk(phys, level, root, p)
  {
  }

  lemma ReachStep(phys: Memory, root: nat, p: Page)
    ensures Reach(phys, root, p, 0) ==
            match Reach(phys, root, p, 1)
            case None => None
            case Some(pt) => if At(phys, pt, p.i1).present then Some(At(phys, pt, p.i1).frame) else None
  {
  }

  /** The complete effect of a write to a leaf entry that leaves no dangling ownership. */
  lemma LeafStep(phys: Memory, own: Ownership, free: set<nat>, root: nat, p: Page, pt: nat, e: Entry,
                 own': Ownership, kernel: nat)
    requires Good(phys, own, free, kernel) && IsRoot(own, root) && UserPage(p)
    requires Reach(phys, root, p, 1) == Some(pt) && pt in own && own[pt].level == 1
    requires Wf(Put(phys, pt, p.i1, e), own', free)
    requires forall f :: f in own' ==> f in own && own'[f] == own[f]
    ensures Good(Put(phys, pt, p.i1, e), own', free, kernel)
    ensures OnePageView(phys, own, Put(phys, pt, p.i1, e), root, p, if e.present then Mapped(e) else Absent)
    ensures KeepsData(phys, own, Put(phys, pt, p.i1, e))
    ensures Open(phys, own) ==> Open(Put(phys, pt, p.i1, e), own')
  {
    hide Open;
    OpenLeaf(phys, own, free, pt, p.i1, e, own');
    var phys' := Put(phys, pt, p.i1, e);
    forall r, q | IsRoot(own, r) && UserPage(q)
      ensures View(phys', r, q) ==
              if r == root && q == p then (if e.present then Mapped(e) else Absent) else View(phys, r, q)
    {
      LeafWriteView(phys, own, free, root, p, pt, e, r, q);
    }
    forall r, i | IsRoot(own', r) && 256 <= i < ENTRIES
      ensures At(phys', r, i) == At(phys', kernel, i)
    {
      assert IsRoot(own, r);
      assert At(phys, r, i) == At(phys, kernel, i);
    }
  }

  lemma UnmapStep(phys: Memory, own: Ownership, free: set<nat>, root: nat, p: Page, pt: nat, kernel: nat)
    requires Good(phys, own, free, kernel) && IsRoot(own, root) && UserPage(p)
    requires Reach(phys, root, p, 1) == Some(pt) && pt in own && own[pt].level == 1
    requires At(phys, pt, p.i1).present
    ensures Good(Put(phys, pt, p.i1, ZERO_ENTRY), own - {At(phys, pt, p.i1).frame}, free, kernel)
    ensures OnePageView(phys, own, Put(phys, pt, p.i1, ZERO_ENTRY), root, p, Absent)
    ensures KeepsData(phys, own, Put(phys, pt, p.i1, ZERO_ENTRY))
    ensures At(phys, pt, p.i1).frame in own && own[At(phys, pt, p.i1).frame].level == 0
    ensures At(phys, pt, p.i1).frame != 0
    ensures Open(phys, own) ==> Open(Put(phys, pt, p.i1, ZERO_ENTRY), own - {At(phys, pt, p.i1).frame})
  {
    hide Open;
    UnmapLeaf(phys, own, free, pt, p.i1);
    LeafStep(phys, own, free, root, p, pt, ZERO_ENTRY, own - {At(phys, pt, p.i1).frame}, kernel);
  }

  lemma ProtectStep(phys: Memory, own: Ownership, free: set<nat>, root: nat, p: Page, pt: nat, flags: MapFlags, kernel: nat)
    requires Good(phys, own, free, kernel) && IsRoot(own, root) && UserPage(p)
    requires Reach(phys, root, p, 1) == Some(pt) && pt in own && own[pt].level == 1
    requires At(phys, pt, p.i1).present
    ensures var e := WithFlags(At(phys, pt, p.i1), flags);
            && Good(Put(phys, pt, p.i1, e), own, free, kernel)
            && OnePageView(phys, own, Put(phys, pt, p.i1, e), root, p, Mapped(e))
            && KeepsData(phys, own, Put(phys, pt, p.i1, e))
            && (Open(phys, own) ==> Open(Put(phys, pt, p.i1, e), own))
  {
    hide Open;
    var e := WithFlags(At(phys, pt, p.i1), flags);
    ProtectLeaf(phys, own, free, pt, p.i1, e);
    LeafStep(phys, own, free, root, p, pt, e, own, kernel);
  }

  /** The plain map from pages to entries that the tables of a space represent. */
  ghost function PageMap(phys: Memory, root: nat): imap<Page, Entry> {
    imap p: Page | UserPage(p) && View(phys, root, p).Mapped? :: View(phys, root, p).entry
  }

  /** A one-page change of the tables is one update, or one removal, of the map. */
  lemma OnePageMap(phys: Memory, own: Ownership, phys': Memory, root: nat, p: Page, l: Lookup)
    requires OnePageView(phys, own, phys', root, p, l) && IsRoot(own, root) && UserPage(p)
    ensures l.Mapped? ==> PageMap(phys', root) == PageMap(phys, root)[p := l.entry]
    ensures l.Absent? ==> PageMap(phys', root) == imap q | q in PageMap(phys, root) && q != p :: PageMap(phys, root)[q]
    ensures forall r :: IsRoot(own, r) && r != root ==> PageMap(phys', r) == PageMap(phys, r)
  {
  }

  lemma TakenMore(phys: Memory, own: Ownership, free: set<nat>,
                  phys': Memory, own': Ownership, free': set<nat>, frame: nat)
    requires Extends(phys, own, free, phys', own', free', {})
    requires frame !in own && frame !in free && frame < MAX_FRAMES
    ensures Extends(phys, own, free, phys', own', free', {frame})
    ensures frame !in own' && frame !in free' && phys'[frame] == phys[frame]
  {
  }

  lemma SameViewAt(phys: Memory, own: Ownership, phys': Memory, r: nat, q: Page)
    requires SameView(phys, own, phys') && IsRoot(own, r) && UserPage(q)
    ensures View(phys', r, q) == View(phys, r, q)
  {
  }

  /** Below a page directory entry there is a huge page or a page table. */
  lemma PathDown(phys: Memory, root: nat, p: Page, pd: nat)
    requires Reach(phys, root, p, 2) == Some(pd) && At(phys, pd, p.i2).present
    ensures At(phys, pd, p.i2).huge ==> View(phys, root, p) == HugePage(At(phys, pd, p.i2))
    ensures !At(phys, pd, p.i2).huge ==>
              Reach(phys, root, p, 1) == Some(At(phys, pd, p.i2).frame) && !View(phys, root, p).HugePage?
  {
    WalkFromReach(phys, root, p, 2);
  }

  /** The complete effect of writing the leaf entry of a page, from the state before the call. */
  lemma MapLeafStep(p0: Memory, o0: Ownership, f0: set<nat>, phys: Memory, own: Ownership, free: set<nat>,
                    root: nat, p: Page, pt: nat, frame: nat, e: Entry, kernel: nat)
    requires Extends(p0, o0, f0, phys, own, free, {frame}) && SameView(p0, o0, phys)
    requires Good(phys, own, free, kernel) && IsRoot(o0, root) && UserPage(p)
    requires Reach(phys, root, p, 1) == Some(pt)
    requires pt in own && own[pt].level == 1
    requires frame !in own && frame !in free && 0 < frame < MAX_FRAMES && frame != kernel && IsData(phys[frame])
    requires frame !in f0 && frame !in o0
    requires e.present && e.frame == frame
    ensures var phys' := Put(phys, pt, p.i1, e);
            var own' := own[frame := Node(0, pt, p.i1)];
            && Good(phys', own', free, kernel)
            && Extends(p0, o0, f0, phys', own', free, {frame})
            && OnePageView(p0, o0, phys', root, p, Mapped(e))
            && (Open(phys, own) ==> Open(phys', own'))
  {
    hide Open;
    var phys' := Put(phys, pt, p.i1, e);
    var own' := own[frame := Node(0, pt, p.i1)];
    OpenLeaf(phys, own, free, pt, p.i1, e, own');
    MapLeaf(phys, own, free, pt, p.i1, frame, e);
    forall r, q | IsRoot(o0, r) && UserPage(q)
      ensures View(phys', r, q) == if r == root && q == p then Mapped(e) else View(p0, r, q)
    {
      assert IsRoot(own, r) && IsRoot(own, root);
      LeafWriteView(phys, own, free, root, p, pt, e, r, q);
      assert View(phys, r, q) == View(p0, r, q);
    }
    assert Extends(phys, own, free, phys', own', free, {frame});
    ExtendsTransitive(p0, o0, f0, phys, own, free, phys', own', free, {frame});
    ExtendsGood(phys, own, free, phys', own', free, {frame}, kernel);
  }

  /** An entry of an owned table is empty or present; a present one leads one level down. */
  lemma LinkedEntry(phys: Memory, own: Ownership, free: set<nat>, t: nat, i: nat)
    requires Wf(phys, own, free) && t in own && own[t].level >= 1 && i < Span(own[t].level)
    ensures 0 < t < MAX_FRAMES && IsTable(phys[t])
    ensures var e := At(phys, t, i);
            && (e == ZERO_ENTRY || e.present)
            && (e.present && !(own[t].level == 2 && e.huge) ==>
                  && e.frame in own && own[e.frame] == Node(own[t].level - 1, t, i)
                  && (own[t].level >= 2 ==> !e.nx && e.high == 0))
  {
    assert Linked(phys, own, t, i);
  }
}
