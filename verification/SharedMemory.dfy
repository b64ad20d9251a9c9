/**
 The kernel heap and the address spaces on one machine: both take their frames from the one frame
 allocator (kernel/src/mem/heap.rs, kernel/src/arch/amd64/paging.rs and kernel/src/mem/pmm.rs).
 */
module SharedMemory {
  import opened Physical
  import opened Pmm
  import opened Paging
  import opened UserMemory
  import AS = AddressSpaces
  import H = Heap
  import Elf
  import VM = VirtualMemory

  // ----- What each side leaves to the other -----

  /** If only frames outside the trees were written, the trees and what they map are as before. */
  lemma TreesUntouched(phys: Memory, own: Ownership, free: set<nat>, phys': Memory, free': set<nat>, kernel: nat)
    requires Good(phys, own, free, kernel) && kernel !in free' && phys'[kernel] == phys[kernel]
    requires forall f :: f in own ==> f !in free' && (f < MAX_FRAMES ==> phys'[f] == phys[f])
    ensures Good(phys', own, free', kernel) && (Open(phys, own) ==> Open(phys', own))
    ensures forall r :: IsRoot(own, r) ==> AS.SameSpace(phys, phys', r)
  {
    hide View, UserByte, PageOf, Open;
    OpenTables(phys, own, phys', own);
    forall g, i: nat | g in own && own[g].level >= 1 && i < Span(own[g].level)
      ensures Linked(phys', own, g, i)
    {
      assert Linked(phys, own, g, i);
    }
    forall r: nat, i: nat | IsRoot(own, r) && 256 <= i < ENTRIES
      ensures At(phys', r, i) == At(phys', kernel, i)
    {
      assert At(phys, r, i) == At(phys, kernel, i);
    }
    forall r | IsRoot(own, r)
      ensures AS.SameSpace(phys, phys', r)
    {
      SpaceUntouched(phys, own, free, phys', r);
    }
  }

  lemma SpaceUntouched(phys: Memory, own: Ownership, free: set<nat>, phys': Memory, r: nat)
    requires Wf(phys, own, free) && IsRoot(own, r)
    requires forall f :: f in own && f < MAX_FRAMES ==> phys'[f] == phys[f]
    ensures AS.SameSpace(phys, phys', r)
  {
    hide PageOf;
    forall q | UserPage(q)
      ensures View(phys', r, q) == View(phys, r, q)
    {
      TablesStable(phys, phys', own, free, r, q);
    }
    forall va: nat | va < USER_TOP
      ensures UserByte(phys', r, va) == UserByte(phys, r, va)
    {
      PageOfUser(va);
      if View(phys, r, PageOf(va)).Mapped? { MappedFrame(phys, own, free, r, PageOf(va)); }
    }
  }

  lemma NoHugeKept(phys: Memory, phys': Memory, r: nat)
    requires AS.SameSpace(phys, phys', r) && NoHuge(phys, r)
    ensures NoHuge(phys', r)
  {
  }

  /** If the heap's frames were not written and not freed, it holds what it held. */
  lemma HeapUntouched(s: H.State, t: H.State, c: H.Client)
    requires H.HeapOk(s, None) && H.Represents(s, c) && t == s.(phys := t.phys, free := t.free)
    requires forall f :: f in s.owner ==> f !in t.free && (f < MAX_FRAMES ==> t.phys[f] == s.phys[f])
    ensures H.HeapOk(t, None) && H.Represents(t, c)
  {
    hide H.KeepsOthers, H.Serves, H.Holds;
    HeapStays(s, t);
    H.ZeroNotLive(s);
    H.FramesKeep(s, t, 0);
    H.OthersHeld(s, t, c, 0);
  }

  /** Calls leave the heap's frames alone, since they are neither free nor part of a space. */
  lemma HeapKept(s: H.State, own: Ownership, t: H.State, own': Ownership, c: H.Client)
    requires H.HeapOk(s, None) && H.Represents(s, c) && t == s.(phys := t.phys, free := t.free) && own.Keys !! s.owner.Keys
    requires AS.KernelKept(s.phys, own, s.free, t.phys, own', t.free)
    ensures H.HeapOk(t, None) && H.Represents(t, c) && own'.Keys !! t.owner.Keys
  {
    hide H.HeapOk, H.Represents;
    forall f | f in s.owner
      ensures f !in t.free && f !in own' && (f < MAX_FRAMES ==> t.phys[f] == s.phys[f])
    {
      H.OwnedUsed(s, None, f);
    }
    HeapUntouched(s, t, c);
  }

  lemma HeapStays(s: H.State, t: H.State)
    requires H.HeapOk(s, None) && t == s.(phys := t.phys, free := t.free)
    requires forall f :: f in s.owner ==> f !in t.free && (f < MAX_FRAMES ==> t.phys[f] == s.phys[f])
    ensures H.HeapOk(t, None)
  {
    hide H.Threaded, H.Capacity, H.LiveOk, H.Partition;
    assert H.OwnersOk(t);
    assert H.SlabsOk(t, None);
    assert H.LiveOk(t) && H.Partition(t) by { Rest(s, t); }
  }

  lemma Rest(s: H.State, t: H.State)
    requires H.Shape(s) && H.LiveOk(s) && H.Partition(s) && t == s.(phys := t.phys, free := t.free)
    ensures H.LiveOk(t) && H.Partition(t)
  {
    hide H.Capacity, H.Addr;
  }

  // ----- Every joint run -----

  datatype Event = HeapEvent(act: H.Action) | CallEvent(call: AS.Call)

  datatype Answer = HeapDone | CallDone(o: AS.Outcome)

  /** Both sides between two events; `client` is what the users of the heap know. */
  datatype Joint = Joint(kernel: AS.Snapshot, heap: H.State, client: H.Client)

  /** Each side in order, on the same memory, and no frame used by both. */
  ghost predicate JointOk(j: Joint) {
    && AS.Orderly(j.kernel) && H.HeapOk(j.heap, None) && H.Represents(j.heap, j.client) && H.Guarantees(j.client)
    && j.heap.phys == j.kernel.phys && j.heap.free == j.kernel.free && j.kernel.own.Keys !! j.heap.owner.Keys
  }

  /** A heap action does what it means and no process notices; a call does what it promises and no block changes. */
  ghost predicate JointDid(j: Joint, e: Event, r: Answer, j': Joint) {
    match e
    case HeapEvent(act) =>
      && r.HeapDone? && H.Means(j.client, act, j'.client)
      && (act.Take? ==> (j'.client == j.client <==> !H.CanServe(j.heap, act.l)))
      && j'.kernel.spaces == j.kernel.spaces
      && forall i :: 0 <= i < |j.kernel.spaces| ==> AS.SameSpace(j.kernel.phys, j'.kernel.phys, j.kernel.spaces[i].pml4)
    case CallEvent(call) =>
      r.CallDone? && AS.Did(j.kernel, call, r.o, j'.kernel) && j'.client == j.client
  }

  ghost predicate Trace(js: seq<Joint>, es: seq<Event>, rs: seq<Answer>) {
    && |rs| <= |es| && |js| == |rs| + 1
    && (forall n :: 0 <= n < |rs| ==> JointDid(js[n], es[n], rs[n], js[n + 1]))
    && forall n :: 0 <= n <= |rs| ==> JointOk(js[n])
  }

  ghost predicate Together(k: AS.Kernel, h: H.SlabAllocator)
    reads k, k.procs, k.v, k.v.m, k.v.m.bitmap, h, h.m, h.m.bitmap
  {
    k.Valid() && h.Valid() && h.m == k.v.m && k.v.own.Keys !! h.owner.Keys && k.v.kernelPml4 !in h.owner
  }

  ghost function Now(k: AS.Kernel, h: H.SlabAllocator, c: H.Client): Joint
    reads k, k.procs, k.v, k.v.m, h, h.m
  {
    Joint(k.Now(), h.Now(), c)
  }

  /** An empty heap and no processes, on one machine. */
  method Start(m: Machine, kernelPml4: nat) returns (k: AS.Kernel, h: H.SlabAllocator)
    requires m.Valid() && 0 < kernelPml4 < MAX_FRAMES && kernelPml4 !in m.free && IsTable(m.phys[kernelPml4])
    ensures fresh(k) && fresh(h) && Together(k, h) && h.live == map[] && h.m == m && k.procs == []
  {
    hide Machine.Valid, Good, H.HeapOk;
    var v := new Vmm(m, kernelPml4);
    k := new AS.Kernel(v);
    h := new H.SlabAllocator(m);
  }

  lemma NowOk(k: AS.Kernel, h: H.SlabAllocator, c: H.Client)
    requires Together(k, h) && H.Represents(h.Now(), c)
    ensures JointOk(Now(k, h, c))
  {
    hide AS.Kernel.Valid, H.HeapOk, H.Represents, H.Guarantees, AS.Orderly;
    k.OrderlyNow();
    H.ClientGuarantees(h.Now(), c);
  }

  method HeapStep(k: AS.Kernel, h: H.SlabAllocator, c: H.Client, act: H.Action) returns (c': H.Client)
    requires Together(k, h) && H.Represents(h.Now(), c)
    modifies h, h.m, h.m.bitmap
    ensures Together(k, h) && H.Represents(h.Now(), c')
    ensures JointDid(old(Now(k, h, c)), HeapEvent(act), HeapDone, Now(k, h, c'))
  {
    hide Machine.Valid, Good, NoHuge, AS.SameSpace, H.HeapOk, H.Represents, H.Means, H.CanServe, View, UserByte, Open;
    ghost var p0, f0, spaces := k.v.m.phys, k.v.m.free, k.Spaces();
    c' := H.Step(h, c, act);
    TreesApart(p0, k.v.own, f0, k.v.kernelPml4);
    TreesUntouched(p0, k.v.own, f0, k.v.m.phys, k.v.m.free, k.v.kernelPml4);
    forall i | 0 <= i < |k.procs|
      ensures k.procs[i].Valid(k.v)
    {
      NoHugeKept(p0, k.v.m.phys, k.procs[i].pml4);
    }
    assert k.Spaces() == spaces;
  }

  lemma TreesApart(phys: Memory, own: Ownership, free: set<nat>, kernel: nat)
    requires Good(phys, own, free, kernel)
    ensures kernel < MAX_FRAMES && kernel !in free && own.Keys !! free
  {
  }

  method CallStep(k: AS.Kernel, h: H.SlabAllocator, ghost c: H.Client, call: AS.Call) returns (o: AS.Outcome)
    requires Together(k, h) && H.Represents(h.Now(), c) && (call.ExecCall? ==> Elf.Sane(call.data))
    modifies k, k.procs, k.v, k.v.m, k.v.m.bitmap
    ensures Together(k, h) && H.Represents(h.Now(), c)
    ensures JointDid(old(Now(k, h, c)), CallEvent(call), CallDone(o), Now(k, h, c))
    ensures |old(k.procs)| <= |k.procs|
    ensures forall i :: 0 <= i < |k.procs| ==> if i < |old(k.procs)| then k.procs[i] == old(k.procs)[i] else fresh(k.procs[i])
  {
    hide Machine.Valid, Good, NoHuge, H.Represents, H.HeapOk, Elf.Sane, AS.SameSpace, AS.KernelKept, AS.ExecDid, AS.ForkDid, AS.CallDid;
    ghost var s, own := h.Now(), k.v.own;
    o := k.Step(call);
    HeapKept(s, own, h.Now(), k.v.own, c);
  }

  /**
   Heap actions and memory calls in any order, from an empty heap, until a panic: at every moment
   both sides are in order and share no frame; every event did its part and left the other side alone.
   */
  method Run(k: AS.Kernel, h: H.SlabAllocator, es: seq<Event>) returns (rs: seq<Answer>, ghost js: seq<Joint>)
    requires Together(k, h) && h.live == map[]
    requires forall n :: 0 <= n < |es| && es[n].CallEvent? && es[n].call.ExecCall? ==> Elf.Sane(es[n].call.data)
    modifies k, k.procs, k.v, k.v.m, k.v.m.bitmap, h
    ensures Together(k, h) && Trace(js, es, rs)
    ensures js[0] == old(Now(k, h, H.NO_BLOCKS)) && js[|rs|] == Now(k, h, js[|rs|].client)
    ensures forall n :: 0 <= n < |rs| - 1 && rs[n].CallDone? ==> rs[n].o != AS.Crashed && rs[n].o != AS.Result(VM.Panicked)
    ensures |rs| < |es| ==>
              rs != [] && rs[|rs| - 1].CallDone? && (rs[|rs| - 1].o == AS.Crashed || rs[|rs| - 1].o == AS.Result(VM.Panicked))
  {
    hide Together, Trace, H.Represents, Elf.Sane, H.HeapOk, AS.Kernel.Now, H.SlabAllocator.Now;
    var c := H.NO_BLOCKS;
    TraceStart(k, h, es);
    rs, js := [], [Now(k, h, c)];
    var alive := true;
    while |rs| < |es| && alive
      invariant |js| == |rs| + 1 && |rs| <= |es| && Trace(js, es, rs) && Together(k, h) && H.Represents(h.Now(), c)
      invariant js[0] == old(Now(k, h, H.NO_BLOCKS)) && js[|rs|] == Now(k, h, c)
      invariant forall n :: 0 <= n < (if alive then |rs| else |rs| - 1) && rs[n].CallDone? ==> !AS.Fatal(rs[n].o)
      invariant !alive ==> rs != [] && rs[|rs| - 1].CallDone? && AS.Fatal(rs[|rs| - 1].o)
      invariant forall i :: 0 <= i < |k.procs| ==> k.procs[i] in old(k.procs) || fresh(k.procs[i])
      decreases |es| - |rs|
    {
      var r;
      r, c := Step(k, h, c, es[|rs|]);
      TraceNext(js, es, rs, r, Now(k, h, c));
      alive := r.HeapDone? || !AS.Fatal(r.o);
      rs, js := rs + [r], js + [Now(k, h, c)];
    }
  }

  method Step(k: AS.Kernel, h: H.SlabAllocator, c: H.Client, e: Event) returns (r: Answer, c': H.Client)
    requires Together(k, h) && H.Represents(h.Now(), c)
    requires e.CallEvent? && e.call.ExecCall? ==> Elf.Sane(e.call.data)
    modifies k, k.procs, k.v, k.v.m, k.v.m.bitmap, h
    ensures Together(k, h) && H.Represents(h.Now(), c')
    ensures JointDid(old(Now(k, h, c)), e, r, Now(k, h, c')) && JointOk(Now(k, h, c'))
    ensures |old(k.procs)| <= |k.procs|
    ensures forall i :: 0 <= i < |k.procs| ==> if i < |old(k.procs)| then k.procs[i] == old(k.procs)[i] else fresh(k.procs[i])
  {
    hide Together, JointOk, JointDid, H.Represents, Elf.Sane;
    SameMachine(k, h);
    match e {
      case HeapEvent(act) =>
        c' := HeapStep(k, h, c, act);
        r := HeapDone;
      case CallEvent(call) =>
        var o := CallStep(k, h, c, call);
        r, c' := CallDone(o), c;
    }
    NowOk(k, h, c');
  }

  lemma SameMachine(k: AS.Kernel, h: H.SlabAllocator)
    requires Together(k, h)
    ensures h.m == k.v.m
  {
  }

  lemma TraceStart(k: AS.Kernel, h: H.SlabAllocator, es: seq<Event>)
    requires Together(k, h) && h.live == map[]
    ensures H.Represents(h.Now(), H.NO_BLOCKS) && Trace([Now(k, h, H.NO_BLOCKS)], es, [])
  {
    hide JointOk, JointDid, Together;
    H.EmptyClient(h.Now());
    NowOk(k, h, H.NO_BLOCKS);
  }

  lemma TraceNext(js: seq<Joint>, es: seq<Event>, rs: seq<Answer>, r: Answer, j: Joint)
    requires Trace(js, es, rs) && |rs| < |es| && JointDid(js[|rs|], es[|rs|], r, j) && JointOk(j)
    ensures Trace(js + [j], es, rs + [r])
  {
    hide JointOk, JointDid;
  }

  /** Whatever processes do meanwhile, a block keeps its contents until its holder writes or frees it. */
  lemma {:induction false} BlockKept(js: seq<Joint>, es: seq<Event>, rs: seq<Answer>, p: nat, m: nat, n: nat)
    requires Trace(js, es, rs) && m <= n <= |rs| && p in js[m].client.layouts && p in js[m].client.contents
    requires forall i :: m <= i < n && es[i].HeapEvent? ==> es[i].act.Take? || es[i].act.ptr != p
    ensures p in js[n].client.contents && js[n].client.contents[p] == js[m].client.contents[p]
    ensures p in js[n].client.layouts && js[n].client.layouts[p] == js[m].client.layouts[p]
    decreases n
  {
    hide JointOk, AS.Did, AS.SameSpace, H.CanServe, H.WordsFor;
    if m < n {
      BlockKept(js, es, rs, p, m, n - 1);
      assert JointDid(js[n - 1], es[n - 1], rs[n - 1], js[n]);
    }
  }

  /** Whatever the heap does meanwhile, a process that no call is about keeps its pages, bytes and regions. */
  lemma {:induction false} ProcessKept(js: seq<Joint>, es: seq<Event>, rs: seq<Answer>, i: nat, n: nat)
    requires Trace(js, es, rs) && i < |js[0].kernel.spaces| && n <= |rs|
    requires forall k :: 0 <= k < n && es[k].CallEvent? ==> AS.Target(es[k].call) != Some(i)
    ensures i < |js[n].kernel.spaces| && js[n].kernel.spaces[i] == js[0].kernel.spaces[i]
    ensures AS.SameSpace(js[0].kernel.phys, js[n].kernel.phys, js[0].kernel.spaces[i].pml4)
    decreases n
  {
    hide JointOk, AS.SameSpace, AS.KernelKept, AS.ExecDid, AS.ForkDid, AS.CallDid, H.Means, H.CanServe;
    AS.SameSpaceSame(js[0].kernel.phys);
    if n > 0 {
      ProcessKept(js, es, rs, i, n - 1);
      assert JointDid(js[n - 1], es[n - 1], rs[n - 1], js[n]);
      AS.SameSpaceTransitive(js[0].kernel.phys, js[n - 1].kernel.phys, js[n].kernel.phys, js[0].kernel.spaces[i].pml4);
    }
  }
}
