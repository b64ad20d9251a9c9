/**
 The physical memory manager (kernel/src/mem/pmm.rs): one bit per frame, set when the frame is
 in use, plus a free counter.  `free` is the abstract view of the bitmap; every operation is
 specified on it.
 */
module Pmm {
  import opened Physical

  const BITMAP_BYTES: nat := MAX_FRAMES / 8
  const EFI_CONVENTIONAL_MEMORY: nat := 7

  datatype MemMapEntry = MemMapEntry(physicalStart: nat, numPages: nat, memType: nat)
  datatype BootInfo = BootInfo(mmap: seq<MemMapEntry>, kernelPhysBase: nat, kernelAllocSize: nat)

  /** Frames an EFI map entry makes available. */
  predicate Covers(e: MemMapEntry, f: nat) {
    && e.memType == EFI_CONVENTIONAL_MEMORY
    && e.physicalStart / PAGE_SIZE <= f < e.physicalStart / PAGE_SIZE + e.numPages
  }

  predicate Conventional(mmap: seq<MemMapEntry>, f: nat) {
    exists j :: 0 <= j < |mmap| && Covers(mmap[j], f)
  }

  /** The frame and the kernel image overlap. */
  predicate HoldsKernel(boot: BootInfo, f: nat) {
    f * PAGE_SIZE < boot.kernelPhysBase + boot.kernelAllocSize && boot.kernelPhysBase < (f + 1) * PAGE_SIZE
  }

  /** The frame an address lies in. */
  function FrameHolding(a: nat): nat { a / PAGE_SIZE }

  /** Frames that are free once the boot map has been read and the kernel image reserved. */
  predicate BootFree(boot: BootInfo, f: nat) {
    && 0 < f < MAX_FRAMES
    && Conventional(boot.mmap, f)
    && !HoldsKernel(boot, f)
  }

  function SaturatingSub(a: nat, b: nat): nat { if a < b then 0 else a - b }

  /** The byte 1 << k. */
  function Mask(k: nat): bv8
    requires k < 8
  {
    if k == 0 then 1 else Mask(k - 1) << 1
  }

  function WithBit(b: bv8, k: nat): bv8
    requires k < 8
  {
    b | Mask(k)
  }

  function WithoutBit(b: bv8, k: nat): bv8
    requires k < 8
  {
    b & !Mask(k)
  }

  predicate Unset(b: bv8, k: nat)
    requires k < 8
  {
    b & Mask(k) == 0
  }

  /** Whether frame `f` is marked free in a bitmap. */
  predicate Clear(bits: seq<bv8>, f: nat)
    requires f / 8 < |bits|
  {
    Unset(bits[f / 8], f % 8)
  }

  lemma MaskBits(b: bv8, m: bv8, n: bv8)
    ensures m != 0 ==> (b | m) & m != 0
    ensures (b & !m) & m == 0
    ensures m & n == 0 ==> (b | m) & n == b & n && (b & !m) & n == b & n
  {
  }

  lemma MasksDisjoint(k: nat, j: nat)
    requires k < 8 && j < 8
    ensures Mask(k) != 0
    ensures k != j ==> Mask(k) & Mask(j) == 0
  {
    assert Mask(0) == 1 && Mask(1) == 2 && Mask(2) == 4 && Mask(3) == 8;
    assert Mask(4) == 16 && Mask(5) == 32 && Mask(6) == 64 && Mask(7) == 128;
  }

  /** Setting or clearing one bit of a byte leaves its other bits alone. */
  lemma ByteUpdate(b: bv8, r: nat, j: nat)
    requires r < 8 && j < 8
    ensures Unset(WithBit(b, r), j) <==> r != j && Unset(b, j)
    ensures Unset(WithoutBit(b, r), j) <==> r == j || Unset(b, j)
  {
    hide Mask;
    MasksDisjoint(r, j);
    MaskBits(b, Mask(r), Mask(j));
  }

  /** The bitmap after `SetUsed` and after `SetFree`, frame by frame. */
  lemma FrameUpdate(bits: seq<bv8>, f: nat, g: nat)
    requires f / 8 < |bits| && g / 8 < |bits|
    ensures Clear(bits[f / 8 := WithBit(bits[f / 8], f % 8)], g) <==> g != f && Clear(bits, g)
    ensures Clear(bits[f / 8 := WithoutBit(bits[f / 8], f % 8)], g) <==> g == f || Clear(bits, g)
  {
    hide Mask, WithBit, WithoutBit, Unset;
    ByteUpdate(bits[f / 8], f % 8, g % 8);
    SameBit(f, g);
  }

  lemma SameBit(f: nat, g: nat)
    ensures f / 8 == g / 8 && f % 8 == g % 8 <==> f == g
  {
  }

  /** `n` free frames in a row, starting at `s`. */
  ghost predicate FreeRun(free: set<nat>, s: nat, n: nat) {
    forall f :: s <= f < s + n ==> f in free
  }

  /** The free set once the run [s, s + n) has been taken. */
  ghost function Without(free: set<nat>, s: nat, n: nat): set<nat> {
    set f | f in free && !(s <= f < s + n)
  }

  class Machine {
    const bitmap: array<bv8>
    var totalFrames: nat
    var freeFrames: nat
    var phys: Memory
    ghost var free: set<nat>

    predicate IsFree(f: nat)
      requires bitmap.Length == BITMAP_BYTES && f < MAX_FRAMES
      reads bitmap
    {
      Clear(bitmap[..], f)
    }

    /** The abstract free set is exactly what the bitmap says. */
    ghost predicate Tracks()
      reads this`free, bitmap
    {
      && bitmap.Length == BITMAP_BYTES
      && (forall f :: f in free ==> f < MAX_FRAMES)
      && (forall f: nat :: f < MAX_FRAMES ==> (f in free <==> IsFree(f)))
    }

    /** Holds in every state after `Init`. */
    ghost predicate Valid()
      reads this`free, this`freeFrames, bitmap
    {
      Tracks() && freeFrames == |free| && 0 !in free
    }

    constructor ()
      ensures Tracks() && free == {} && freeFrames == 0 && totalFrames == 0
      ensures fresh(bitmap)
    {
      var b := new bv8[BITMAP_BYTES](_ => 0xFF);
      bitmap := b;
      totalFrames := 0;
      freeFrames := 0;
      free := {};
      phys := seq(MAX_FRAMES, _ => Blank);
      new;
      forall f: nat | f < MAX_FRAMES
        ensures !IsFree(f)
      {
        MasksDisjoint(f % 8, f % 8);
        assert bitmap[f / 8] == 0xFF;
        assert (0xFF as bv8) & Mask(f % 8) == Mask(f % 8);
      }
    }

    method SetUsed(f: nat)
      requires Tracks() && f < MAX_FRAMES
      modifies this`free, bitmap
      ensures Tracks() && free == old(free) - {f}
    {
      hide Mask, WithBit, WithoutBit, Clear;
      ghost var before := bitmap[..];
      bitmap[f / 8] := WithBit(bitmap[f / 8], f % 8);
      assert bitmap[..] == before[f / 8 := WithBit(before[f / 8], f % 8)];
      free := free - {f};
      forall g: nat | g < MAX_FRAMES
        ensures g in free <==> IsFree(g)
      {
        FrameUpdate(before, f, g);
      }
    }

    method SetFree(f: nat)
      requires Tracks() && f < MAX_FRAMES
      modifies this`free, bitmap
      ensures Tracks() && free == old(free) + {f}
    {
      hide Mask, WithBit, WithoutBit, Clear;
      ghost var before := bitmap[..];
      bitmap[f / 8] := WithoutBit(bitmap[f / 8], f % 8);
      assert bitmap[..] == before[f / 8 := WithoutBit(before[f / 8], f % 8)];
      free := free + {f};
      forall g: nat | g < MAX_FRAMES
        ensures g in free <==> IsFree(g)
      {
        FrameUpdate(before, f, g);
      }
    }

    /** Frees every frame of a map entry that is not free yet, counting each frame once. */
    method ReleaseRegion(e: MemMapEntry)
      requires Tracks() && freeFrames == totalFrames == |free|
      modifies this`free, this`freeFrames, this`totalFrames, bitmap
      ensures Tracks() && freeFrames == totalFrames == |free|
      ensures forall f: nat :: f in free <==> f in old(free) || (f < MAX_FRAMES && Covers(e, f))
    {
      hide Clear, Mask, IsFree;
      if e.memType != EFI_CONVENTIONAL_MEMORY { return; }
      var start := e.physicalStart / PAGE_SIZE;
      for f := start to start + e.numPages
        invariant Tracks() && freeFrames == totalFrames == |free|
        invariant forall g: nat :: g in free <==> g in old(free) || (g < MAX_FRAMES && start <= g < f)
      {
        if f < MAX_FRAMES && !IsFree(f) {
          SetFree(f);
          freeFrames := freeFrames + 1;
          totalFrames := totalFrames + 1;
        }
      }
    }

    /** Takes the kernel image's frames, and then frame 0, out of the free set. */
    method ReserveKernel(boot: BootInfo)
      requires Tracks() && freeFrames == |free|
      modifies this`free, this`freeFrames, bitmap
      ensures Valid()
      ensures forall f: nat :: f in free <==>
                f in old(free) && f != 0 && !HoldsKernel(boot, f)
    {
      hide Clear, Mask, IsFree;
      var start := boot.kernelPhysBase / PAGE_SIZE;
      var end := (boot.kernelPhysBase + boot.kernelAllocSize + PAGE_SIZE - 1) / PAGE_SIZE;
      assert forall g: nat :: start <= g < end <==> HoldsKernel(boot, g);
      hide HoldsKernel;
      var f := start;
      while f < end
        invariant start <= f
        invariant Tracks() && freeFrames == |free|
        invariant forall g: nat :: g in free <==> g in old(free) && !(start <= g < f && g < end)
      {
        if f < MAX_FRAMES && IsFree(f) {
          SetUsed(f);
          freeFrames := freeFrames - 1;
        }
        f := f + 1;
      }
      if IsFree(0) {
        SetUsed(0);
        freeFrames := SaturatingSub(freeFrames, 1);
      }
    }

    /** After boot exactly the conventional frames outside the kernel image and frame 0 are free. */
    method Init(boot: BootInfo)
      requires Tracks() && free == {} && freeFrames == 0 && totalFrames == 0
      modifies this`free, this`freeFrames, this`totalFrames, bitmap
      ensures Valid()
      ensures forall f: nat :: f in free <==> BootFree(boot, f)
      ensures forall a: nat :: boot.kernelPhysBase <= a < boot.kernelPhysBase + boot.kernelAllocSize ==> FrameHolding(a) !in free
      ensures forall all: set<nat> :: (forall f: nat :: f in all <==> f < MAX_FRAMES && Conventional(boot.mmap, f)) ==> totalFrames == |all|
    {
      for i := 0 to |boot.mmap|
        invariant Tracks() && freeFrames == totalFrames == |free|
        invariant forall f: nat :: f in free <==> f < MAX_FRAMES && Conventional(boot.mmap[..i], f)
      {
        ReleaseRegion(boot.mmap[i]);
        forall f: nat
          ensures Conventional(boot.mmap[..i + 1], f) <==>
                  Conventional(boot.mmap[..i], f) || Covers(boot.mmap[i], f)
        {
          ConventionalStep(boot.mmap, i, f);
        }
      }
      assert boot.mmap[..|boot.mmap|] == boot.mmap;
      ghost var conventional := free;
      forall all: set<nat> | forall f: nat :: f in all <==> f < MAX_FRAMES && Conventional(boot.mmap, f)
        ensures totalFrames == |all|
      {
        assert all == conventional;
      }
      ReserveKernel(boot);
      forall a: nat | boot.kernelPhysBase <= a < boot.kernelPhysBase + boot.kernelAllocSize
        ensures HoldsKernel(boot, FrameHolding(a))
      {
      }
    }

    /** The lowest free frame, zeroed and marked used; 0 exactly when nothing is free. */
    method AllocFrame() returns (f: nat)
      requires Valid()
      modifies this, bitmap
      ensures Valid()
      ensures totalFrames == old(totalFrames)
      ensures f < MAX_FRAMES
      ensures f == 0 <==> old(free) == {}
      ensures f == 0 ==> free == old(free) && phys == old(phys) && freeFrames == old(freeFrames)
      ensures f != 0 ==> f in old(free) && forall g :: g in old(free) ==> f <= g
      ensures f != 0 ==> free == old(free) - {f} && phys == old(phys)[f := Blank]
      ensures old(freeFrames) == if f == 0 then 0 else freeFrames + 1
    {
      f := 1;
      while f < MAX_FRAMES
        invariant 1 <= f <= MAX_FRAMES
        invariant forall g :: g in free ==> f <= g
      {
        if IsFree(f) {
          SetUsed(f);
          freeFrames := SaturatingSub(freeFrames, 1);
          phys := phys[f := Blank];
          return;
        }
        f := f + 1;
      }
      assert forall g :: g in free ==> g < MAX_FRAMES <= g;
      f := 0;
    }

    /** Marks a run used and zeroes it. */
    method TakeRun(s: nat, n: nat)
      requires Valid() && 0 < s && FreeRun(free, s, n) && s + n <= MAX_FRAMES
      modifies this, bitmap
      ensures Valid() && totalFrames == old(totalFrames)
      ensures free == Without(old(free), s, n)
      ensures freeFrames + n == old(freeFrames)
      ensures forall f :: 0 <= f < MAX_FRAMES ==>
                phys[f] == if s <= f < s + n then Blank else old(phys)[f]
    {
      hide Mask, Clear, IsFree;
      for i := 0 to n
        invariant Tracks() && free == Without(old(free), s, i) && phys == old(phys)
        invariant |free| + i == |old(free)|
        invariant freeFrames == old(freeFrames) && totalFrames == old(totalFrames)
      {
        SetUsed(s + i);
      }
      freeFrames := SaturatingSub(freeFrames, n);
      var was := phys;
      phys := seq(MAX_FRAMES, f requires 0 <= f < MAX_FRAMES => if s <= f < s + n then Blank else was[f]);
    }

    /**
     The lowest-starting run of `count` free frames, zeroed and marked used.  The result is 0
     exactly when no such run exists (or nothing was asked for).
     */
    method AllocFrames(count: nat) returns (s: nat)
      requires Valid()
      modifies this, bitmap
      ensures Valid() && totalFrames == old(totalFrames)
      ensures s == 0 <==> count == 0 || forall t :: 0 < t ==> !FreeRun(old(free), t, count)
      ensures s == 0 ==> free == old(free) && phys == old(phys) && freeFrames == old(freeFrames)
      ensures s != 0 ==> FreeRun(old(free), s, count) && s + count <= MAX_FRAMES
      ensures s != 0 ==> forall t :: 0 < t < s ==> !FreeRun(old(free), t, count)
      ensures s != 0 ==> free == Without(old(free), s, count)
      ensures s != 0 ==> forall f :: 0 <= f < MAX_FRAMES ==>
                phys[f] == if s <= f < s + count then Blank else old(phys)[f]
    {
      hide Mask, Clear;
      if count == 0 { return 0; }
      if count == 1 {
        s := AllocFrame();
        SingleRun(old(free), s);
        return;
      }
      var consecutive := 0;
      s := 0;
      for f := 1 to MAX_FRAMES
        invariant consecutive < count && consecutive < f
        invariant consecutive > 0 ==> s == f - consecutive
        invariant FreeRun(free, f - consecutive, consecutive)
        invariant f - consecutive - 1 !in free
        invariant forall t :: 0 < t && t + count <= f ==> !FreeRun(free, t, count)
      {
        if IsFree(f) {
          if consecutive == 0 { s := f; }
          consecutive := consecutive + 1;
          if consecutive == count {
            assert s == f + 1 - count && FreeRun(old(free), s, count);
            TakeRun(s, count);
            return;
          }
        } else {
          consecutive := 0;
        }
        forall t | 0 < t && t + count <= f + 1
          ensures !FreeRun(free, t, count)
        {
          if t + count == f + 1 {
            assert t <= f - consecutive < t + count;
          }
        }
      }
      s := 0;
      forall t | 0 < t
        ensures !FreeRun(free, t, count)
      {
        if t + count > MAX_FRAMES {
          assert t <= t + count - 1 < t + count && t + count - 1 !in free;
        }
      }
    }

    /** Returns a frame; freeing frame 0, a frame out of range or a free frame changes nothing. */
    method FreeFrame(f: nat)
      requires Valid()
      modifies this`free, this`freeFrames, bitmap
      ensures Valid()
      ensures free == if f == 0 || f >= MAX_FRAMES then old(free) else old(free) + {f}
    {
      if f == 0 || f >= MAX_FRAMES { return; }
      if !IsFree(f) {
        SetFree(f);
        freeFrames := freeFrames + 1;
      }
    }
  }

  lemma ConventionalStep(mmap: seq<MemMapEntry>, i: nat, f: nat)
    requires i < |mmap|
    ensures Conventional(mmap[..i + 1], f) <==> Conventional(mmap[..i], f) || Covers(mmap[i], f)
  {
  }

  /** A run of length one is a single free frame. */
  lemma SingleRun(free: set<nat>, s: nat)
    ensures forall t: nat :: FreeRun(free, t, 1) <==> t in free
    ensures Without(free, s, 1) == free - {s}
  {
  }
}
