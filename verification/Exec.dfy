/**
 Starting a program (kernel/src/proc/exec.rs): the initial user stack and the new address space.
 */
module Exec {
  import opened Physical
  import opened Pmm
  import opened Paging
  import opened UserMemory
  import opened LittleEndian
  import Elf

  const USER_STACK_PAGES: nat := 16
  const USER_STACK_TOP: nat := 0x8000_0000
  const EXE_PATH_MAX: nat := 64

  datatype Aux = Aux(key: nat, value: nat)
  datatype Ids = Ids(uid: nat, euid: nat, gid: nat, egid: nat)

  const RANDOM_BYTES: seq<byte> :=
    [0x13, 0x37, 0xca, 0xfe, 0xba, 0xbe, 0xde, 0xad, 0xfa, 0xce, 0x12, 0x34, 0x56, 0x78, 0xab, 0xcd]

  /** The path string: a slash, the name cut to 64 characters (each cut to a byte), a NUL. */
  function ExecFn(name: string): (path: seq<byte>)
    ensures var n := if |name| < 64 then |name| else 64;
            && |path| == n + 2 && path[0] == '/' as int && path[n + 1] == 0
            && forall i :: 0 <= i < n ==> path[1 + i] == (name[i] as int) % 256
  {
    var kept := if |name| < EXE_PATH_MAX then name else name[..EXE_PATH_MAX];
    [0x2f] + seq(|kept|, i requires 0 <= i < |kept| => (kept[i] as int) % 256) + [0]
  }

  /** The auxiliary vector, in the order it appears in memory. */
  function AuxVector(image: Elf.LoadedImage, ids: Ids, random: nat, execfn: nat): seq<Aux> {
    [Aux(3, image.phdr), Aux(4, image.phent), Aux(5, image.phnum), Aux(6, PAGE_SIZE), Aux(9, image.entry),
     Aux(11, ids.uid), Aux(12, ids.euid), Aux(13, ids.gid), Aux(14, ids.egid), Aux(23, 0),
     Aux(25, random), Aux(31, execfn), Aux(0, 0)]
  }

  function AuxWords(aux: seq<Aux>): seq<nat> {
    if aux == [] then [] else [aux[0].key, aux[0].value] + AuxWords(aux[1..])
  }

  // ----- Reading words back -----

  /** The bytes of a space at `addr` are `bytes`. */
  ghost predicate BytesAt(phys: Memory, root: nat, addr: nat, bytes: seq<byte>) {
    forall k :: 0 <= k < |bytes| ==> UserByte(phys, root, addr + k) == Some(bytes[k])
  }

  /** The space holds the little-endian words `ws` from `addr` on. */
  ghost predicate WordsAt(phys: Memory, root: nat, addr: nat, ws: seq<nat>) {
    forall k :: 0 <= k < |ws| ==> BytesAt(phys, root, addr + 8 * k, ToLe(ws[k], 8))
  }

  ghost predicate MappedRange(phys: Memory, root: nat, lo: nat, hi: nat) {
    forall va :: lo <= va < hi ==> View(phys, root, PageOf(va)).Mapped?
  }

  lemma WroteBytes(phys: Memory, own: Ownership, phys': Memory, root: nat, addr: nat, bytes: seq<byte>)
    requires Wrote(phys, own, phys', root, addr, bytes) && IsRoot(own, root) && addr + |bytes| <= USER_TOP
    ensures BytesAt(phys', root, addr, bytes)
  {
  }

  /** A write below or above a range leaves it alone. */
  lemma WroteElsewhere(phys: Memory, own: Ownership, phys': Memory, root: nat, addr: nat, bytes: seq<byte>,
                       at: nat, kept: seq<byte>)
    requires Wrote(phys, own, phys', root, addr, bytes) && IsRoot(own, root)
    requires addr + |bytes| <= at && at + |kept| <= USER_TOP
    requires BytesAt(phys, root, at, kept)
    ensures BytesAt(phys', root, at, kept)
  {
  }

  lemma WroteWords(phys: Memory, own: Ownership, phys': Memory, root: nat, addr: nat, bytes: seq<byte>,
                   at: nat, ws: seq<nat>)
    requires Wrote(phys, own, phys', root, addr, bytes) && IsRoot(own, root)
    requires addr + |bytes| <= at && at + 8 * |ws| <= USER_TOP
    requires WordsAt(phys, root, at, ws)
    ensures WordsAt(phys', root, at, ws)
  {
  }

  lemma WroteMapped(phys: Memory, own: Ownership, phys': Memory, root: nat, addr: nat, bytes: seq<byte>, lo: nat, hi: nat)
    requires Wrote(phys, own, phys', root, addr, bytes) && IsRoot(own, root) && hi <= USER_TOP
    requires MappedRange(phys, root, lo, hi)
    ensures MappedRange(phys', root, lo, hi)
  {
  }

  /** Pages are mapped as in `p0`, and only bytes of [lo, hi) may differ from it. */
  ghost predicate WritesWithin(p0: Memory, phys: Memory, root: nat, lo: nat, hi: nat) {
    && (forall va :: 0 <= va < USER_TOP && !(lo <= va < hi) ==> UserByte(phys, root, va) == UserByte(p0, root, va))
    && (forall q :: UserPage(q) ==> View(phys, root, q) == View(p0, root, q))
  }

  lemma WroteWithin(p0: Memory, phys: Memory, own: Ownership, phys': Memory, root: nat, addr: nat, bytes: seq<byte>, hi: nat)
    requires WritesWithin(p0, phys, root, addr + |bytes|, hi) && addr + |bytes| <= hi && IsRoot(own, root)
    requires Wrote(phys, own, phys', root, addr, bytes)
    ensures WritesWithin(p0, phys', root, addr, hi)
  {
    hide View, UserByte;
  }

  lemma WidenWithin(p0: Memory, phys: Memory, root: nat, lo: nat, hi: nat, lower: nat)
    requires WritesWithin(p0, phys, root, lo, hi) && lower <= lo
    ensures WritesWithin(p0, phys, root, lower, hi)
  {
  }

  // ----- Pushing -----

  /** Moves the stack pointer down, aligns it, and copies the bytes there. */
  method PushUserBytes(v: Vmm, pml4: nat, sp: nat, bytes: seq<byte>, align: nat) returns (r: Option<nat>)
    requires v.Valid() && IsRoot(v.own, pml4) && NoHuge(v.m.phys, pml4)
    requires sp <= USER_TOP && (align == 1 || align == 8 || align == 16)
    modifies v.m`phys
    ensures v.Valid() && NoHuge(v.m.phys, pml4)
    ensures OnlySpace(old(v.m.phys), v.own, v.m.free, v.m.phys, v.own, v.m.free, pml4)
    ensures r.Some? ==> |bytes| <= sp && r.value == (sp - |bytes|) / align * align
    ensures r.Some? ==> Wrote(old(v.m.phys), v.own, v.m.phys, pml4, r.value, bytes)
    ensures |bytes| <= sp && MappedRange(old(v.m.phys), pml4, (sp - |bytes|) / align * align, sp) ==> r.Some?
  {
    hide Machine.Valid, Wf, Linked, View, Walk, PageOf, Wrote, OnlySpace, UserByte;
    OnlySpaceSame(v.m.phys, v.own, v.m.free, pml4);
    if sp < |bytes| { return None; }
    var at := (sp - |bytes|) / align * align;
    var ok := WriteUserBytes(v, pml4, at, bytes);
    if ok {
      WroteOnlySpace(old(v.m.phys), v.own, v.m.free, v.m.phys, pml4, at, bytes);
      WroteNoHuge(old(v.m.phys), v.own, v.m.phys, pml4, at, bytes, pml4);
      return Some(at);
    }
    ghost var n: nat :| n < |bytes| && Wrote(old(v.m.phys), v.own, v.m.phys, pml4, at, bytes[..n]);
    WroteOnlySpace(old(v.m.phys), v.own, v.m.free, v.m.phys, pml4, at, bytes[..n]);
    WroteNoHuge(old(v.m.phys), v.own, v.m.phys, pml4, at, bytes[..n], pml4);
    return None;
  }

  /** The two strings at the top of the stack. */
  ghost predicate Strings(phys: Memory, root: nat, execfn: nat, path: seq<byte>, random: nat) {
    BytesAt(phys, root, execfn, path) && BytesAt(phys, root, random, RANDOM_BYTES)
  }

  /** Pushes one word under the words `ws` that are already there. */
  method PushUserU64(v: Vmm, pml4: nat, sp: nat, value: nat, ghost ws: seq<nat>,
                     ghost execfn: nat, ghost path: seq<byte>, ghost random: nat, ghost lo: nat, ghost hi: nat,
                     ghost p0: Memory) returns (r: Option<nat>)
    requires v.Valid() && IsRoot(v.own, pml4) && NoHuge(v.m.phys, pml4)
    requires WritesWithin(p0, v.m.phys, pml4, sp, hi)
    requires sp % 8 == 0 && hi <= USER_TOP && sp + 8 * |ws| <= random && random + 16 <= execfn && execfn + |path| <= hi
    requires WordsAt(v.m.phys, pml4, sp, ws) && Strings(v.m.phys, pml4, execfn, path, random)
    modifies v.m`phys
    ensures v.Valid() && NoHuge(v.m.phys, pml4)
    ensures OnlySpace(old(v.m.phys), v.own, v.m.free, v.m.phys, v.own, v.m.free, pml4)
    ensures r.Some? ==> sp >= 8 && r.value == sp - 8 && WritesWithin(p0, v.m.phys, pml4, sp - 8, hi)
    ensures r.Some? ==> WordsAt(v.m.phys, pml4, r.value, [value] + ws) && Strings(v.m.phys, pml4, execfn, path, random)
    ensures MappedRange(old(v.m.phys), pml4, lo, hi) && lo + 8 <= sp ==> r.Some? && MappedRange(v.m.phys, pml4, lo, hi)
  {
    hide Machine.Valid, Wf, Linked, View, Walk, PageOf, Wrote, OnlySpace, UserByte, WordsAt, BytesAt, ToLe,
      WritesWithin;
    r := PushUserBytes(v, pml4, sp, ToLe(value, 8), 8);
    if r.Some? {
      WroteBytes(old(v.m.phys), v.own, v.m.phys, pml4, sp - 8, ToLe(value, 8));
      WroteWords(old(v.m.phys), v.own, v.m.phys, pml4, sp - 8, ToLe(value, 8), sp, ws);
      WroteElsewhere(old(v.m.phys), v.own, v.m.phys, pml4, sp - 8, ToLe(value, 8), execfn, path);
      WroteElsewhere(old(v.m.phys), v.own, v.m.phys, pml4, sp - 8, ToLe(value, 8), random, RANDOM_BYTES);
      WordsCons(v.m.phys, pml4, sp - 8, value, ws);
      WroteWithin(p0, old(v.m.phys), v.own, v.m.phys, pml4, sp - 8, ToLe(value, 8), hi);
      if MappedRange(old(v.m.phys), pml4, lo, hi) {
        WroteMapped(old(v.m.phys), v.own, v.m.phys, pml4, sp - 8, ToLe(value, 8), lo, hi);
      }
    }
  }

  lemma WordsCons(phys: Memory, root: nat, addr: nat, w: nat, ws: seq<nat>)
    requires BytesAt(phys, root, addr, ToLe(w, 8)) && WordsAt(phys, root, addr + 8, ws)
    ensures WordsAt(phys, root, addr, [w] + ws)
  {
    hide BytesAt, ToLe;
    forall k | 0 <= k < |[w] + ws|
      ensures BytesAt(phys, root, addr + 8 * k, ToLe(([w] + ws)[k], 8))
    {
      if k > 0 {
        assert BytesAt(phys, root, addr + 8 + 8 * (k - 1), ToLe(ws[k - 1], 8));
        assert addr + 8 + 8 * (k - 1) == addr + 8 * k;
      }
    }
  }

  lemma AuxWordsLength(aux: seq<Aux>)
    ensures |AuxWords(aux)| == 2 * |aux|
  {
  }

  function ExecFnAddress(top: nat, name: string): nat
    requires |ExecFn(name)| <= top
  {
    top - |ExecFn(name)|
  }

  function RandomAddress(top: nat, name: string): nat
    requires |ExecFn(name)| + 16 <= top
  {
    (ExecFnAddress(top, name) - 16) / 16 * 16
  }

  /** The words of the finished stack: argc, argv, its NULL, the NULL of envp, the auxiliary vector. */
  function StackWords(top: nat, name: string, image: Elf.LoadedImage, ids: Ids): seq<nat>
    requires |ExecFn(name)| + 16 <= top
  {
    [1, ExecFnAddress(top, name), 0, 0] +
    AuxWords(AuxVector(image, ids, RandomAddress(top, name), ExecFnAddress(top, name)))
  }

  /**
   Builds the initial stack below `top`.  The pointer returned is 16-byte aligned without the
   final mask having to change it, and the whole layout is there: no push overwrote an earlier one.
   */
  method BuildInitialStack(v: Vmm, pml4: nat, top: nat, name: string, image: Elf.LoadedImage, ids: Ids)
    returns (r: Option<nat>)
    requires v.Valid() && IsRoot(v.own, pml4) && NoHuge(v.m.phys, pml4)
    requires PAGE_SIZE <= top <= USER_TOP
    modifies v.m`phys
    ensures v.Valid() && NoHuge(v.m.phys, pml4)
    ensures OnlySpace(old(v.m.phys), v.own, v.m.free, v.m.phys, v.own, v.m.free, pml4)
    ensures |ExecFn(name)| <= 66
    ensures r.Some? ==>
              && r.value % 16 == 0
              && r.value + 8 * |StackWords(top, name, image, ids)| == RandomAddress(top, name)
              && WordsAt(v.m.phys, pml4, r.value, StackWords(top, name, image, ids))
              && BytesAt(v.m.phys, pml4, ExecFnAddress(top, name), ExecFn(name))
              && BytesAt(v.m.phys, pml4, RandomAddress(top, name), RANDOM_BYTES)
              && WritesWithin(old(v.m.phys), v.m.phys, pml4, r.value, top)
    ensures MappedRange(old(v.m.phys), pml4, top - PAGE_SIZE, top) ==> r.Some?
  {
    hide Machine.Valid, Wf, Linked, View, Walk, PageOf, Wrote, OnlySpace, UserByte, WordsAt, BytesAt, ToLe,
      MappedRange, WritesWithin;
    var lo := top - PAGE_SIZE;
    ghost var mapped := MappedRange(v.m.phys, pml4, lo, top);
    var path := ExecFn(name);
    r := PushStrings(v, pml4, top, name);
    if r.None? { return; }
    var execfn, random := ExecFnAddress(top, name), r.value;
    var auxv := AuxVector(image, ids, random, execfn);
    r := PushAux(v, pml4, random, auxv, execfn, path, lo, top, old(v.m.phys));
    if r.None? { return; }
    AuxWordsLength(auxv);
    r := PushArguments(v, pml4, r.value, execfn, AuxWords(auxv), path, random, lo, top, old(v.m.phys));
    if r.None? { return; }
    r := Some(r.value / 16 * 16);
  }

  lemma NoAuxWords()
    ensures AuxWords([]) == []
  {
  }

  lemma AuxWordsStep(auxv: seq<Aux>, i: nat)
    requires i < |auxv|
    ensures AuxWords(auxv[i..]) == [auxv[i].key, auxv[i].value] + AuxWords(auxv[i + 1..])
  {
  }

  /** Pushes one auxiliary entry: the value, then the key below it. */
  method PushPair(v: Vmm, pml4: nat, sp: nat, aux: Aux, ghost ws: seq<nat>,
                  ghost execfn: nat, ghost path: seq<byte>, ghost random: nat, ghost lo: nat, ghost hi: nat,
                  ghost p0: Memory) returns (r: Option<nat>)
    requires v.Valid() && IsRoot(v.own, pml4) && NoHuge(v.m.phys, pml4)
    requires WritesWithin(p0, v.m.phys, pml4, sp, hi)
    requires sp % 8 == 0 && hi <= USER_TOP && sp + 8 * |ws| <= random && random + 16 <= execfn && execfn + |path| <= hi
    requires WordsAt(v.m.phys, pml4, sp, ws) && Strings(v.m.phys, pml4, execfn, path, random)
    modifies v.m`phys
    ensures v.Valid() && NoHuge(v.m.phys, pml4)
    ensures OnlySpace(old(v.m.phys), v.own, v.m.free, v.m.phys, v.own, v.m.free, pml4)
    ensures r.Some? ==> sp >= 16 && r.value == sp - 16 && WritesWithin(p0, v.m.phys, pml4, sp - 16, hi)
    ensures r.Some? ==> WordsAt(v.m.phys, pml4, r.value, [aux.key, aux.value] + ws) && Strings(v.m.phys, pml4, execfn, path, random)
    ensures MappedRange(old(v.m.phys), pml4, lo, hi) && lo + 16 <= sp ==> r.Some? && MappedRange(v.m.phys, pml4, lo, hi)
  {
    hide Machine.Valid, Wf, Linked, View, Walk, PageOf, Wrote, OnlySpace, UserByte, WordsAt, BytesAt, ToLe,
      MappedRange, WritesWithin,
      Strings, NoHuge;
    r := PushUserU64(v, pml4, sp, aux.value, ws, execfn, path, random, lo, hi, p0);
    if r.None? { return; }
    ghost var p1 := v.m.phys;
    r := PushUserU64(v, pml4, r.value, aux.key, [aux.value] + ws, execfn, path, random, lo, hi, p0);
    OnlySpaceTransitive(old(v.m.phys), v.own, v.m.free, p1, v.own, v.m.free, v.m.phys, v.own, v.m.free, pml4);
    assert [aux.key] + ([aux.value] + ws) == [aux.key, aux.value] + ws;
  }

  lemma Aligned(n: nat)
    ensures (16 * n) % 8 == 0 && (n >= 2 ==> (8 * n - 16) % 8 == 0)
  {
  }

  /** Pushes the auxiliary vector from its last entry to its first, value before key. */
  method PushAux(v: Vmm, pml4: nat, random: nat, auxv: seq<Aux>, ghost execfn: nat, ghost path: seq<byte>,
                 ghost lo: nat, ghost hi: nat, ghost p0: Memory) returns (r: Option<nat>)
    requires v.Valid() && IsRoot(v.own, pml4) && NoHuge(v.m.phys, pml4)
    requires OnlySpace(p0, v.own, v.m.free, v.m.phys, v.own, v.m.free, pml4)
    requires WritesWithin(p0, v.m.phys, pml4, random, hi)
    requires random % 16 == 0 && hi <= USER_TOP && random + 16 <= execfn && execfn + |path| <= hi
    requires Strings(v.m.phys, pml4, execfn, path, random)
    modifies v.m`phys
    ensures v.Valid() && NoHuge(v.m.phys, pml4)
    ensures OnlySpace(p0, v.own, v.m.free, v.m.phys, v.own, v.m.free, pml4)
    ensures r.Some? ==> r.value + 16 * |auxv| == random && WritesWithin(p0, v.m.phys, pml4, r.value, hi)
    ensures r.Some? ==> WordsAt(v.m.phys, pml4, r.value, AuxWords(auxv)) && Strings(v.m.phys, pml4, execfn, path, random)
    ensures MappedRange(old(v.m.phys), pml4, lo, hi) && lo + 16 * |auxv| <= random ==>
              r.Some? && MappedRange(v.m.phys, pml4, lo, hi)
  {
    hide Machine.Valid, Wf, Linked, View, Walk, PageOf, Wrote, OnlySpace, UserByte, WordsAt, BytesAt, ToLe,
      MappedRange, WritesWithin,
      AuxWords, Strings, NoHuge;
    ghost var mapped := MappedRange(v.m.phys, pml4, lo, hi);
    var sp := random;
    Aligned(random / 16);
    ghost var words: seq<nat> := [];
    NoWords(v.m.phys, pml4, sp);
    assert auxv[|auxv|..] == [];
    NoAuxWords();
    var i := |auxv|;
    while i > 0
      invariant 0 <= i <= |auxv| && v.Valid() && NoHuge(v.m.phys, pml4)
      invariant OnlySpace(p0, v.own, v.m.free, v.m.phys, v.own, v.m.free, pml4)
      invariant sp % 8 == 0 && sp == random - 16 * (|auxv| - i)
      invariant WritesWithin(p0, v.m.phys, pml4, sp, hi)
      invariant words == AuxWords(auxv[i..]) && |words| == 2 * (|auxv| - i)
      invariant WordsAt(v.m.phys, pml4, sp, words) && Strings(v.m.phys, pml4, execfn, path, random)
      invariant mapped && lo + 16 * |auxv| <= random ==> MappedRange(v.m.phys, pml4, lo, hi)
    {
      i := i - 1;
      ghost var p1 := v.m.phys;
      AuxWordsStep(auxv, i);
      r := PushPair(v, pml4, sp, auxv[i], words, execfn, path, random, lo, hi, p0);
      OnlySpaceTransitive(p0, v.own, v.m.free, p1, v.own, v.m.free, v.m.phys, v.own, v.m.free, pml4);
      if r.None? { return; }
      Aligned(sp / 8);
      sp := r.value;
      words := [auxv[i].key, auxv[i].value] + words;
    }
    assert auxv[0..] == auxv;
    return Some(sp);
  }

  /** Pushes the path (unaligned) and the random bytes (16-byte aligned). */
  method PushStrings(v: Vmm, pml4: nat, top: nat, name: string) returns (r: Option<nat>)
    requires v.Valid() && IsRoot(v.own, pml4) && NoHuge(v.m.phys, pml4)
    requires PAGE_SIZE <= top <= USER_TOP
    modifies v.m`phys
    ensures v.Valid() && NoHuge(v.m.phys, pml4)
    ensures OnlySpace(old(v.m.phys), v.own, v.m.free, v.m.phys, v.own, v.m.free, pml4)
    ensures 2 <= |ExecFn(name)| <= 66
    ensures r.Some? ==> r.value == RandomAddress(top, name) && r.value + 16 <= ExecFnAddress(top, name)
    ensures r.Some? ==> Strings(v.m.phys, pml4, ExecFnAddress(top, name), ExecFn(name), r.value)
    ensures r.Some? ==> WritesWithin(old(v.m.phys), v.m.phys, pml4, r.value, top)
    ensures MappedRange(old(v.m.phys), pml4, top - PAGE_SIZE, top) ==>
              r.Some? && MappedRange(v.m.phys, pml4, top - PAGE_SIZE, top)
  {
    hide Machine.Valid, Wf, Linked, View, Walk, PageOf, Wrote, OnlySpace, UserByte, BytesAt, WritesWithin;
    ghost var lo := top - PAGE_SIZE;
    ghost var mapped := MappedRange(v.m.phys, pml4, lo, top);
    var path := ExecFn(name);
    r := PushUserBytes(v, pml4, top, path, 1);
    if r.None? { return; }
    var execfn := r.value;
    ghost var p1 := v.m.phys;
    if mapped { WroteMapped(old(v.m.phys), v.own, p1, pml4, execfn, path, lo, top); }
    WroteBytes(old(v.m.phys), v.own, p1, pml4, execfn, path);
    NoWrites(old(v.m.phys), pml4, top);
    WroteWithin(old(v.m.phys), old(v.m.phys), v.own, p1, pml4, execfn, path, top);
    r := PushUserBytes(v, pml4, execfn, RANDOM_BYTES, 16);
    OnlySpaceTransitive(old(v.m.phys), v.own, v.m.free, p1, v.own, v.m.free, v.m.phys, v.own, v.m.free, pml4);
    if r.None? { return; }
    if mapped { WroteMapped(p1, v.own, v.m.phys, pml4, r.value, RANDOM_BYTES, lo, top); }
    WroteBytes(p1, v.own, v.m.phys, pml4, r.value, RANDOM_BYTES);
    WroteElsewhere(p1, v.own, v.m.phys, pml4, r.value, RANDOM_BYTES, execfn, path);
    WidenWithin(old(v.m.phys), p1, pml4, execfn, top, r.value + 16);
    WroteWithin(old(v.m.phys), p1, v.own, v.m.phys, pml4, r.value, RANDOM_BYTES, top);
  }

  /** Pushes the two terminators, the argument pointer and the argument count. */
  method PushArguments(v: Vmm, pml4: nat, sp: nat, execfn: nat, ghost ws: seq<nat>, ghost path: seq<byte>, ghost random: nat,
                       ghost lo: nat, ghost hi: nat, ghost p0: Memory) returns (r: Option<nat>)
    requires v.Valid() && IsRoot(v.own, pml4) && NoHuge(v.m.phys, pml4)
    requires OnlySpace(p0, v.own, v.m.free, v.m.phys, v.own, v.m.free, pml4)
    requires WritesWithin(p0, v.m.phys, pml4, sp, hi)
    requires sp % 8 == 0 && hi <= USER_TOP && sp + 8 * |ws| <= random && random + 16 <= execfn && execfn + |path| <= hi
    requires WordsAt(v.m.phys, pml4, sp, ws) && Strings(v.m.phys, pml4, execfn, path, random)
    modifies v.m`phys
    ensures v.Valid() && NoHuge(v.m.phys, pml4)
    ensures OnlySpace(p0, v.own, v.m.free, v.m.phys, v.own, v.m.free, pml4)
    ensures r.Some? ==> sp >= 32 && r.value == sp - 32 && WritesWithin(p0, v.m.phys, pml4, r.value, hi)
    ensures r.Some? ==> WordsAt(v.m.phys, pml4, r.value, [1, execfn, 0, 0] + ws) && Strings(v.m.phys, pml4, execfn, path, random)
    ensures MappedRange(old(v.m.phys), pml4, lo, hi) && lo + 32 <= sp ==> r.Some?
  {
    hide Machine.Valid, Wf, Linked, View, Walk, PageOf, Wrote, OnlySpace, UserByte, WordsAt, BytesAt, ToLe,
      MappedRange, WritesWithin;
    ghost var p1 := v.m.phys;
    r := PushUserU64(v, pml4, sp, 0, ws, execfn, path, random, lo, hi, p0);
    OnlySpaceTransitive(p0, v.own, v.m.free, p1, v.own, v.m.free, v.m.phys, v.own, v.m.free, pml4);
    if r.None? { return; }
    p1 := v.m.phys;
    r := PushUserU64(v, pml4, r.value, 0, [0] + ws, execfn, path, random, lo, hi, p0);
    OnlySpaceTransitive(p0, v.own, v.m.free, p1, v.own, v.m.free, v.m.phys, v.own, v.m.free, pml4);
    if r.None? { return; }
    p1 := v.m.phys;
    r := PushUserU64(v, pml4, r.value, execfn, [0] + ([0] + ws), execfn, path, random, lo, hi, p0);
    OnlySpaceTransitive(p0, v.own, v.m.free, p1, v.own, v.m.free, v.m.phys, v.own, v.m.free, pml4);
    if r.None? { return; }
    p1 := v.m.phys;
    r := PushUserU64(v, pml4, r.value, 1, [execfn] + ([0] + ([0] + ws)), execfn, path, random, lo, hi, p0);
    OnlySpaceTransitive(p0, v.own, v.m.free, p1, v.own, v.m.free, v.m.phys, v.own, v.m.free, pml4);
    assert [1] + ([execfn] + ([0] + ([0] + ws))) == [1, execfn, 0, 0] + ws;
  }

  lemma NoWrites(phys: Memory, root: nat, top: nat)
    ensures WritesWithin(phys, phys, root, top, top)
  {
  }

  lemma NoWords(phys: Memory, root: nat, addr: nat)
    ensures WordsAt(phys, root, addr, [])
  {
  }

  // ----- The layout of the System V AMD64 psABI -----

  /** The `n` bytes from an address on, if all of them are mapped. */
  ghost function UserBytes(phys: Memory, root: nat, addr: nat, n: nat): Option<seq<byte>>
    decreases n
  {
    if n == 0 then Some([])
    else match (UserByte(phys, root, addr), UserBytes(phys, root, addr + 1, n - 1))
         case (Some(b), Some(rest)) => Some([b] + rest)
         case _ => None
  }

  /** The eight bytes at an address, as a little-endian number. */
  ghost function UserU64(phys: Memory, root: nat, addr: nat): Option<nat> {
    match UserBytes(phys, root, addr, 8)
    case Some(bytes) => Some(FromLe(bytes))
    case None => None
  }

  lemma {:induction false} BytesReadBack(phys: Memory, root: nat, addr: nat, bytes: seq<byte>)
    requires BytesAt(phys, root, addr, bytes)
    ensures UserBytes(phys, root, addr, |bytes|) == Some(bytes)
    decreases |bytes|
  {
    hide UserByte;
    if bytes != [] {
      assert UserByte(phys, root, addr + 0) == Some(bytes[0]);
      forall k | 0 <= k < |bytes[1..]|
        ensures UserByte(phys, root, addr + 1 + k) == Some(bytes[1..][k])
      {
        assert addr + 1 + k == addr + (k + 1);
      }
      BytesReadBack(phys, root, addr + 1, bytes[1..]);
      assert [bytes[0]] + bytes[1..] == bytes;
    }
  }

  /** Every word of the stack reads back as the number that was pushed. */
  lemma WordReadsBack(phys: Memory, root: nat, addr: nat, ws: seq<nat>, k: nat)
    requires WordsAt(phys, root, addr, ws) && k < |ws| && ws[k] < U64
    ensures UserU64(phys, root, addr + 8 * k) == Some(ws[k])
  {
    hide UserByte, BytesAt, ToLe, FromLe, UserBytes;
    U64Range();
    DecodeEncode(ws[k], 8);
    BytesReadBack(phys, root, addr + 8 * k, ToLe(ws[k], 8));
  }

  /** The `n` words from an address on, if all of them are mapped. */
  ghost function UserWords(phys: Memory, root: nat, addr: nat, n: nat): Option<seq<nat>>
    decreases n
  {
    if n == 0 then Some([])
    else match (UserU64(phys, root, addr), UserWords(phys, root, addr + 8, n - 1))
         case (Some(w), Some(rest)) => Some([w] + rest)
         case _ => None
  }

  lemma {:induction false} WordsReadBack(phys: Memory, root: nat, addr: nat, ws: seq<nat>)
    requires WordsAt(phys, root, addr, ws) && forall k :: 0 <= k < |ws| ==> ws[k] < U64
    ensures UserWords(phys, root, addr, |ws|) == Some(ws)
    decreases |ws|
  {
    hide UserU64, BytesAt, ToLe;
    if ws != [] {
      WordReadsBack(phys, root, addr, ws, 0);
      forall k | 0 <= k < |ws[1..]|
        ensures BytesAt(phys, root, addr + 8 + 8 * k, ToLe(ws[1..][k], 8))
      {
        assert addr + 8 + 8 * k == addr + 8 * (k + 1);
      }
      WordsReadBack(phys, root, addr + 8, ws[1..]);
      assert [ws[0]] + ws[1..] == ws;
    }
  }

  datatype Startup = Startup(argv: seq<nat>, envp: seq<nat>, auxv: seq<Aux>)

  /** The words before the first zero, and those after it. */
  function UntilNull(ws: seq<nat>): Option<(seq<nat>, seq<nat>)> {
    if ws == [] then None
    else if ws[0] == 0 then Some(([], ws[1..]))
    else match UntilNull(ws[1..])
         case None => None
         case Some(p) => Some(([ws[0]] + p.0, p.1))
  }

  /** Key-value pairs up to the one with key AT_NULL. */
  function ParseAux(ws: seq<nat>): Option<seq<Aux>> {
    if |ws| < 2 then None
    else if ws[0] == 0 then Some([])
    else match ParseAux(ws[2..])
         case None => None
         case Some(rest) => Some([Aux(ws[0], ws[1])] + rest)
  }

  /** How a program reads its initial stack (sections 3.4.1 and 3.4.3 of the AMD64 psABI). */
  function ParseStack(ws: seq<nat>): Option<Startup> {
    if ws == [] then None
    else
      var argc := ws[0];
      match UntilNull(ws[1..])
      case None => None
      case Some(args) =>
        if |args.0| != argc then None
        else match UntilNull(args.1)
             case None => None
             case Some(env) =>
               match ParseAux(env.1)
               case None => None
               case Some(aux) => Some(Startup(args.0, env.0, aux))
  }

  lemma {:induction false} ParseAuxWords(aux: seq<Aux>, last: Aux)
    requires last.key == 0 && forall k :: 0 <= k < |aux| ==> aux[k].key != 0
    ensures ParseAux(AuxWords(aux + [last])) == Some(aux)
  {
    var all := aux + [last];
    assert AuxWords(all) == [all[0].key, all[0].value] + AuxWords(all[1..]);
    if aux != [] {
      assert all[1..] == aux[1..] + [last];
      assert AuxWords(all)[2..] == AuxWords(aux[1..] + [last]);
      ParseAuxWords(aux[1..], last);
      assert [aux[0]] + aux[1..] == aux;
    }
  }

  /** A program started on this stack sees one argument, no environment and the twelve entries. */
  lemma StackParses(top: nat, name: string, image: Elf.LoadedImage, ids: Ids)
    requires |ExecFn(name)| + 16 <= top && ExecFnAddress(top, name) != 0
    ensures var execfn, random := ExecFnAddress(top, name), RandomAddress(top, name);
            ParseStack(StackWords(top, name, image, ids)) ==
            Some(Startup([execfn], [], AuxVector(image, ids, random, execfn)[..12]))
  {
    var execfn, random := ExecFnAddress(top, name), RandomAddress(top, name);
    var auxv := AuxVector(image, ids, random, execfn);
    assert auxv == auxv[..12] + [Aux(0, 0)];
    ParseAuxWords(auxv[..12], Aux(0, 0));
    hide ParseAux, AuxWords, ParseStack, UntilNull;
    ParseHead(execfn, AuxWords(auxv), auxv[..12]);
  }

  lemma ParseHead(arg: nat, rest: seq<nat>, aux: seq<Aux>)
    requires arg != 0 && ParseAux(rest) == Some(aux)
    ensures ParseStack([1, arg, 0, 0] + rest) == Some(Startup([arg], [], aux))
  {
    hide ParseAux;
    var ws := [1, arg, 0, 0] + rest;
    assert ws[1..] == [arg, 0, 0] + rest;
    assert ([arg, 0, 0] + rest)[1..] == [0, 0] + rest;
    assert ([0, 0] + rest)[1..] == [0] + rest;
    assert ([0] + rest)[1..] == rest;
    assert UntilNull([0, 0] + rest) == Some(([], [0] + rest));
    assert UntilNull([0] + rest) == Some(([], rest));
    assert [arg] + [] == [arg];
    assert UntilNull([arg, 0, 0] + rest) == Some(([arg], [0] + rest));
  }

  /** Every number on the stack fits in a word. */
  predicate WordSized(image: Elf.LoadedImage, ids: Ids) {
    && image.entry < U64 && image.phdr < U64 && image.phent < U64 && image.phnum < U64
    && ids.uid < U64 && ids.euid < U64 && ids.gid < U64 && ids.egid < U64
  }

  lemma {:induction false} AuxWordsSized(aux: seq<Aux>)
    requires forall k :: 0 <= k < |aux| ==> aux[k].key < U64 && aux[k].value < U64
    ensures forall k :: 0 <= k < |AuxWords(aux)| ==> AuxWords(aux)[k] < U64
  {
    if aux != [] {
      AuxWordsSized(aux[1..]);
    }
  }

  /**
   A program that reads words from its stack pointer on, through its page tables, and parses them
   finds one argument, no environment and the auxiliary vector.
   */
  lemma StackReads(phys: Memory, root: nat, sp: nat, top: nat, name: string, image: Elf.LoadedImage, ids: Ids)
    requires |ExecFn(name)| + 16 <= top < U64 && ExecFnAddress(top, name) != 0 && WordSized(image, ids)
    requires WordsAt(phys, root, sp, StackWords(top, name, image, ids))
    ensures var words := UserWords(phys, root, sp, 30);
            var execfn, random := ExecFnAddress(top, name), RandomAddress(top, name);
            && words.Some? && |words.value| == 30 && words.value[0] == 1
            && ParseStack(words.value) == Some(Startup([execfn], [], AuxVector(image, ids, random, execfn)[..12]))
  {
    hide WordsAt, UserWords, AuxWords, ParseStack, ExecFn;
    var auxv := AuxVector(image, ids, RandomAddress(top, name), ExecFnAddress(top, name));
    AuxWordsLength(auxv);
    AuxWordsSized(auxv);
    WordsReadBack(phys, root, sp, StackWords(top, name, image, ids));
    StackParses(top, name, image, ids);
  }
}
