/**
 ELF files as the System V gABI, chapters 4 and 5, lays them out: the file header and the program
 headers, field by field.  What is written so is what the loader (kernel/src/proc/elf.rs) reads.
 */
module ElfFormat {
  import opened Physical
  import opened LittleEndian
  import Elf
  import UserMemory

  /** Elf64_Ehdr, after the magic number. */
  datatype Ehdr = Ehdr(width: byte, encoding: byte, rest: seq<byte>, kind: nat, machine: nat, version: nat, entry: nat, phoff: nat,
                       shoff: nat, flags: nat, ehsize: nat, phentsize: nat, phnum: nat, shentsize: nat, shnum: nat, shstrndx: nat)

  /** Elf64_Phdr. */
  datatype Phdr = Phdr(kind: nat, flags: nat, offset: nat, vaddr: nat, paddr: nat, filesz: nat, memsz: nat, align: nat)

  const EHDR_BYTES: nat := 64
  const PHDR_BYTES: nat := 56

  predicate Half(n: nat) { n < 0x1_0000 }
  predicate Word(n: nat) { n < 0x1_0000_0000 }
  predicate Xword(n: nat) { n < 0x1_0000_0000_0000_0000 }

  predicate ValidEhdr(e: Ehdr) {
    |e.rest| == 10 && Half(e.kind) && Half(e.machine) && Xword(e.entry) && Xword(e.phoff) && Half(e.phentsize) && Half(e.phnum)
  }

  predicate ValidPhdr(p: Phdr) {
    Word(p.kind) && Xword(p.offset) && Xword(p.vaddr) && Xword(p.filesz) && Xword(p.memsz)
  }

  function Ident(e: Ehdr): (b: seq<byte>)
    requires |e.rest| == 10
    ensures |b| == 16
  {
    [0x7F, 'E' as int, 'L' as int, 'F' as int, e.width, e.encoding] + e.rest
  }

  function Front(e: Ehdr): (b: seq<byte>)
    ensures |b| == 24
  {
    ToLe(e.kind, 2) + ToLe(e.machine, 2) + ToLe(e.version, 4) + ToLe(e.entry, 8) + ToLe(e.phoff, 8)
  }

  function Back(e: Ehdr): (b: seq<byte>)
    ensures |b| == 24
  {
    ToLe(e.shoff, 8) + ToLe(e.flags, 4) + ToLe(e.ehsize, 2) + ToLe(e.phentsize, 2) + ToLe(e.phnum, 2) +
    ToLe(e.shentsize, 2) + ToLe(e.shnum, 2) + ToLe(e.shstrndx, 2)
  }

  function EncodeEhdr(e: Ehdr): (b: seq<byte>)
    requires |e.rest| == 10
    ensures |b| == EHDR_BYTES
  {
    Ident(e) + Front(e) + Back(e)
  }

  function EncodePhdr(p: Phdr): (b: seq<byte>)
    ensures |b| == PHDR_BYTES
  {
    ToLe(p.kind, 4) + ToLe(p.flags, 4) + ToLe(p.offset, 8) + ToLe(p.vaddr, 8) + ToLe(p.paddr, 8) + ToLe(p.filesz, 8) +
    ToLe(p.memsz, 8) + ToLe(p.align, 8)
  }

  lemma Ranges()
    ensures Pow256(2) == 0x1_0000 && Pow256(4) == 0x1_0000_0000 && Pow256(8) == 0x1_0000_0000_0000_0000
  {
  }

  /** A field that lies in the file reads as its value. */
  lemma FieldReads(data: seq<byte>, at: nat, n: nat, width: nat)
    requires at + width <= |data| && data[at..at + width] == ToLe(n, width) && n < Pow256(width)
    ensures Elf.ReadLe(data, at, width) == n
  {
    DecodeEncode(n, width);
  }

  /** The file begins with this header. */
  predicate HasEhdr(data: seq<byte>, e: Ehdr)
    requires |e.rest| == 10
  {
    |data| >= EHDR_BYTES && data[..EHDR_BYTES] == EncodeEhdr(e)
  }

  /** Program header `i` of the file is this one. */
  predicate HasPhdr(data: seq<byte>, e: Ehdr, i: nat, p: Phdr) {
    var at := e.phoff + i * e.phentsize;
    at + e.phentsize <= |data| && PHDR_BYTES <= e.phentsize && data[at..at + PHDR_BYTES] == EncodePhdr(p)
  }

  lemma SliceOf(data: seq<byte>, at: nat, b: seq<byte>, i: nat, j: nat)
    requires at + |b| <= |data| && data[at..at + |b|] == b && i <= j <= |b|
    ensures data[at + i..at + j] == b[i..j]
  {
    forall k | 0 <= k < j - i
      ensures data[at + i..at + j][k] == b[i..j][k]
    {
      assert data[at..at + |b|][i + k] == data[at + (i + k)];
    }
  }

  lemma EhdrParts(data: seq<byte>, e: Ehdr)
    requires |e.rest| == 10 && HasEhdr(data, e)
    ensures data[0..0 + 16] == Ident(e) && data[16..16 + 24] == Front(e) && data[40..40 + 24] == Back(e)
  {
    hide Ident, Front, Back;
    var b := EncodeEhdr(e);
    assert b[0..16] == Ident(e) && b[16..40] == Front(e) && b[40..64] == Back(e);
    assert data[0..0 + 64] == b;
    SliceOf(data, 0, b, 0, 16);
    SliceOf(data, 0, b, 16, 40);
    SliceOf(data, 0, b, 40, 64);
  }

  lemma IdentFields(e: Ehdr)
    requires |e.rest| == 10
    ensures Ident(e)[0..4] == [0x7F, 0x45, 0x4C, 0x46] && Ident(e)[4] == e.width && Ident(e)[5] == e.encoding
  {
  }

  lemma FrontFields(e: Ehdr)
    ensures var b := Front(e);
            && b[0..2] == ToLe(e.kind, 2) && b[2..4] == ToLe(e.machine, 2)
            && b[8..16] == ToLe(e.entry, 8) && b[16..24] == ToLe(e.phoff, 8)
  {
    hide ToLe;
    var b := Front(e);
    assert b[16..] == ToLe(e.phoff, 8) && b[16..24] == b[16..];
  }

  lemma BackFields(e: Ehdr)
    ensures Back(e)[14..16] == ToLe(e.phentsize, 2) && Back(e)[16..18] == ToLe(e.phnum, 2)
  {
    hide ToLe;
  }

  lemma EhdrFields(data: seq<byte>, e: Ehdr)
    requires ValidEhdr(e) && HasEhdr(data, e)
    ensures data[0..4] == [0x7F, 0x45, 0x4C, 0x46] && data[4] == e.width && data[5] == e.encoding
    ensures data[16..18] == ToLe(e.kind, 2) && data[18..20] == ToLe(e.machine, 2) && data[24..32] == ToLe(e.entry, 8)
    ensures data[32..40] == ToLe(e.phoff, 8) && data[54..56] == ToLe(e.phentsize, 2) && data[56..58] == ToLe(e.phnum, 2)
  {
    hide ToLe, Ident, Front, Back, EncodeEhdr;
    EhdrParts(data, e);
    IdentFields(e);
    SliceOf(data, 0, Ident(e), 0, 4);
    assert data[4] == data[0..0 + 16][4] && data[5] == data[0..0 + 16][5];
    FrontFields(e);
    SliceOf(data, 16, Front(e), 0, 2);
    SliceOf(data, 16, Front(e), 2, 4);
    SliceOf(data, 16, Front(e), 8, 16);
    SliceOf(data, 16, Front(e), 16, 24);
    BackFields(e);
    SliceOf(data, 40, Back(e), 14, 16);
    SliceOf(data, 40, Back(e), 16, 18);
  }

  /** The loader reads the header fields where the gABI puts them. */
  lemma HeaderReads(data: seq<byte>, e: Ehdr)
    requires ValidEhdr(e) && HasEhdr(data, e)
    ensures Elf.ReadHeader(data) == Elf.Header(e.entry, e.phoff, e.phentsize, e.phnum)
  {
    hide ToLe, EncodeEhdr, Elf.ReadLe, Pow256;
    EhdrFields(data, e);
    Ranges();
    FieldReads(data, 24, e.entry, 8);
    FieldReads(data, 32, e.phoff, 8);
    FieldReads(data, 54, e.phentsize, 2);
    FieldReads(data, 56, e.phnum, 2);
  }

  /** It accepts exactly the 64-bit little-endian executables for x86-64 that have program headers. */
  lemma IdentChecks(data: seq<byte>, e: Ehdr)
    requires ValidEhdr(e) && HasEhdr(data, e)
    ensures Elf.CheckIdent(data).None? <==> e.width == 2 && e.encoding == 1 && e.kind == 2 && e.machine == 62 && e.phnum != 0
  {
    hide ToLe, EncodeEhdr, Elf.ReadLe, Pow256;
    EhdrFields(data, e);
    Ranges();
    FieldReads(data, 16, e.kind, 2);
    FieldReads(data, 18, e.machine, 2);
    FieldReads(data, 56, e.phnum, 2);
  }

  lemma PhdrFields(data: seq<byte>, at: nat, p: Phdr)
    requires at + PHDR_BYTES <= |data| && data[at..at + PHDR_BYTES] == EncodePhdr(p)
    ensures data[at..at + 4] == ToLe(p.kind, 4) && data[at + 8..at + 16] == ToLe(p.offset, 8) && data[at + 16..at + 24] == ToLe(p.vaddr, 8)
    ensures data[at + 32..at + 40] == ToLe(p.filesz, 8) && data[at + 40..at + 48] == ToLe(p.memsz, 8)
  {
    hide ToLe;
    var b := EncodePhdr(p);
    assert b[0..4] == ToLe(p.kind, 4) && b[8..16] == ToLe(p.offset, 8) && b[16..24] == ToLe(p.vaddr, 8);
    assert b[32..40] == ToLe(p.filesz, 8) && b[40..48] == ToLe(p.memsz, 8);
    hide EncodePhdr;
    SliceOf(data, at, b, 0, 4);
    SliceOf(data, at, b, 8, 16);
    SliceOf(data, at, b, 16, 24);
    SliceOf(data, at, b, 32, 40);
    SliceOf(data, at, b, 40, 48);
  }

  /** The loader reads the program header fields where the gABI puts them. */
  lemma SegmentReads(data: seq<byte>, e: Ehdr, i: nat, p: Phdr)
    requires ValidPhdr(p) && HasPhdr(data, e, i, p)
    ensures Elf.ReadSegment(data, Elf.Header(e.entry, e.phoff, e.phentsize, e.phnum), i) ==
            Elf.Segment(p.kind, p.offset, p.vaddr, p.filesz, p.memsz)
  {
    hide ToLe, EncodePhdr, Elf.ReadLe, Pow256;
    var at := e.phoff + i * e.phentsize;
    PhdrFields(data, at, p);
    Ranges();
    FieldReads(data, at, p.kind, 4);
    FieldReads(data, at + 8, p.offset, 8);
    FieldReads(data, at + 16, p.vaddr, 8);
    FieldReads(data, at + 32, p.filesz, 8);
    FieldReads(data, at + 40, p.memsz, 8);
  }

  /** The segments the program headers ask to be loaded, in order. */
  function ToLoad(ps: seq<Phdr>): seq<Elf.Segment> {
    if ps == [] then []
    else
      var p := ps[|ps| - 1];
      ToLoad(ps[..|ps| - 1]) + if p.kind == 1 && p.memsz != 0 then [Elf.Segment(1, p.offset, p.vaddr, p.filesz, p.memsz)] else []
  }

  /** A file as a linker writes it: the header, and its program headers where the header says. */
  ghost predicate Written(data: seq<byte>, e: Ehdr, ps: seq<Phdr>) {
    && ValidEhdr(e) && HasEhdr(data, e) && |ps| == e.phnum
    && forall i :: 0 <= i < |ps| ==> ValidPhdr(ps[i]) && HasPhdr(data, e, i, ps[i])
  }

  /** The loader finds exactly the loadable segments of the program headers that were written. */
  lemma {:induction false} SegmentsRead(data: seq<byte>, e: Ehdr, ps: seq<Phdr>, n: nat)
    requires Written(data, e, ps) && n <= |ps|
    ensures var h := Elf.Header(e.entry, e.phoff, e.phentsize, e.phnum);
            && Elf.AllInFile(data, h, n) && (n > 0 ==> h.phentsize >= Elf.PHDR_SIZE)
            && (n > 0 ==> Elf.Segments(data, h, n) == ToLoad(ps[..n]))
    decreases n
  {
    hide HasEhdr, EncodePhdr, Elf.ReadSegment;
    if n > 0 {
      SegmentsRead(data, e, ps, n - 1);
      SegmentReads(data, e, n - 1, ps[n - 1]);
      assert ps[..n][..n - 1] == ps[..n - 1] && ps[..n][n - 1] == ps[n - 1];
    }
  }

  lemma {:induction false} Loads(ps: seq<Phdr>, i: nat) returns (k: nat)
    requires i < |ps| && ps[i].kind == 1 && ps[i].memsz != 0
    ensures k < |ToLoad(ps)| && ToLoad(ps)[k] == Elf.Segment(1, ps[i].offset, ps[i].vaddr, ps[i].filesz, ps[i].memsz)
    decreases |ps|
  {
    if i == |ps| - 1 {
      k := |ToLoad(ps)| - 1;
    } else {
      k := Loads(ps[..|ps| - 1], i);
    }
  }

  /**
   A program that was written by a linker and loaded by the kernel: it starts at the entry point, and
   each byte of each loadable segment is the byte the linker put there, or zero beyond the file size.
   */
  lemma WrittenProgram(phys: Memory, pml4: nat, data: seq<byte>, e: Ehdr, ps: seq<Phdr>, image: Elf.LoadedImage, i: nat, va: nat)
    requires Written(data, e, ps) && e.phnum != 0 && Elf.LoadedFrom(phys, pml4, data, Elf.ReadHeader(data), image)
    requires Elf.WellSeparated(ToLoad(ps)) && forall k :: 0 <= k < |ToLoad(ps)| ==> ToLoad(ps)[k].vaddr + ToLoad(ps)[k].memsz <= USER_TOP
    requires i < |ps| && ps[i].kind == 1 && ps[i].vaddr <= va < ps[i].vaddr + ps[i].memsz
    ensures image.entry == e.entry && image.phent == e.phentsize && image.phnum == e.phnum
    ensures va < ps[i].vaddr + ps[i].filesz ==> ps[i].offset + (va - ps[i].vaddr) < |data|
    ensures UserMemory.UserByte(phys, pml4, va) ==
            Some(if va < ps[i].vaddr + ps[i].filesz then data[ps[i].offset + (va - ps[i].vaddr)] else 0)
  {
    hide HasEhdr, HasPhdr, ToLoad, Elf.Segments, Elf.Loaded, Elf.WellSeparated, UserMemory.UserByte, Elf.Runnable;
    HeaderReads(data, e);
    SegmentsRead(data, e, ps, |ps|);
    assert ps[..|ps|] == ps;
    var k := Loads(ps, i);
    Elf.LoadedMeaning(phys, pml4, data, ToLoad(ps), e.phoff);
  }
}
