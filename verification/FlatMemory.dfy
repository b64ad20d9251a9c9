/**
 User memory as system calls see it: bytes at addresses, in the address space that is active
 (kernel/src/usercopy.rs).
 */
module FlatMemory {
  import opened Physical
  import LE = LittleEndian

  type u64 = n: nat | n < U64

  type Flat = nat -> byte

  /** user_range_ok */
  predicate UserRange(a: nat, n: nat) { a < USER_TOP && a + n <= USER_TOP }

  function WriteMem(mem: Flat, a: nat, b: seq<byte>): Flat {
    (x: nat) => if a <= x < a + |b| then b[x - a] else mem(x)
  }

  function ReadMem(mem: Flat, a: nat, n: nat): (b: seq<byte>)
    ensures |b| == n
  {
    seq(n, i requires 0 <= i < n => mem(a + i))
  }

  function DecodeWord(b: seq<byte>): u64
    requires |b| == 8
  {
    LE.EncodeDecode(b);
    LE.U64Range();
    LE.FromLe(b)
  }

  lemma WriteRead(mem: Flat, a: nat, b: seq<byte>)
    ensures ReadMem(WriteMem(mem, a, b), a, |b|) == b
  {
  }

  lemma WriteApart(mem: Flat, a: nat, b: seq<byte>, c: nat, n: nat)
    requires c + n <= a || a + |b| <= c
    ensures ReadMem(WriteMem(mem, a, b), c, n) == ReadMem(mem, c, n)
  {
  }
}
