/** Little-endian integers in byte sequences. */
module LittleEndian {
  import opened Physical

  function Pow256(k: nat): nat {
    if k == 0 then 1 else 256 * Pow256(k - 1)
  }

  function FromLe(b: seq<byte>): nat {
    if b == [] then 0 else b[0] + 256 * FromLe(b[1..])
  }

  function ToLe(n: nat, k: nat): (b: seq<byte>)
    ensures |b| == k
  {
    if k == 0 then [] else [n % 256] + ToLe(n / 256, k - 1)
  }

  /** Encoding and then decoding keeps the low `k` bytes. */
  lemma {:induction false} DecodeEncode(n: nat, k: nat)
    requires n < Pow256(k)
    ensures FromLe(ToLe(n, k)) == n
  {
    if k > 0 {
      Digits(n / 256, n % 256);
      DecodeEncode(n / 256, k - 1);
      assert ToLe(n, k)[1..] == ToLe(n / 256, k - 1);
    }
  }

  lemma {:induction false} EncodeDecode(b: seq<byte>)
    ensures FromLe(b) < Pow256(|b|)
    ensures ToLe(FromLe(b), |b|) == b
  {
    if b != [] {
      EncodeDecode(b[1..]);
      Digits(FromLe(b[1..]), b[0]);
      assert [b[0]] + b[1..] == b;
    }
  }

  /** The lowest digit of a number and the rest of it. */
  lemma Digits(rest: nat, low: nat)
    requires low < 256
    ensures (low + 256 * rest) % 256 == low && (low + 256 * rest) / 256 == rest
  {
  }

  lemma U64Range()
    ensures Pow256(8) == 0x1_0000_0000_0000_0000
  {
  }
}
