/** Windows into a buffer of 1024 bytes whose positions wrap, shared by pipes and the terminal. */
module Rings {
  import opened Physical

  const RING_SIZE: nat := 1024

  function Wrap(x: nat): (r: nat)
    ensures r < RING_SIZE
  {
    x % RING_SIZE
  }

  /** The `len` bytes from position `pos` on, going round. */
  function Window(b: seq<byte>, pos: nat, len: nat): (s: seq<byte>)
    requires |b| == RING_SIZE
  {
    seq(len, i requires 0 <= i < len => b[Wrap(pos + i)])
  }

  lemma WindowPush(b: seq<byte>, pos: nat, len: nat, x: byte)
    requires |b| == RING_SIZE && pos < RING_SIZE && len < RING_SIZE
    ensures Window(b[Wrap(pos + len) := x], pos, len + 1) == Window(b, pos, len) + [x]
  {
    hide Wrap;
    var longer := Window(b[Wrap(pos + len) := x], pos, len + 1);
    var same := Window(b, pos, len) + [x];
    forall i | 0 <= i < len + 1
      ensures longer[i] == same[i]
    {
      if i < len { WrapApart(pos, i, len); }
    }
  }

  lemma WindowPop(b: seq<byte>, pos: nat, len: nat)
    requires |b| == RING_SIZE && pos < RING_SIZE && 0 < len <= RING_SIZE
    ensures Window(b, pos, len) == [b[pos]] + Window(b, Wrap(pos + 1), len - 1)
  {
    hide Wrap;
    var whole := Window(b, pos, len);
    var next := Wrap(pos + 1);
    var rest := Window(b, next, len - 1);
    WrapSmall(pos);
    assert whole[0] == b[Wrap(pos + 0)];
    forall i | 0 <= i < len - 1
      ensures whole[1..][i] == rest[i]
    {
      WrapStep(pos, i + 1);
      assert whole[i + 1] == b[Wrap(pos + (i + 1))];
    }
    assert whole[1..] == rest;
  }

  /** Positions less than a full turn apart are different. */
  lemma WrapApart(pos: nat, i: nat, j: nat)
    requires i < j < i + RING_SIZE
    ensures Wrap(pos + i) != Wrap(pos + j)
  {
  }

  lemma WrapSmall(pos: nat)
    requires pos < RING_SIZE
    ensures Wrap(pos + 0) == pos
  {
  }

  lemma WrapNext(pos: nat, len: nat)
    ensures Wrap(Wrap(pos + len) + 1) == Wrap(pos + (len + 1))
  {
  }

  lemma WrapStep(pos: nat, len: nat)
    requires len > 0
    ensures Wrap(Wrap(pos + 1) + (len - 1)) == Wrap(pos + len)
  {
  }
}
