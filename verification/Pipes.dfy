/**
 The pipe ring buffer (the data half of `Pipe`, kernel/src/proc/fd_pipe.rs): 1024 bytes, a read
 and a write position that wrap, and a length.
 */
module Pipes {
  import opened Physical
  import opened Rings

  const PIPE_CAPACITY: nat := RING_SIZE

  function Least(a: nat, b: nat): nat { if a < b then a else b }

  class Ring {
    const buf: array<byte>
    var readPos: nat
    var writePos: nat
    var len: nat
    ghost var accepted: seq<byte>   // everything written since the pipe was created
    ghost var delivered: seq<byte>  // everything read since then

    /** The ring is well formed, and what was accepted is what was delivered and then what it holds. */
    ghost predicate Valid()
      reads this, buf
    {
      && buf.Length == PIPE_CAPACITY && readPos < PIPE_CAPACITY && len <= PIPE_CAPACITY
      && writePos == Wrap(readPos + len)
      && accepted == delivered + Contents()
    }

    /** The bytes waiting in the ring, oldest first. */
    ghost function Contents(): (s: seq<byte>)
      requires buf.Length == PIPE_CAPACITY
      reads this, buf
      ensures |s| == len
    {
      Window(buf[..], readPos, len)
    }

    constructor ()
      ensures Valid() && len == 0 && accepted == [] && delivered == [] && fresh(buf)
    {
      buf := new byte[PIPE_CAPACITY](_ => 0);
      readPos, writePos, len := 0, 0, 0;
      accepted, delivered := [], [];
    }

    /** Back to the empty ring of a new pipe. */
    method Reset()
      requires Valid()
      modifies this, buf
      ensures Valid() && len == 0 && accepted == [] && delivered == []
    {
      forall i | 0 <= i < PIPE_CAPACITY { buf[i] := 0; }
      readPos, writePos, len := 0, 0, 0;
      accepted, delivered := [], [];
    }

    /** Appends as much of `src` as there is room for. */
    method Fill(src: seq<byte>) returns (written: nat)
      requires Valid()
      modifies this, buf
      ensures Valid() && written == Least(|src|, PIPE_CAPACITY - old(len)) && len == old(len) + written
      ensures Contents() == old(Contents()) + src[..written]
      ensures accepted == old(accepted) + src[..written] && delivered == old(delivered)
    {
      hide Window, Wrap;
      written := 0;
      while written < |src| && len < PIPE_CAPACITY
        invariant Valid() && written <= |src| && len == old(len) + written
        invariant Contents() == old(Contents()) + src[..written]
        invariant accepted == old(accepted) + src[..written] && delivered == old(delivered)
        decreases |src| - written
      {
        ghost var before := buf[..];
        WindowPush(before, readPos, len, src[written]);
        buf[writePos] := src[written];
        assert buf[..] == before[writePos := src[written]];
        WrapNext(readPos, len);
        writePos := Wrap(writePos + 1);
        len := len + 1;
        accepted := accepted + [src[written]];
        assert src[..written + 1] == src[..written] + [src[written]];
        written := written + 1;
      }
    }

    /** Takes up to `count` bytes, oldest first. */
    method Drain(count: nat) returns (out: seq<byte>)
      requires Valid()
      modifies this
      ensures Valid() && |out| == Least(count, old(len)) && len == old(len) - |out|
      ensures old(Contents()) == out + Contents()
      ensures accepted == old(accepted) && delivered == old(delivered) + out
    {
      hide Window, Wrap;
      out := [];
      while |out| < count && len > 0
        invariant Valid() && |out| <= count && len + |out| == old(len)
        invariant old(Contents()) == out + Contents()
        invariant accepted == old(accepted) && delivered == old(delivered) + out
        decreases count - |out|
      {
        var b := buf[readPos];
        WindowPop(buf[..], readPos, len);
        WrapStep(readPos, len);
        ghost var rest := Window(buf[..], Wrap(readPos + 1), len - 1);
        assert out + ([b] + rest) == (out + [b]) + rest;
        assert delivered + ([b] + rest) == (delivered + [b]) + rest;
        out := out + [b];
        readPos := Wrap(readPos + 1);
        len := len - 1;
        delivered := delivered + [b];
      }
    }
  }
}
