/**
 Reading and writing files, plain, positional and vectored (kernel/src/syscall/io.rs,
 kernel/src/syscall/fs.rs, and read_file / write_file of kernel/src/proc/fd.rs).
 */
module FileIo {
  import opened Physical

  const O_RDONLY: nat := 0
  const O_WRONLY: nat := 1
  const O_RDWR: nat := 2

  function Zeros(n: nat): (s: seq<byte>)
    ensures |s| == n
  {
    seq(n, _ => 0)
  }

  function Min(a: nat, b: nat): nat { if a < b then a else b }

  // ----- One file -----

  /** The contents after `src` has been written at `off`; a hole before it reads as zeros. */
  function WriteAt(data: seq<byte>, off: nat, src: seq<byte>): (r: seq<byte>)
    ensures |r| == if off + |src| > |data| then off + |src| else |data|
    ensures forall i :: 0 <= i < |r| ==>
              r[i] == if off <= i < off + |src| then src[i - off] else if i < |data| then data[i] else 0
  {
    var grown := if off + |src| > |data| then data + Zeros(off + |src| - |data|) else data;
    grown[..off] + src + grown[off + |src|..]
  }

  /** The bytes a read at `off` yields; nothing from the end of the file on. */
  function ReadAt(data: seq<byte>, off: nat, count: nat): seq<byte> {
    if off >= |data| then [] else data[off..off + Min(count, |data| - off)]
  }

  /** Two writes in a row are one. */
  lemma WriteTwice(data: seq<byte>, off: nat, a: seq<byte>, b: seq<byte>)
    ensures WriteAt(WriteAt(data, off, a), off + |a|, b) == WriteAt(data, off, a + b)
  {
  }

  /** A short first read ends the file; otherwise two reads in a row are one. */
  lemma ReadTwice(data: seq<byte>, off: nat, m: nat, n: nat)
    ensures |ReadAt(data, off, m)| == m ==>
              ReadAt(data, off, m) + ReadAt(data, off + m, n) == ReadAt(data, off, m + n)
    ensures |ReadAt(data, off, m)| != m ==> ReadAt(data, off, m) == ReadAt(data, off, m + n)
    ensures |ReadAt(data, off, m)| <= m
  {
  }

  /** A write is read back. */
  lemma ReadBack(data: seq<byte>, off: nat, src: seq<byte>)
    ensures ReadAt(WriteAt(data, off, src), off, |src|) == src
  {
  }

  function Concat(s: seq<seq<byte>>): seq<byte> {
    if s == [] then [] else s[0] + Concat(s[1..])
  }

  lemma {:induction false} ConcatAppend(s: seq<seq<byte>>, x: seq<byte>)
    ensures Concat(s + [x]) == Concat(s) + x
  {
    if s == [] {
      assert Concat([x]) == x + Concat([x][1..]);
    } else {
      ConcatAppend(s[1..], x);
      assert (s + [x])[1..] == s[1..] + [x];
    }
  }

  function Sum(s: seq<nat>): nat { if s == [] then 0 else s[0] + Sum(s[1..]) }

  lemma {:induction false} SumAppend(s: seq<nat>, n: nat)
    ensures Sum(s + [n]) == Sum(s) + n
  {
    if s == [] {
      assert Sum([n]) == n + Sum([n][1..]);
    } else {
      SumAppend(s[1..], n);
      assert (s + [n])[1..] == s[1..] + [n];
    }
  }

  // ----- Vectors -----

  /** A user buffer: its bytes, or nothing if it is not in user space. */
  type Source = Option<seq<byte>>

  predicate AllGood(iovs: seq<Source>) { forall i :: 0 <= i < |iovs| ==> iovs[i].Some? }

  function Parts(iovs: seq<Source>): seq<seq<byte>>
    requires AllGood(iovs)
  {
    seq(|iovs|, i requires 0 <= i < |iovs| => iovs[i].value)
  }

  lemma PartsAppend(iovs: seq<Source>, k: nat)
    requires k < |iovs| && AllGood(iovs[..k + 1])
    ensures AllGood(iovs[..k]) && Concat(Parts(iovs[..k + 1])) == Concat(Parts(iovs[..k])) + iovs[k].value
  {
    assert forall i :: 0 <= i < k ==> iovs[..k][i] == iovs[..k + 1][i];
    assert Parts(iovs[..k + 1]) == Parts(iovs[..k]) + [iovs[k].value];
    ConcatAppend(Parts(iovs[..k]), iovs[k].value);
  }

  /** A room to read into: its length, or nothing if it is not in user space. */
  type Room = Option<nat>

  predicate AllRooms(iovs: seq<Room>) { forall i :: 0 <= i < |iovs| ==> iovs[i].Some? }

  function Lengths(iovs: seq<Room>): seq<nat>
    requires AllRooms(iovs)
  {
    seq(|iovs|, i requires 0 <= i < |iovs| => iovs[i].value)
  }

  /** The buffers are filled in order: each but the last is full, and none overflows. */
  predicate FilledInOrder(bufs: seq<seq<byte>>, iovs: seq<Room>) {
    && |bufs| <= |iovs|
    && (forall i :: 0 <= i < |bufs| ==> iovs[i].Some? && |bufs[i]| <= iovs[i].value)
    && (forall i :: 0 <= i < |bufs| - 1 ==> |bufs[i]| == iovs[i].value)
  }

  datatype Outcome = Done(count: nat) | Fault | BadFd | Panicked

  class OpenFile {
    var files: Option<seq<seq<byte>>>  // the file system, once it is mounted
    var fileIdx: nat
    var offset: nat
    var accMode: nat
    var append: bool

    predicate Exists()
      reads this
    {
      files.Some? && fileIdx < |files.value|
    }

    function Data(): seq<byte>
      requires Exists()
      reads this
    {
      files.value[fileIdx]
    }

    predicate Writable()
      reads this
    {
      Exists() && (accMode == O_WRONLY || accMode == O_RDWR)
    }

    predicate Readable()
      reads this
    {
      accMode != O_WRONLY
    }

    /** fs_write_at on this file. */
    method FsWriteAt(off: nat, src: seq<byte>) returns (ok: bool)
      modifies this`files
      ensures ok == old(Exists()) && (!ok ==> files == old(files))
      ensures ok ==> files == Some(old(files).value[fileIdx := WriteAt(old(Data()), off, src)])
    {
      if files.None? || fileIdx >= |files.value| { return false; }
      var data := files.value[fileIdx];
      if off + |src| > |data| { data := data + Zeros(off + |src| - |data|); }
      data := data[..off] + src + data[off + |src|..];
      files := Some(files.value[fileIdx := data]);
      return true;
    }

    /** write_file: at the cursor, or at the end of the file in append mode. */
    method WriteFile(src: seq<byte>) returns (n: Option<nat>)
      modifies this`files, this`offset
      ensures n == if old(Writable()) then Some(|src|) else None
      ensures n.None? ==> files == old(files) && offset == old(offset)
      ensures n.Some? ==>
                var at := if append then |old(Data())| else old(offset);
                files == Some(old(files).value[fileIdx := WriteAt(old(Data()), at, src)]) && offset == at + |src|
    {
      if accMode == O_RDONLY || (accMode != O_WRONLY && accMode != O_RDWR) { return None; }
      var size := if files.Some? && fileIdx < |files.value| then |files.value[fileIdx]| else 0;
      var at := if append then size else offset;
      var ok := FsWriteAt(at, src);
      if !ok { return None; }
      offset := at + |src|;
      return Some(|src|);
    }

    /**
     writev on a file: on success the file and the cursor are as after one write of all the
     buffers; a bad buffer stops it after the ones before it have been written.
     */
    method Writev(iovs: seq<Source>) returns (r: Outcome)
      requires |iovs| > 0
      modifies this`files, this`offset
      ensures r.Done? <==> old(Writable()) && AllGood(iovs)
      ensures old(Writable()) && !AllGood(iovs) ==> r.Fault?
      ensures !old(Writable()) ==> r == if iovs[0].None? then Fault else BadFd
      ensures r.Done? ==>
                var all := Concat(Parts(iovs));
                var at := if append then |old(Data())| else old(offset);
                && r.count == |all| && offset == at + |all|
                && files == Some(old(files).value[fileIdx := WriteAt(old(Data()), at, all)])
      ensures !old(Writable()) ==> files == old(files) && offset == old(offset)
      ensures r.Fault? && old(Writable()) ==>
                exists k: nat :: k < |iovs| && AllGood(iovs[..k]) && iovs[k].None?
                  && if k == 0 then files == old(files) && offset == old(offset)
                     else
                       var some := Concat(Parts(iovs[..k]));
                       var at := if append then |old(Data())| else old(offset);
                       offset == at + |some| && files == Some(old(files).value[fileIdx := WriteAt(old(Data()), at, some)])
    {
      hide Concat, WriteAt, Parts;
      ghost var at := if append && Exists() then |Data()| else offset;
      var total := 0;
      var k := 0;
      while k < |iovs|
        invariant k <= |iovs| && AllGood(iovs[..k])
        invariant k > 0 ==> old(Writable())
        invariant k == 0 ==> files == old(files) && offset == old(offset) && total == 0
        invariant k > 0 ==> Written(old(files).value, fileIdx, at, Concat(Parts(iovs[..k])), files, offset, total)
      {
        if iovs[k].None? { return Fault; }
        ghost var before := files;
        var n := WriteFile(iovs[k].value);
        if n.None? { return BadFd; }
        PartsAppend(iovs, k);
        if k == 0 {
          FirstWrite(old(files).value, fileIdx, at, iovs[0].value, files, offset, n.value);
          assert Concat(Parts(iovs[..0])) + iovs[0].value == iovs[0].value by { NoParts(iovs); }
        } else {
          NextWrite(old(files).value, fileIdx, at, Concat(Parts(iovs[..k])), iovs[k].value, before, files, offset, total + n.value);
        }
        total := total + n.value;
        if n.value != |iovs[k].value| { break; }
        k := k + 1;
      }
      assert iovs[..|iovs|] == iovs;
      return Done(total);
    }

    /** pwrite64 on a buffer that is in user space. */
    method Pwrite(src: seq<byte>, off: nat) returns (r: Outcome)
      modifies this`files
      ensures r == if accMode != O_RDONLY && old(Exists()) then Done(|src|) else BadFd
      ensures r.BadFd? ==> files == old(files)
      ensures r.Done? ==> files == Some(old(files).value[fileIdx := WriteAt(old(Data()), off, src)])
    {
      if accMode == O_RDONLY { return BadFd; }
      var ok := FsWriteAt(off, src);
      if !ok { return BadFd; }
      return Done(|src|);
    }

    /** pwritev: one positional write of all the buffers; the cursor does not move. */
    method Pwritev(iovs: seq<Source>, off: nat) returns (r: Outcome)
      requires |iovs| > 0
      modifies this`files
      ensures r.Done? <==> accMode != O_RDONLY && old(Exists()) && AllGood(iovs)
      ensures accMode != O_RDONLY && old(Exists()) && !AllGood(iovs) ==> r.Fault?
      ensures accMode == O_RDONLY || !old(Exists()) ==> r == if iovs[0].None? then Fault else BadFd
      ensures r.Done? ==>
                && r.count == |Concat(Parts(iovs))|
                && files == Some(old(files).value[fileIdx := WriteAt(old(Data()), off, Concat(Parts(iovs)))])
      ensures r.Fault? && accMode != O_RDONLY && old(Exists()) ==>
                exists k: nat :: k < |iovs| && AllGood(iovs[..k]) && iovs[k].None?
                  && files == if k == 0 then old(files)
                              else Some(old(files).value[fileIdx := WriteAt(old(Data()), off, Concat(Parts(iovs[..k])))])
      ensures accMode == O_RDONLY || !old(Exists()) ==> files == old(files)
    {
      hide Concat, WriteAt, Parts;
      var total: nat, at: nat := 0, off;
      var k := 0;
      while k < |iovs|
        invariant k <= |iovs| && AllGood(iovs[..k]) && at == off + total
        invariant k > 0 ==> accMode != O_RDONLY && old(Exists())
        invariant k == 0 ==> files == old(files) && total == 0
        invariant k > 0 ==> Written(old(files).value, fileIdx, off, Concat(Parts(iovs[..k])), files, at, total)
      {
        if iovs[k].None? { return Fault; }
        ghost var before := files;
        var n := Pwrite(iovs[k].value, at);
        if !n.Done? { return n; }
        PartsAppend(iovs, k);
        if k == 0 {
          FirstWrite(old(files).value, fileIdx, off, iovs[0].value, files, at + n.count, n.count);
          assert Concat(Parts(iovs[..0])) + iovs[0].value == iovs[0].value by { NoParts(iovs); }
        } else {
          NextWrite(old(files).value, fileIdx, off, Concat(Parts(iovs[..k])), iovs[k].value, before, files, at + n.count, total + n.count);
        }
        total := total + n.count;
        at := at + n.count;
        if n.count != |iovs[k].value| { break; }
        k := k + 1;
      }
      assert iovs[..|iovs|] == iovs;
      return Done(total);
    }

    /** What is there to read: nothing without a file system. */
    function Readables(): seq<byte>
      reads this
    {
      if Exists() then Data() else []
    }

    /** read_from_fd on a file: at the cursor, which moves on. */
    method ReadFile(count: nat) returns (got: Option<seq<byte>>)
      modifies this`offset
      ensures got.None? <==> count > 0 && !Readable()
      ensures got.None? ==> offset == old(offset)
      ensures got.Some? ==> got.value == ReadAt(Readables(), old(offset), count) && offset == old(offset) + |got.value|
    {
      if count == 0 { return Some([]); }
      if accMode == O_WRONLY { return None; }
      if files.None? || fileIdx >= |files.value| { return Some([]); }
      var data := files.value[fileIdx];
      var available := if |data| > offset then |data| - offset else 0;
      var n := Min(count, available);
      if n == 0 { return Some([]); }
      got := Some(data[offset..][..n]);
      offset := offset + n;
    }

    /** readv: the bytes of one read of the summed length, dealt out to the buffers in order. */
    method Readv(iovs: seq<Room>) returns (r: Outcome, bufs: seq<seq<byte>>)
      modifies this`offset
      ensures r.Done? && AllRooms(iovs) ==>
                && Concat(bufs) == ReadAt(Readables(), old(offset), Sum(Lengths(iovs)))
                && r.count == |Concat(bufs)| && offset == old(offset) + r.count
      ensures FilledInOrder(bufs, iovs) && AllRooms(iovs[..|bufs|])
      ensures Concat(bufs) == ReadAt(Readables(), old(offset), Sum(Lengths(iovs[..|bufs|]))) && offset == old(offset) + |Concat(bufs)|
      ensures AllRooms(iovs) && Readable() ==> r.Done?
      ensures r.Fault? ==> |bufs| < |iovs| && iovs[|bufs|].None?
      ensures !r.Panicked? && (r.BadFd? ==> !Readable())
    {
      hide Concat, Sum, Lengths, ReadAt;
      bufs := [];
      var total, k := 0, 0;
      NothingRead(Readables(), offset, iovs);
      while k < |iovs|
        invariant k == |bufs| <= |iovs| && AllRooms(iovs[..k]) && FilledInOrder(bufs, iovs)
        invariant forall i :: 0 <= i < k ==> |bufs[i]| == iovs[i].value
        invariant Concat(bufs) == ReadAt(Readables(), old(offset), Sum(Lengths(iovs[..k])))
        invariant total == |Concat(bufs)| == Sum(Lengths(iovs[..k])) && offset == old(offset) + total
      {
        if iovs[k].None? { return Fault, bufs; }
        var got := ReadFile(iovs[k].value);
        if got.None? { return BadFd, bufs; }
        ReadMore(Readables(), old(offset), iovs, k, bufs, got.value);
        bufs := bufs + [got.value];
        total := total + |got.value|;
        if |got.value| != iovs[k].value {
          if AllRooms(iovs) { ReadShort(Readables(), old(offset), iovs, k, Concat(bufs)); }
          return Done(total), bufs;
        }
        k := k + 1;
      }
      assert iovs[..|iovs|] == iovs;
      return Done(total), bufs;
    }

    /** fs_read_to_vec and pread64: a position past the end of the file panics. */
    method Pread(count: nat, off: nat) returns (r: Outcome, bytes: seq<byte>)
      ensures r.BadFd? <==> !Readable() || !Exists()
      ensures r.Panicked? <==> Readable() && Exists() && off > |Data()|
      ensures r.Done? ==> Exists() && bytes == ReadAt(Data(), off, count) && r.count == |bytes|
      ensures !r.Fault?
    {
      bytes := [];
      if accMode == O_WRONLY { return BadFd, []; }
      if files.None? || fileIdx >= |files.value| { return BadFd, []; }
      var data := files.value[fileIdx];
      var available := if |data| > off then |data| - off else 0;
      var n := Min(count, available);
      if off > |data| { return Panicked, []; }
      bytes := data[off..off + n];
      return Done(|bytes|), bytes;
    }

    /** preadv: like one positional read, whenever the position is not past the end of the file. */
    method Preadv(iovs: seq<Room>, off: nat) returns (r: Outcome, bufs: seq<seq<byte>>)
      ensures FilledInOrder(bufs, iovs) && AllRooms(iovs[..|bufs|])
      ensures Concat(bufs) == ReadAt(Readables(), off, Sum(Lengths(iovs[..|bufs|])))
      ensures r.Fault? ==> |bufs| < |iovs| && iovs[|bufs|].None?
      ensures AllRooms(iovs) && |iovs| > 0 ==>
                (r.Done? <==> Readable() && Exists() && off <= |Data()|)
      ensures AllRooms(iovs) && |iovs| > 0 ==> (r.Panicked? <==> Readable() && Exists() && off > |Data()|)
      ensures r.Done? && AllRooms(iovs) && |iovs| > 0 ==>
                Exists() && Concat(bufs) == ReadAt(Data(), off, Sum(Lengths(iovs))) && r.count == |Concat(bufs)|
    {
      hide Concat, Sum, Lengths, ReadAt;
      bufs := [];
      var total, at, k := 0, off, 0;
      NothingRead(Readables(), off, iovs);
      while k < |iovs|
        invariant k == |bufs| <= |iovs| && AllRooms(iovs[..k]) && FilledInOrder(bufs, iovs)
        invariant forall i :: 0 <= i < k ==> |bufs[i]| == iovs[i].value
        invariant Concat(bufs) == ReadAt(Readables(), off, Sum(Lengths(iovs[..k])))
        invariant total == |Concat(bufs)| == Sum(Lengths(iovs[..k])) && at == off + total
        invariant k > 0 ==> Readable() && Exists() && off <= |Data()| && at <= |Data()|
      {
        if iovs[k].None? { return Fault, bufs; }
        var n, bytes := Pread(iovs[k].value, at);
        if !n.Done? { return n, bufs; }
        ReadMore(Readables(), off, iovs, k, bufs, bytes);
        ReadBound(Data(), at, iovs[k].value);
        bufs := bufs + [bytes];
        total := total + |bytes|;
        at := at + |bytes|;
        if |bytes| != iovs[k].value {
          if AllRooms(iovs) { ReadShort(Readables(), off, iovs, k, Concat(bufs)); }
          return Done(total), bufs;
        }
        k := k + 1;
      }
      assert iovs[..|iovs|] == iovs;
      return Done(total), bufs;
    }
  }

  lemma NothingRead(data: seq<byte>, off: nat, iovs: seq<Room>)
    ensures AllRooms(iovs[..0]) && Sum(Lengths(iovs[..0])) == 0
    ensures Concat([]) == [] && ReadAt(data, off, 0) == []
  {
  }

  lemma ReadBound(data: seq<byte>, off: nat, n: nat)
    requires off <= |data|
    ensures off + |ReadAt(data, off, n)| <= |data|
  {
  }

  lemma LengthsAppend(iovs: seq<Room>, k: nat)
    requires k < |iovs| && AllRooms(iovs[..k]) && iovs[k].Some?
    ensures AllRooms(iovs[..k + 1]) && Sum(Lengths(iovs[..k + 1])) == Sum(Lengths(iovs[..k])) + iovs[k].value
  {
    assert forall i :: 0 <= i < k ==> iovs[..k + 1][i] == iovs[..k][i];
    assert Lengths(iovs[..k + 1]) == Lengths(iovs[..k]) + [iovs[k].value];
    SumAppend(Lengths(iovs[..k]), iovs[k].value);
  }

  /** The next buffer continues the single read. */
  lemma ReadMore(data: seq<byte>, off: nat, iovs: seq<Room>, k: nat, bufs: seq<seq<byte>>, got: seq<byte>)
    requires k < |iovs| && AllRooms(iovs[..k]) && iovs[k].Some?
    requires Concat(bufs) == ReadAt(data, off, Sum(Lengths(iovs[..k]))) && |Concat(bufs)| == Sum(Lengths(iovs[..k]))
    requires got == ReadAt(data, off + |Concat(bufs)|, iovs[k].value)
    ensures AllRooms(iovs[..k + 1]) && Concat(bufs + [got]) == Concat(bufs) + got
    ensures Concat(bufs + [got]) == ReadAt(data, off, Sum(Lengths(iovs[..k + 1])))
    ensures Sum(Lengths(iovs[..k + 1])) == Sum(Lengths(iovs[..k])) + iovs[k].value
    ensures |got| <= iovs[k].value
  {
    hide Concat, Sum, Lengths, ReadAt;
    LengthsAppend(iovs, k);
    ConcatAppend(bufs, got);
    ReadTwice(data, off, Sum(Lengths(iovs[..k])), iovs[k].value);
    ReadTwice(data, off + |Concat(bufs)|, iovs[k].value, 0);
  }

  /** After a short read there is nothing left for the remaining buffers. */
  lemma ReadShort(data: seq<byte>, off: nat, iovs: seq<Room>, k: nat, all: seq<byte>)
    requires k < |iovs| && AllRooms(iovs) && AllRooms(iovs[..k + 1])
    requires all == ReadAt(data, off, Sum(Lengths(iovs[..k + 1]))) && |all| != Sum(Lengths(iovs[..k + 1]))
    ensures all == ReadAt(data, off, Sum(Lengths(iovs)))
  {
    SumSplit(Lengths(iovs), k + 1);
    assert Lengths(iovs)[..k + 1] == Lengths(iovs[..k + 1]);
    ReadTwice(data, off, Sum(Lengths(iovs[..k + 1])), Sum(Lengths(iovs)[k + 1..]));
  }

  lemma {:induction false} SumSplit(s: seq<nat>, k: nat)
    requires k <= |s|
    ensures Sum(s) == Sum(s[..k]) + Sum(s[k..])
    decreases k
  {
    if k == 0 {
      assert s[0..] == s;
    } else {
      SumSplit(s, k - 1);
      SumAppend(s[..k - 1], s[k - 1]);
      assert s[..k - 1] + [s[k - 1]] == s[..k];
      assert s[k - 1..][1..] == s[k..];
    }
  }

  lemma NoParts(iovs: seq<Source>)
    ensures AllGood(iovs[..0]) && Concat(Parts(iovs[..0])) == []
  {
  }

  /** The state after `some` has been written at `at`. */
  ghost predicate Written(files: seq<seq<byte>>, idx: nat, at: nat, some: seq<byte>, now: Option<seq<seq<byte>>>, offset: nat, total: nat) {
    idx < |files| && now == Some(files[idx := WriteAt(files[idx], at, some)]) && offset == at + |some| && total == |some|
  }

  lemma FirstWrite(files: seq<seq<byte>>, idx: nat, at: nat, some: seq<byte>, now: Option<seq<seq<byte>>>, offset: nat, n: nat)
    requires idx < |files| && now == Some(files[idx := WriteAt(files[idx], at, some)]) && offset == at + |some| && n == |some|
    ensures Written(files, idx, at, some, now, offset, n)
  {
  }

  /** Writing on at the cursor (which is the end of the file in append mode) extends the single write. */
  lemma NextWrite(files: seq<seq<byte>>, idx: nat, at: nat, some: seq<byte>, more: seq<byte>, before: Option<seq<seq<byte>>>,
                  now: Option<seq<seq<byte>>>, offset: nat, total: nat)
    requires idx < |files| && before == Some(files[idx := WriteAt(files[idx], at, some)])
    requires now == Some(before.value[idx := WriteAt(before.value[idx], at + |some|, more)])
    requires offset == at + |some| + |more| && total == |some| + |more|
    ensures Written(files, idx, at, some + more, now, offset, total)
  {
    WriteTwice(files[idx], at, some, more);
    assert before.value[idx := WriteAt(files[idx], at, some + more)] == files[idx := WriteAt(files[idx], at, some + more)];
  }

  /** A file of three bytes, read at position 4. */
  method PreadPastEnd() returns (r: Outcome)
    ensures r.Panicked?
  {
    var f := new OpenFile;
    f.files, f.fileIdx, f.offset, f.accMode, f.append := Some([[1, 2, 3]]), 0, 0, O_RDWR, false;
    var bytes;
    r, bytes := f.Pread(1, 4);
  }
}
