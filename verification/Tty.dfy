/**
 The terminal's line discipline (kernel/src/hw/tty.rs): typed characters are edited in a line
 buffer; a newline commits the line to a ring that reads consume.
 */
module Tty {
  import opened Physical
  import opened Rings

  const LINE_CAPACITY: nat := 256
  const NEWLINE: byte := 10

  predicate IsNewline(c: byte) { c == 13 || c == 10 }

  predicate IsErase(c: byte) { c == 8 || c == 127 }

  predicate IsPrintable(c: byte) { 0x20 <= c <= 0x7e }

  // ----- The discipline without a ring: what has been typed, edited -----

  /** The line being edited after all of `typed`. */
  function LineOf(typed: seq<byte>): (line: seq<byte>)
    ensures |line| <= LINE_CAPACITY && forall i :: 0 <= i < |line| ==> IsPrintable(line[i])
  {
    if typed == [] then []
    else
      var before, c := LineOf(typed[..|typed| - 1]), typed[|typed| - 1];
      if IsNewline(c) then []
      else if IsErase(c) then (if before == [] then [] else before[..|before| - 1])
      else if IsPrintable(c) && |before| < LINE_CAPACITY then before + [c]
      else before
  }

  /** All the lines finished in `typed`, in order, each with its newline. */
  function LinesOf(typed: seq<byte>): seq<byte> {
    if typed == [] then []
    else
      var front, c := typed[..|typed| - 1], typed[|typed| - 1];
      if IsNewline(c) then LinesOf(front) + LineOf(front) + [NEWLINE] else LinesOf(front)
  }

  /** Erasing undoes a typed character exactly if there was room for it. */
  lemma EraseUndoes(typed: seq<byte>, c: byte, e: byte)
    requires IsPrintable(c) && IsErase(e)
    ensures LineOf(typed + [c, e]) == LineOf(typed) <==> |LineOf(typed)| < LINE_CAPACITY
  {
    var one, two := typed + [c], typed + [c, e];
    assert one[..|one| - 1] == typed && two[..|two| - 1] == one;
    assert one[|one| - 1] == c && two[|two| - 1] == e;
  }

  /** A line of printable characters that fits is delivered as it was typed. */
  lemma {:induction false} PlainLine(typed: seq<byte>, text: seq<byte>)
    requires LineOf(typed) == [] && |text| <= LINE_CAPACITY && forall i :: 0 <= i < |text| ==> IsPrintable(text[i])
    ensures LineOf(typed + text) == text && LinesOf(typed + text) == LinesOf(typed)
    decreases |text|
  {
    if text == [] {
      assert typed + text == typed;
    } else {
      var n := |text| - 1;
      PlainLine(typed, text[..n]);
      assert text[..n] + [text[n]] == text;
      assert typed + text == (typed + text[..n]) + [text[n]];
      hide LineOf, LinesOf;
      TypeChar(typed + text[..n], text[n]);
    }
  }

  lemma PlainLineCommitted(typed: seq<byte>, text: seq<byte>, nl: byte)
    requires LineOf(typed) == [] && |text| <= LINE_CAPACITY && (forall i :: 0 <= i < |text| ==> IsPrintable(text[i])) && IsNewline(nl)
    ensures LinesOf(typed + text + [nl]) == LinesOf(typed) + text + [NEWLINE] && LineOf(typed + text + [nl]) == []
  {
    PlainLine(typed, text);
    var all := typed + text + [nl];
    assert all[..|all| - 1] == typed + text && all[|all| - 1] == nl;
  }

  datatype Echo = Silent | Shown(c: byte) | Erased | NewLine

  class Inner {
    const cooked: array<byte>
    var head: nat
    var tail: nat
    const line: array<byte>
    var lineLen: nat
    ghost var typed: seq<byte>      // everything typed so far
    ghost var committed: seq<byte>  // everything that ever entered the ring
    ghost var delivered: seq<byte>  // everything reads have returned
    ghost var lossless: bool        // no commit has overflowed the ring

    ghost function Count(): nat
      requires head < RING_SIZE && tail < RING_SIZE
      reads this
    {
      if head >= tail then head - tail else head + RING_SIZE - tail
    }

    /** What reads have not consumed yet. */
    ghost function Queue(): (q: seq<byte>)
      requires cooked.Length == RING_SIZE && head < RING_SIZE && tail < RING_SIZE
      reads this, cooked
      ensures |q| == Count()
    {
      Window(cooked[..], tail, Count())
    }

    ghost predicate Valid()
      reads this, cooked, line
    {
      && cooked.Length == RING_SIZE && line.Length == LINE_CAPACITY && cooked != line
      && head < RING_SIZE && tail < RING_SIZE && lineLen <= LINE_CAPACITY
      && line[..lineLen] == LineOf(typed)
      && committed == delivered + Queue()
      && (lossless ==> committed == LinesOf(typed))
    }

    ghost function Room(): nat
      requires cooked.Length == RING_SIZE && head < RING_SIZE && tail < RING_SIZE
      reads this, cooked
    {
      RING_SIZE - 1 - |Queue()|
    }

    constructor ()
      ensures Valid() && fresh(cooked) && fresh(line) && Now() == FRESH
    {
      cooked := new byte[RING_SIZE](_ => 0);
      line := new byte[LINE_CAPACITY](_ => 0);
      head, tail, lineLen := 0, 0, 0;
      typed, committed, delivered, lossless := [], [], [], true;
    }

    /** cooked_push: a full ring drops the byte. */
    method CookedPush(c: byte)
      requires cooked.Length == RING_SIZE && head < RING_SIZE && tail < RING_SIZE
      modifies this`head, cooked
      ensures head < RING_SIZE
      ensures Queue() == if |old(Queue())| < RING_SIZE - 1 then old(Queue()) + [c] else old(Queue())
    {
      hide Window, Wrap;
      WrapAround(head, tail);
      if Wrap(head + 1) == tail { return; }
      ghost var before, n := cooked[..], Count();
      WindowPush(before, tail, n, c);
      cooked[head] := c;
      assert cooked[..] == before[head := c];
      head := Wrap(head + 1);
    }

    method CookedPop() returns (c: Option<byte>)
      requires cooked.Length == RING_SIZE && head < RING_SIZE && tail < RING_SIZE
      modifies this`tail
      ensures tail < RING_SIZE
      ensures c.None? <==> old(Queue()) == []
      ensures old(Queue()) == (if c.None? then [] else [c.value]) + Queue()
    {
      hide Window, Wrap;
      if head == tail { return None; }
      WrapAround(tail, head);
      WindowPop(cooked[..], tail, Count());
      c := Some(cooked[tail]);
      tail := Wrap(tail + 1);
    }

    /** commit_line: the line and a newline enter the ring, as far as there is room. */
    method CommitLine()
      requires Valid()
      modifies this`head, this`lineLen, cooked
      ensures head < RING_SIZE && lineLen == 0
      ensures Queue() == old(Queue()) + Fitting(LineOf(typed) + [NEWLINE], old(Room()))
    {
      hide LineOf, LinesOf, Window;
      ghost var all, room := LineOf(typed) + [NEWLINE], Room();
      for i := 0 to lineLen
        invariant head < RING_SIZE && lineLen == old(lineLen) && line[..lineLen] == LineOf(typed)
        invariant Queue() == old(Queue()) + Fitting(all[..i], room)
      {
        FitNext(old(Queue()), all, room, i);
        CookedPush(line[i]);
      }
      FitNext(old(Queue()), all, room, lineLen);
      CookedPush(NEWLINE);
      assert all[..lineLen + 1] == all;
      lineLen := 0;
    }

    /** The newline branch of input_char. */
    method InputNewline(c: byte)
      requires Valid() && IsNewline(c)
      modifies this, cooked
      ensures Valid() && typed == old(typed) + [c] && delivered == old(delivered)
      ensures committed == old(committed) + Fitting(LineOf(old(typed)) + [NEWLINE], old(Room()))
      ensures lossless == (old(lossless) && |LineOf(old(typed))| < old(Room()))
    {
      hide Window, LineOf, LinesOf, Fitting;
      TypeChar(typed, c);
      ghost var whole, room, queue := LineOf(typed) + [NEWLINE], Room(), Queue();
      FitsWhole(whole, room);
      CommitLine();
      lossless := lossless && |LineOf(typed)| < room;
      assert LinesOf(typed) + LineOf(typed) + [NEWLINE] == LinesOf(typed) + whole;
      assert delivered + (queue + Fitting(whole, room)) == (delivered + queue) + Fitting(whole, room);
      committed := committed + Fitting(whole, room);
      typed := typed + [c];
    }

    /** The other branches: erase, insert or ignore. */
    method EditLine(c: byte) returns (echo: Echo)
      requires Valid() && !IsNewline(c)
      modifies this`lineLen, this`typed, line
      ensures Valid() && typed == old(typed) + [c]
      ensures echo == if IsErase(c) then (if LineOf(old(typed)) == [] then Silent else Erased)
                      else if IsPrintable(c) && |LineOf(old(typed))| < LINE_CAPACITY then Shown(c) else Silent
    {
      hide Window, LineOf, LinesOf;
      TypeChar(typed, c);
      ghost var before := line[..lineLen];
      typed := typed + [c];
      if c == 8 || c == 127 {
        if lineLen == 0 { return Silent; }
        lineLen := lineLen - 1;
        assert line[..lineLen] == before[..lineLen];
        return Erased;
      }
      if 0x20 <= c <= 0x7e {
        if lineLen >= LINE_CAPACITY { return Silent; }
        line[lineLen] := c;
        lineLen := lineLen + 1;
        assert line[..lineLen] == before + [c];
        return Shown(c);
      }
      return Silent;
    }

    /** input_char: every typed byte has its meaning; only a commit can lose anything. */
    method InputChar(c: byte) returns (echo: Echo)
      requires Valid()
      modifies this, cooked, line
      ensures Valid() && typed == old(typed) + [c] && delivered == old(delivered)
      ensures committed == old(committed) + if IsNewline(c) then Fitting(LineOf(old(typed)) + [NEWLINE], old(Room())) else []
      ensures lossless == (old(lossless) && (IsNewline(c) ==> |LineOf(old(typed))| < old(Room())))
      ensures echo == if IsNewline(c) then NewLine
                      else if IsErase(c) then (if LineOf(old(typed)) == [] then Silent else Erased)
                      else if IsPrintable(c) && |LineOf(old(typed))| < LINE_CAPACITY then Shown(c) else Silent
    {
      hide Window, LineOf, LinesOf, Fitting;
      if c == 13 || c == 10 {
        InputNewline(c);
        return NewLine;
      }
      echo := EditLine(c);
    }

    /** One pass of read: up to `count` bytes and never past a newline. */
    method Read(count: nat) returns (out: seq<byte>)
      requires Valid()
      modifies this`tail, this`delivered
      ensures Valid() && delivered == old(delivered) + out && old(Queue()) == out + Queue() && |out| <= count
      ensures forall i :: 0 <= i < |out| - 1 ==> out[i] != NEWLINE
      ensures |out| < count && (out == [] || out[|out| - 1] != NEWLINE) ==> Queue() == []
      ensures out == Serve(old(Queue()), count)
    {
      hide Window, LineOf, LinesOf;
      out := [];
      while |out| < count
        invariant Valid() && delivered == old(delivered) + out && old(Queue()) == out + Queue() && |out| <= count
        invariant forall i :: 0 <= i < |out| ==> out[i] != NEWLINE
        decreases count - |out|
      {
        ghost var queue := Queue();
        var c := CookedPop();
        if c.None? { break; }
        assert out + queue == (out + [c.value]) + Queue();
        assert delivered + queue == (delivered + [c.value]) + Queue();
        out := out + [c.value];
        delivered := delivered + [c.value];
        if c.value == NEWLINE { break; }
      }
      ServeIs(old(Queue()), out, Queue(), count);
    }

    /** The terminal as `React` sees it. */
    ghost function Now(): Terminal
      requires Valid()
      reads this, cooked, line
    {
      Terminal(typed, Queue(), delivered, lossless)
    }

    /** One event is one step of `React`. */
    method Handle(e: Event) returns (out: seq<byte>)
      requires Valid()
      modifies this, cooked, line
      ensures Valid() && Now() == React(old(Now()), e) && out == Returned(old(Now()), e)
    {
      hide Window, LineOf, LinesOf, Fitting, Serve;
      ghost var queue := Queue();
      out := [];
      match e {
        case Key(c) =>
          var echo := InputChar(c);
          ghost var added := if IsNewline(c) then Fitting(LineOf(old(typed)) + [NEWLINE], old(Room())) else [];
          SameTail(delivered, queue, added, Queue());
        case ReadCall(count) =>
          out := Read(count);
      }
    }

    /** Any typing and reading, interleaved in any way; `outs[n]` is what event `n` returned. */
    method Run(events: seq<Event>) returns (outs: seq<seq<byte>>)
      requires Valid()
      modifies this, cooked, line
      ensures Valid() && |outs| == |events|
      ensures Now() == Reacted(old(Now()), events)
      ensures forall n :: 0 <= n < |events| ==> outs[n] == Returned(Reacted(old(Now()), events[..n]), events[n])
      ensures typed == old(typed) + Keys(events) && delivered == old(delivered) + Flatten(outs)
    {
      hide React, Returned, Valid, Keys, Flatten;
      outs := [];
      ghost var start := Now();
      assert events[..0] == [];
      for n := 0 to |events|
        invariant Valid() && |outs| == n
        invariant Now() == Reacted(start, events[..n])
        invariant forall i :: 0 <= i < n ==> outs[i] == Returned(Reacted(start, events[..i]), events[i])
      {
        ReactedNext(start, events, n);
        var out := Handle(events[n]);
        outs := outs + [out];
      }
      assert events[..|events|] == events && outs[..|outs|] == outs;
      Histories(start, events, outs, |events|);
    }
  }

  // ----- Whole runs -----

  datatype Terminal = Terminal(typed: seq<byte>, queue: seq<byte>, delivered: seq<byte>, lossless: bool)

  const FRESH := Terminal([], [], [], true)

  /** What a read of `count` bytes gets from a queue: up to a newline, a full buffer or the end. */
  function Serve(queue: seq<byte>, count: nat): (out: seq<byte>)
    ensures |out| <= |queue| && out == queue[..|out|]
  {
    if count == 0 || queue == [] then []
    else if queue[0] == NEWLINE then [NEWLINE]
    else [queue[0]] + Serve(queue[1..], count - 1)
  }

  /** A prefix that stops at the first newline, and no sooner than it must, is what `Serve` gives. */
  lemma {:induction false} ServeIs(queue: seq<byte>, out: seq<byte>, rest: seq<byte>, count: nat)
    requires queue == out + rest && |out| <= count
    requires forall i :: 0 <= i < |out| - 1 ==> out[i] != NEWLINE
    requires |out| < count && (out == [] || out[|out| - 1] != NEWLINE) ==> rest == []
    ensures out == Serve(queue, count)
    decreases |out|
  {
    if out != [] && out[0] != NEWLINE {
      assert queue[1..] == out[1..] + rest;
      ServeIs(queue[1..], out[1..], rest, count - 1);
    }
  }

  /** What one event does. */
  function React(t: Terminal, e: Event): Terminal {
    match e
    case Key(c) =>
      if IsNewline(c) then
        Terminal(t.typed + [c], t.queue + Fitting(LineOf(t.typed) + [NEWLINE], Space(t)), t.delivered,
                 t.lossless && |LineOf(t.typed)| < Space(t))
      else t.(typed := t.typed + [c])
    case ReadCall(count) =>
      var out := Serve(t.queue, count);
      t.(queue := t.queue[|out|..], delivered := t.delivered + out)
  }

  function Space(t: Terminal): nat { if |t.queue| < RING_SIZE then RING_SIZE - 1 - |t.queue| else 0 }

  function Returned(t: Terminal, e: Event): seq<byte> {
    match e
    case Key(_) => []
    case ReadCall(count) => Serve(t.queue, count)
  }

  function Reacted(t: Terminal, events: seq<Event>): Terminal {
    if events == [] then t else React(Reacted(t, events[..|events| - 1]), events[|events| - 1])
  }

  function Typed(e: Event): seq<byte> { if e.Key? then [e.c] else [] }

  function Keys(events: seq<Event>): seq<byte> {
    if events == [] then []
    else Keys(events[..|events| - 1]) + Typed(events[|events| - 1])
  }

  function Flatten(outs: seq<seq<byte>>): seq<byte> {
    if outs == [] then [] else Flatten(outs[..|outs| - 1]) + outs[|outs| - 1]
  }

  /** A run's histories are what was typed and what was returned, in order. */
  lemma {:induction false} Histories(t: Terminal, events: seq<Event>, outs: seq<seq<byte>>, n: nat)
    requires n <= |outs| == |events|
    requires forall i :: 0 <= i < |events| ==> outs[i] == Returned(Reacted(t, events[..i]), events[i])
    ensures Reacted(t, events[..n]).typed == t.typed + Keys(events[..n])
    ensures Reacted(t, events[..n]).delivered == t.delivered + Flatten(outs[..n])
    decreases n
  {
    hide React, Returned;
    if n > 0 {
      var k := n - 1;
      Histories(t, events, outs, k);
      ReactedNext(t, events, k);
      ReactHistories(Reacted(t, events[..k]), events[k]);
      assert outs[..n][..k] == outs[..k];
      assert t.typed + (Keys(events[..k]) + Typed(events[k])) == (t.typed + Keys(events[..k])) + Typed(events[k]);
      assert t.delivered + (Flatten(outs[..k]) + outs[k]) == (t.delivered + Flatten(outs[..k])) + outs[k];
    }
  }

  lemma ReactHistories(t: Terminal, e: Event)
    ensures React(t, e).typed == t.typed + Typed(e)
    ensures React(t, e).delivered == t.delivered + Returned(t, e)
  {
    hide Serve, Fitting, LineOf;
  }

  lemma SameTail(front: seq<byte>, queue: seq<byte>, added: seq<byte>, now: seq<byte>)
    requires front + now == (front + queue) + added
    ensures now == queue + added
  {
    assert (front + now)[|front|..] == now;
    assert ((front + queue) + added)[|front|..] == queue + added;
  }

  lemma ReactedNext(t: Terminal, events: seq<Event>, n: nat)
    requires n < |events|
    ensures Reacted(t, events[..n + 1]) == React(Reacted(t, events[..n]), events[n])
    ensures Keys(events[..n + 1]) == Keys(events[..n]) + Typed(events[n])
  {
    assert events[..n + 1][..n] == events[..n];
  }

  /**
   From a fresh terminal, whatever is typed and read: what has been delivered, followed by what
   still waits, is exactly the edited lines if and only if no commit overflowed the ring.
   */
  lemma {:induction false} DeliversLines(events: seq<Event>)
    ensures var t := Reacted(FRESH, events);
            && t.typed == Keys(events)
            && |t.delivered + t.queue| <= |LinesOf(t.typed)|
            && (t.lossless <==> t.delivered + t.queue == LinesOf(t.typed))
            && (t.lossless ==> t.delivered <= LinesOf(Keys(events)))
            && (t.lossless <==> |t.delivered + t.queue| == |LinesOf(t.typed)|)
    decreases |events|
  {
    if events != [] {
      var n := |events| - 1;
      DeliversLines(events[..n]);
      assert events[..n + 1] == events;
      ReactedNext(FRESH, events, n);
      var before := Reacted(FRESH, events[..n]);
      match events[n]
      case Key(c) => CommitLines(before, c);
      case ReadCall(count) => ReadLines(before, count);
    }
  }

  /** The same, of the code: a new terminal delivers the edited lines, in order, exactly until a commit overflows. */
  method Session(events: seq<Event>) returns (inner: Inner, outs: seq<seq<byte>>)
    ensures fresh(inner) && inner.Valid() && |outs| == |events|
    ensures forall n :: 0 <= n < |events| ==> outs[n] == Returned(Reacted(FRESH, events[..n]), events[n])
    ensures inner.lossless == Reacted(FRESH, events).lossless
    ensures inner.lossless <==> Flatten(outs) + inner.Queue() == LinesOf(Keys(events))
    ensures inner.lossless ==> Flatten(outs) <= LinesOf(Keys(events))
  {
    hide React, Returned, Keys, Flatten, LinesOf, LineOf, Window;
    inner := new Inner();
    outs := inner.Run(events);
    DeliversLines(events);
    assert [] + Flatten(outs) == Flatten(outs);
  }

  lemma ReadLines(t: Terminal, count: nat)
    ensures var u := React(t, ReadCall(count)); u.typed == t.typed && u.lossless == t.lossless && u.delivered + u.queue == t.delivered + t.queue
  {
    var out := Serve(t.queue, count);
    assert t.queue == out + t.queue[|out|..];
  }

  lemma CommitLines(t: Terminal, c: byte)
    requires |t.delivered + t.queue| <= |LinesOf(t.typed)|
    requires t.lossless <==> t.delivered + t.queue == LinesOf(t.typed)
    requires t.lossless <==> |t.delivered + t.queue| == |LinesOf(t.typed)|
    ensures var u := React(t, Key(c));
            && |u.delivered + u.queue| <= |LinesOf(u.typed)|
            && (u.lossless <==> u.delivered + u.queue == LinesOf(u.typed))
            && (u.lossless <==> |u.delivered + u.queue| == |LinesOf(u.typed)|)
  {
    hide LineOf, LinesOf;
    TypeChar(t.typed, c);
    if IsNewline(c) {
      var whole := LineOf(t.typed) + [NEWLINE];
      var added := Fitting(whole, Space(t));
      assert t.delivered + (t.queue + added) == (t.delivered + t.queue) + added;
      assert LinesOf(t.typed) + LineOf(t.typed) + [NEWLINE] == LinesOf(t.typed) + whole;
    }
  }

  lemma TypeChar(typed: seq<byte>, c: byte)
    ensures LineOf(typed + [c]) ==
            if IsNewline(c) then []
            else if IsErase(c) then (if LineOf(typed) == [] then [] else LineOf(typed)[..|LineOf(typed)| - 1])
            else if IsPrintable(c) && |LineOf(typed)| < LINE_CAPACITY then LineOf(typed) + [c] else LineOf(typed)
    ensures LinesOf(typed + [c]) == if IsNewline(c) then LinesOf(typed) + LineOf(typed) + [NEWLINE] else LinesOf(typed)
  {
  }

  lemma FitsWhole(s: seq<byte>, room: nat)
    ensures |s| <= room ==> Fitting(s, room) == s
  {
  }

  datatype Event = Key(c: byte) | ReadCall(count: nat)

  /** The part of `s` that fits. */
  function Fitting(s: seq<byte>, room: nat): seq<byte> { if |s| <= room then s else s[..room] }

  lemma FitNext(queue: seq<byte>, all: seq<byte>, room: nat, i: nat)
    requires i < |all| && room == RING_SIZE - 1 - |queue|
    ensures queue + Fitting(all[..i + 1], room) ==
            if |queue + Fitting(all[..i], room)| < RING_SIZE - 1 then queue + Fitting(all[..i], room) + [all[i]]
            else queue + Fitting(all[..i], room)
  {
  }

  /** One step round the ring, spelled out. */
  lemma WrapAround(a: nat, b: nat)
    requires a < RING_SIZE && b < RING_SIZE
    ensures Wrap(a + 1) == if a + 1 == RING_SIZE then 0 else a + 1
    ensures b <= a ==> Wrap(b + (a - b)) == a
    ensures a < b ==> Wrap(b + (a + RING_SIZE - b)) == a
  {
  }
}
