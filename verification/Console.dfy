/** The console's circular display buffer and poll records, which stand for the unbounded ones. */
module Console {
  import opened DisplayCycles
  import opened Rings

  /** A poll record, with ring indexes where the meaning has places in the stream. */
  datatype PollData = PollData(sum1: int, sum2: int, start: int, end: int)

  predicate Stands(p: PollData, q: Poll) {
    p == PollData(q.sum1, q.sum2, q.start % DispBufSize, q.end % DispBufSize)
  }

  /** The ring holds what is accepted and not yet shown. */
  ghost predicate Holds(ring: seq<int>, stream: seq<int>, out: int) {
    && |ring| == DispBufSize && 0 <= out
    && forall p | out <= p < |stream| :: ring[p % DispBufSize] == stream[p]
  }

  /** Two places less than a ring apart have the same index only if they are the same. */
  lemma SamePlace(a: int, b: int)
    requires 0 <= a <= b < a + DispBufSize
    ensures a % DispBufSize == b % DispBufSize <==> a == b
  {
  }

  lemma HoldsMore(ring: seq<int>, stream: seq<int>, out: int, b: int)
    requires Holds(ring, stream, out) && out <= |stream| < out + DispBufSize
    ensures 0 <= |stream| % DispBufSize < |ring|
    ensures Holds(ring[|stream| % DispBufSize := b], stream + [b], out)
  {
    var n := |stream|;
    forall p | out <= p < n
      ensures p % DispBufSize != n % DispBufSize
    {
      SamePlace(p, n);
    }
  }

  /** The index after the last byte is the first byte's only when the ring is full. */
  lemma RoomForOne(out: int, n: int)
    requires 0 <= out <= n < out + DispBufSize
    ensures NextIndex(n % DispBufSize, DispBufSize) == (n + 1) % DispBufSize
    ensures NextIndex(n % DispBufSize, DispBufSize) != out % DispBufSize <==> n - out + 1 < DispBufSize
  {
    NextIndexIs(n, DispBufSize);
    if n - out + 1 < DispBufSize {
      SamePlace(out, n + 1);
    }
  }

  lemma RoomForTwo(out: int, n: int)
    requires 0 <= out <= n < out + DispBufSize
    ensures var next := NextIndex(n % DispBufSize, DispBufSize);
            next != out % DispBufSize && NextIndex(next, DispBufSize) != out % DispBufSize
            <==> n - out + 2 < DispBufSize
  {
    RoomForOne(out, n);
    if n - out + 1 < DispBufSize {
      RoomForOne(out, n + 1);
    }
  }

  /** The k-th place from a, as an index that may wrap. */
  lemma IndexFrom(a: int, k: int)
    requires 0 <= a && 0 <= k < DispBufSize
    ensures (a + k) % DispBufSize
            == if a % DispBufSize + k < DispBufSize then a % DispBufSize + k else a % DispBufSize + k - DispBufSize
  {
  }

  /** A slice of the stream, as it lies in the ring: in one piece, or in two across the end. */
  lemma SliceInRing(ring: seq<int>, stream: seq<int>, out: int, slice: Slice)
    requires Holds(ring, stream, out) && out <= slice.start <= slice.end <= |stream|
    requires slice.end - slice.start < DispBufSize
    ensures var start, end := slice.start % DispBufSize, slice.end % DispBufSize;
            && (start <= end ==> ring[start..end] == stream[slice.start..slice.end])
            && (start > end ==> ring[start..] + ring[..end] == stream[slice.start..slice.end])
            && (start > end ==> end + DispBufSize - start == slice.end - slice.start)
  {
    var n := slice.end - slice.start;
    var start, end := slice.start % DispBufSize, slice.end % DispBufSize;
    IndexFrom(slice.start, n);
    var bytes := if start <= end then ring[start..end] else ring[start..] + ring[..end];
    assert |bytes| == n;
    forall k | 0 <= k < n
      ensures bytes[k] == stream[slice.start..slice.end][k]
    {
      IndexFrom(slice.start, k);
      assert ring[(slice.start + k) % DispBufSize] == stream[slice.start + k];
    }
  }

  ghost predicate LinesOf(ports: seq<Port>, lines: seq<Line>) {
    |ports| == |lines| && forall i | 0 <= i < |lines| :: lines[i] == ports[i].line
  }

  class ConsoleChannel {
    const displayRing: array<int>
    const pollBuffer: array<PollData>
    var displayIn: int
    var displayOut: int
    var pollIn: int
    var currentPoll: PollData
    var ports: seq<Line>
    var sendToAll: bool
    var lastDisplayUs: int
    var debugDisplay: bool
    ghost var view: Display

    ghost predicate Valid()
      reads this, displayRing, pollBuffer
    {
      Inv(view) && Refines()
    }

    /** The fields stand for the view. */
    ghost predicate Refines()
      reads this, displayRing, pollBuffer
    {
      && Holds(displayRing[..], view.stream, view.displayOut) && PollsStand(pollBuffer[..], view.polls)
      && displayIn == |view.stream| % DispBufSize && displayOut == view.displayOut % DispBufSize
      && pollIn == |view.polls| && Stands(currentPoll, view.current)
      && LinesOf(view.ports, ports) && sendToAll == view.sendToAll && lastDisplayUs == view.lastDisplayUs
    }

    constructor (connections: seq<Line>)
      requires forall i | 0 <= i < |connections| :: connections[i].sent == []
      ensures Valid() && Initial(view) && ports == connections
    {
      displayRing := new int[DispBufSize](i => 0);
      pollBuffer := new PollData[MaxPolls](i => PollData(0, 0, 0, 0));
      displayIn, displayOut, pollIn := 0, 0, 0;
      currentPoll := PollData(0, 0, 0, 0);
      ports, sendToAll, lastDisplayUs, debugDisplay := connections, false, 0, false;
      ghost var unsent := seq(|connections|, i requires 0 <= i < |connections| => Port(connections[i], []));
      ghost var d := Display([], 0, [], Poll(0, 0, 0, 0), unsent, false, 0, []);
      InitiallyInv(d);
      view := d;
    }

    /** Send bytes to the displays that want everything at once. */
    method CheckImmediate(bytes: seq<int>)
      requires Refines()
      modifies this`ports, this`view
      ensures Refines() && view == SendNow(old(view), bytes)
    {
      hide Holds, PollsStand, Stands, LinesOf, DtSend;
      ghost var before := ports;
      var i := 0;
      while i < |ports|
        invariant 0 <= i <= |ports| == |before| && view == old(view)
        invariant forall k | 0 <= k < i ::
                    ports[k] == if WantsAll(before[k]) then DtSend(before[k], bytes) else before[k]
        invariant forall k | i <= k < |ports| :: ports[k] == before[k]
      {
        if !ports[i].stopped && ports[i].connected && ports[i].interval == 0 {
          ports := ports[i := DtSend(ports[i], bytes)];
        }
        i := i + 1;
      }
      LinesImmediate(view.ports, before, ports, bytes);
      view := SendNow(view, bytes);
    }

    /** Store a byte, unless the ring is full. */
    method StoreByte(byte: int)
      requires Refines() && Partitioned(view)
      modifies this`displayIn, this`view, displayRing
      ensures Refines() && view == Accept(old(view), [byte % 256])
    {
      RoomForOne(view.displayOut, |view.stream|);
      HoldsMore(displayRing[..], view.stream, view.displayOut, byte % 256);
      hide Holds, PollsStand, Stands, Chained, NextIndex;
      var nextin := displayIn + 1;
      if nextin == DispBufSize {
        nextin := 0;
      }
      NextIndexOf(displayIn, nextin);
      if nextin != displayOut {
        ghost var ring := displayRing[..];
        displayRing[displayIn] := byte % 256;
        assert displayRing[..] == ring[displayIn := byte % 256];
        displayIn := nextin;
        view := Accept(view, [byte % 256]);
      }
    }

    method ConsoleByte1(byte: int)
      requires Valid()
      modifies this`displayIn, this`ports, this`view, displayRing
      ensures Valid() && view == Next(old(view), Byte(byte))
    {
      AddKeeps(view, [byte % 256]);
      StoreByte(byte);
      CheckImmediate([byte % 256]);
    }

    /** Store two bytes, unless there is no room for both. */
    method StoreTwo(byte1: int, byte2: int)
      requires Refines() && Partitioned(view)
      modifies this`displayIn, this`view, displayRing
      ensures Refines() && view == Accept(old(view), [byte1 % 256, byte2 % 256])
    {
      RoomForTwo(view.displayOut, |view.stream|);
      RoomForOne(view.displayOut, |view.stream|);
      if |view.stream| + 2 < view.displayOut + DispBufSize {
        AddTwo(displayRing[..], view.stream, view.displayOut, byte1 % 256, byte2 % 256);
      }
      hide Holds, PollsStand, Stands, Chained, NextIndex;
      var nextin := displayIn + 1;
      if nextin == DispBufSize {
        nextin := 0;
      }
      var nextin2 := nextin + 1;
      if nextin2 == DispBufSize {
        nextin2 := 0;
      }
      NextIndexOf(displayIn, nextin);
      NextIndexOf(nextin, nextin2);
      if nextin != displayOut && nextin2 != displayOut {
        ghost var ring := displayRing[..];
        displayRing[displayIn] := byte1 % 256;
        displayRing[nextin] := byte2 % 256;
        assert displayRing[..] == ring[displayIn := byte1 % 256][nextin := byte2 % 256];
        displayIn := nextin2;
        view := Accept(view, [byte1 % 256, byte2 % 256]);
      }
    }

    method ConsoleByte2(byte1: int, byte2: int)
      requires Valid()
      modifies this`displayIn, this`ports, this`view, displayRing
      ensures Valid() && view == Add(old(view), [byte1 % 256, byte2 % 256])
    {
      AddKeeps(view, [byte1 % 256, byte2 % 256]);
      StoreTwo(byte1, byte2);
      CheckImmediate([byte1 % 256, byte2 % 256]);
    }

    method ConsoleSetXY(code: int, data: int)
      requires Valid()
      modifies this`displayIn, this`currentPoll, this`ports, this`view, displayRing
      ensures Valid() && view == Next(old(view), Coordinate(code, data))
    {
      hide Holds, PollsStand, Add, LinesOf, Inv;
      var sum1 := currentPoll.sum1 + data;
      ghost var c := view.current.(sum1 := sum1, sum2 := view.current.sum2 + sum1);
      SumsDoNotMatter(view, c);
      currentPoll := currentPoll.(sum1 := sum1, sum2 := currentPoll.sum2 + sum1);
      view := view.(current := c);
      var coordinate := data % 512;
      ConsoleByte2(code + coordinate / 256, coordinate % 256);
    }

    method ConsoleReinitPoll()
      requires Refines()
      modifies this`currentPoll, this`view
      ensures Refines() && view == Reinit(old(view))
    {
      hide Holds, PollsStand;
      currentPoll := currentPoll.(sum1 := 0, sum2 := 0, start := displayIn);
      view := Reinit(view);
    }

    /** Send a slice, which may lie in the ring in two pieces. */
    method ConsoleSendFrame(p: Line, start: int, end: int, ghost slice: Slice) returns (q: Line)
      requires p.connected && Holds(displayRing[..], view.stream, view.displayOut)
      requires view.displayOut <= slice.start <= slice.end <= |view.stream| < view.displayOut + DispBufSize
      requires start == slice.start % DispBufSize && end == slice.end % DispBufSize
      ensures q == DtSend(p, view.stream[slice.start..slice.end])
    {
      SliceInRing(displayRing[..], view.stream, view.displayOut, slice);
      hide Holds;
      if start > end {
        var len := end + DispBufSize - start;
        if len > p.free {
          return p;
        }
        q := DtSend(p, displayRing[start..]);
        if end > 0 {
          q := DtSend(q, displayRing[..end]);
        }
      } else {
        q := DtSend(p, displayRing[start..end]);
      }
    }

    /** The trace line that goes before a frame when the display is debugged. */
    function TraceLine(buf: seq<int>): seq<int>
      reads this`debugDisplay
    {
      if debugDisplay then buf else []
    }

    /** Send a frame to a display that is due. */
    method SendFrameTo(line: Line, start: int, end: int, us: int, buf: seq<int>, ghost slice: Slice) returns (p: Line)
      requires line.connected && Holds(displayRing[..], view.stream, view.displayOut)
      requires view.displayOut <= slice.start <= slice.end <= |view.stream| < view.displayOut + DispBufSize
      requires start == slice.start % DispBufSize && end == slice.end % DispBufSize
      ensures p == SendBlock(line, us, TraceLine(buf), view.stream[slice.start..slice.end])
    {
      p := line.(sendNow := false, lastFrame := us);
      NothingSent(p);
      if debugDisplay {
        p := DtSend(p, buf);
      }
      p := ConsoleSendFrame(p, start, end, slice);
      p := DtSend(p, [EndBlock]);
    }

    /** Send a frame to every display that is due. */
    method ServeDisplays(start: int, end: int, us: int, buf: seq<int>, ghost slice: Slice)
      requires Holds(displayRing[..], view.stream, view.displayOut)
      requires 0 <= view.displayOut <= slice.start <= slice.end <= |view.stream| < view.displayOut + DispBufSize
      requires start == slice.start % DispBufSize && end == slice.end % DispBufSize
      modifies this`ports
      ensures |ports| == |old(ports)|
      ensures var bytes := view.stream[slice.start..slice.end];
              forall k | 0 <= k < |ports| ::
                ports[k] == if Due(old(ports)[k], sendToAll, us)
                            then SendBlock(old(ports)[k], us, TraceLine(buf), bytes)
                            else old(ports)[k]
    {
      hide Holds, SendBlock;
      ghost var before, bytes, trace := ports, view.stream[slice.start..slice.end], TraceLine(buf);
      var i := 0;
      while i < |ports|
        invariant 0 <= i <= |ports| == |before|
        invariant forall k | 0 <= k < i ::
                    ports[k] == if Due(before[k], sendToAll, us) then SendBlock(before[k], us, trace, bytes)
                                else before[k]
        invariant forall k | i <= k < |ports| :: ports[k] == before[k]
      {
        var line := ports[i];
        if !line.stopped && line.connected && line.interval != 0
           && (sendToAll || line.sendNow || (us - line.lastFrame) % 0x1_0000_0000 >= line.interval) {
          var p := SendFrameTo(ports[i], start, end, us, buf, slice);
          ports := ports[i := p];
        }
        i := i + 1;
      }
    }

    method ConsoleSendOutput(start: int, end: int, us: int, buf: seq<int>, ghost slice: Slice)
      requires Refines()
      requires 0 <= view.displayOut <= slice.start <= slice.end <= |view.stream| < view.displayOut + DispBufSize
      requires start == slice.start % DispBufSize && end == slice.end % DispBufSize
      modifies this`displayOut, this`ports, this`lastDisplayUs, this`sendToAll, this`view
      ensures Refines() && view == Send(old(view), slice, us, TraceLine(buf))
    {
      hide Holds, PollsStand, Stands, SendBlock, Due, LinesOf, Send;
      SentFields(view, slice, us, TraceLine(buf));
      ghost var bytes, trace, before := view.stream[slice.start..slice.end], TraceLine(buf), ports;
      ServeDisplays(start, end, us, buf, slice);
      HoldsFrom(displayRing[..], view.stream, view.displayOut, slice.end);
      LinesServed(view.ports, before, ports, view.sendToAll, us, trace, slice, bytes);
      lastDisplayUs := us;
      displayOut := end;
      sendToAll := false;
      view := Send(view, slice, us, trace);
    }

    /** The latest stored poll with the checksums of the current one, or -1. */
    method LatestMatch() returns (i: int)
      requires Refines()
      ensures i == Match(view.polls, view.current, |view.polls|)
    {
      hide Holds, LinesOf;
      i := pollIn - 1;
      while i >= 0
        invariant -1 <= i < pollIn && Match(view.polls, view.current, i + 1) == Match(view.polls, view.current, pollIn)
      {
        if pollBuffer[i].sum1 == currentPoll.sum1 && pollBuffer[i].sum2 == currentPoll.sum2 {
          return;
        }
        i := i - 1;
      }
    }

    /** Send the cycle that starts at stored poll i, and forget the stored polls. */
    method ConsoleSendCycle(i: int, us: int, buf: seq<int>)
      requires Refines() && Partitioned(view) && 0 <= i < |view.polls|
      modifies this`pollIn
      modifies this`displayOut, this`ports, this`lastDisplayUs, this`sendToAll, this`view
      ensures Refines() && view == SendCycle(old(view), i, us, TraceLine(buf))
    {
      hide Holds, LinesOf, Send;
      ghost var slice := CycleFrom(view, i);
      ConsoleSendOutput(pollBuffer[i].start, currentPoll.start, us, buf, slice);
      pollIn := 0;
      view := view.(polls := []);
    }

    /** Close the current poll, and send the cycle that it ends if there is one. */
    method ClosePoll(us: int, buf: seq<int>)
      requires Refines() && Partitioned(view)
      modifies this`pollIn, this`currentPoll
      modifies this`displayOut, this`ports, this`lastDisplayUs, this`sendToAll, this`view
      ensures Refines() && view == SendMatch(Closed(old(view)), us, TraceLine(buf))
    {
      hide Holds, LinesOf, PollsStand, SendCycle, Match, Chained;
      currentPoll := currentPoll.(end := displayIn);
      view := Closed(view);
      var i := LatestMatch();
      if i >= 0 {
        ConsoleSendCycle(i, us, buf);
      }
    }

    /** Store the current poll and begin the next one. */
    method ConsoleStorePoll()
      requires Refines() && |view.polls| < MaxPolls
      modifies this`pollIn, this`currentPoll, this`view, pollBuffer
      ensures Refines() && view == StorePoll(old(view))
    {
      hide Holds, LinesOf;
      ghost var buffer := pollBuffer[..];
      pollBuffer[pollIn] := currentPoll;
      assert pollBuffer[..] == buffer[pollIn := currentPoll];
      pollIn := pollIn + 1;
      view := view.(polls := view.polls + [view.current]);
      ConsoleReinitPoll();
    }

    method ConsolePoll(us: int, buf: seq<int>)
      requires Valid()
      modifies this`pollIn, this`currentPoll, pollBuffer
      modifies this`displayOut, this`ports, this`lastDisplayUs, this`sendToAll, this`view
      ensures Valid() && view == Next(old(view), KeyboardPoll(us, TraceLine(buf)))
    {
      hide Holds, LinesOf, PollsStand, Stands, SendMatch, Inv, Partitioned, Closed, StorePoll;
      PollKeeps(view, us, TraceLine(buf));
      FewPolls(view, us, TraceLine(buf));
      if pollIn == MaxPolls - 1 {
        return;
      }
      ClosePoll(us, buf);
      ConsoleStorePoll();
    }

    /** Send everything, when no poll is stored. */
    method ConsoleSendRing(us: int, buf: seq<int>)
      requires Refines() && Partitioned(view)
      modifies this`currentPoll
      modifies this`displayOut, this`ports, this`lastDisplayUs, this`sendToAll, this`view
      ensures Refines()
      ensures view == Reinit(Send(old(view), Slice(old(view).displayOut, |old(view).stream|), us, TraceLine(buf)))
    {
      hide Holds, LinesOf, Send, PollsStand, Stands, Reinit;
      ConsoleSendOutput(displayOut, displayIn, us, buf, Slice(view.displayOut, |view.stream|));
      ConsoleReinitPoll();
    }

    /** Send all stored polls, or everything if there is none. */
    method ConsoleSendPending(us: int, buf: seq<int>)
      requires Refines() && Partitioned(view)
      modifies this`pollIn, this`currentPoll
      modifies this`displayOut, this`ports, this`lastDisplayUs, this`sendToAll, this`view
      ensures Refines() && view == SendPending(old(view), us, TraceLine(buf))
    {
      hide Holds, LinesOf, Send, SendCycle, PollsStand, Stands, Partitioned, Reinit;
      if pollIn == 0 {
        ConsoleSendRing(us, buf);
      } else {
        ConsoleSendCycle(0, us, buf);
      }
    }

    method ConsoleCheckOutput(us: int, buf: seq<int>)
      requires Valid()
      modifies this`pollIn, this`currentPoll
      modifies this`displayOut, this`ports, this`lastDisplayUs, this`sendToAll, this`view
      ensures Valid() && view == Next(old(view), CheckOutput(us, TraceLine(buf)))
    {
      hide Holds, LinesOf, SendPending, PollsStand, Stands, Partitioned, Inv;
      CheckKeeps(view, us, TraceLine(buf));
      EmptyIff(view);
      if (us - lastDisplayUs) % 0x1_0000_0000 > RefreshInterval {
        if displayIn == displayOut {
          lastDisplayUs := us;
          view := view.(lastDisplayUs := us);
          return;
        }
        ConsoleSendPending(us, buf);
      }
    }
  }

  lemma SentFields(d: Display, slice: Slice, us: int, trace: seq<int>)
    requires Fits(slice, |d.stream|)
    ensures var e := Send(d, slice, us, trace);
            && e.stream == d.stream && e.displayOut == slice.end && e.polls == d.polls && e.current == d.current
            && e.ports == ServeAll(d.ports, d.sendToAll, us, trace, slice, d.stream[slice.start..slice.end])
            && e.lastDisplayUs == us && !e.sendToAll
  {
  }

  lemma LinesServed(ports: seq<Port>, before: seq<Line>, after: seq<Line>, sendToAll: bool, us: int,
                    trace: seq<int>, slice: Slice, bytes: seq<int>)
    requires LinesOf(ports, before) && |after| == |before|
    requires forall k | 0 <= k < |after| ::
               after[k] == if Due(before[k], sendToAll, us) then SendBlock(before[k], us, trace, bytes) else before[k]
    ensures LinesOf(ServeAll(ports, sendToAll, us, trace, slice, bytes), after)
  {
    hide SendBlock, Due, FrameSent;
  }

  lemma HoldsFrom(ring: seq<int>, stream: seq<int>, out: int, later: int)
    requires Holds(ring, stream, out) && out <= later
    ensures Holds(ring, stream, later)
  {
  }

  lemma LinesImmediate(ports: seq<Port>, before: seq<Line>, after: seq<Line>, bytes: seq<int>)
    requires LinesOf(ports, before) && |after| == |before|
    requires forall k | 0 <= k < |after| ::
               after[k] == if WantsAll(before[k]) then DtSend(before[k], bytes) else before[k]
    ensures LinesOf(ImmediateAll(ports, bytes), after)
  {
    hide WantsAll, DtSend;
  }

  lemma FewPolls(d: Display, us: int, trace: seq<int>)
    requires Inv(d)
    ensures Partitioned(d) && |SendMatch(Closed(d), us, trace).polls| <= |d.polls| < MaxPolls
  {
  }

  lemma EmptyIff(d: Display)
    requires Inv(d)
    ensures Partitioned(d)
    ensures d.displayOut % DispBufSize == |d.stream| % DispBufSize <==> d.displayOut == |d.stream|
  {
    SamePlace(d.displayOut, |d.stream|);
  }

  lemma NextIndexOf(i: int, next: int)
    requires next == if i + 1 == DispBufSize then 0 else i + 1
    ensures next == NextIndex(i, DispBufSize)
  {
  }

  lemma NothingSent(p: Line)
    ensures DtSend(p, []) == p
  {
    assert p.sent + [] == p.sent;
  }

  lemma SumsDoNotMatter(d: Display, c: Poll)
    requires Inv(d) && c.start == d.current.start
    ensures Inv(d.(current := c))
  {
  }

  lemma AddTwo(ring: seq<int>, stream: seq<int>, out: int, b: int, c: int)
    requires Holds(ring, stream, out) && out <= |stream| && |stream| + 2 < out + DispBufSize
    ensures var n := |stream|;
            && 0 <= n % DispBufSize < |ring| && 0 <= (n + 1) % DispBufSize < |ring|
            && NextIndex((n + 1) % DispBufSize, DispBufSize) == (n + 2) % DispBufSize
            && Holds(ring[n % DispBufSize := b][(n + 1) % DispBufSize := c], stream + [b, c], out)
  {
    var n := |stream|;
    NextIndexIs(n + 1, DispBufSize);
    HoldsMore(ring, stream, out, b);
    HoldsMore(ring[n % DispBufSize := b], stream + [b], out, c);
    assert stream + [b] + [c] == stream + [b, c];
  }

  predicate PollsStand(buffer: seq<PollData>, polls: seq<Poll>) {
    |buffer| == MaxPolls && |polls| <= MaxPolls && forall i | 0 <= i < |polls| :: Stands(buffer[i], polls[i])
  }
}
