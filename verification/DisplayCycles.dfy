/**
 What the console's display bookkeeping means, on an unbounded stream of accepted bytes: stored
 polls and the current poll cut the bytes not yet shown into pieces, and frames are cut from them.
 */
module DisplayCycles {

  const DispBufSize := 20000
  const MaxPolls := 5
  const RefreshInterval := 100000
  const EndBlock := 0xa8

  /** The coordinate checksums of a poll, and where its bytes start and end. */
  datatype Poll = Poll(sum1: int, sum2: int, start: int, end: int)

  datatype Slice = Slice(start: int, end: int)

  /** What a display was sent: for a frame a trace line, a slice, if there was room for it, and an end
      mark, if there was room; or bytes at once, as they were output. */
  datatype Block = Frame(trace: seq<int>, slice: Slice, data: bool, mark: bool) | Now(bytes: seq<int>)

  /** A connection to a display: its settings, the room left to send, and all it was ever sent. */
  datatype Line = Line(
    connected: bool, stopped: bool, sendNow: bool, interval: int, lastFrame: int, free: int, sent: seq<int>)

  /** A connection, and the history of what was sent on it. */
  datatype Port = Port(line: Line, blocks: seq<Block>)

  datatype Display = Display(
    stream: seq<int>, displayOut: int, polls: seq<Poll>, current: Poll,
    ports: seq<Port>, sendToAll: bool, lastDisplayUs: int, frames: seq<Slice>)

  /** Sending on the network is all or nothing. */
  predicate CanSend(p: Line, n: int) { p.connected && n <= p.free }

  function DtSend(p: Line, bytes: seq<int>): Line {
    if CanSend(p, |bytes|) then p.(free := p.free - |bytes|, sent := p.sent + bytes) else p
  }

  /** What is sent takes up the room there is: all of it is sent, or nothing. */
  lemma SendTakesRoom(p: Line, bytes: seq<int>)
    ensures var q := DtSend(p, bytes);
            && q.free + |q.sent| == p.free + |p.sent| && (p.free >= 0 ==> q.free >= 0)
            && q.sent == p.sent + if p.connected && |bytes| <= p.free then bytes else []
  {
  }

  /** Microseconds are counted modulo 2^32. */
  function Since(now: int, before: int): int { (now - before) % 0x1_0000_0000 }

  predicate Due(p: Line, sendToAll: bool, us: int) {
    && !p.stopped && p.connected && p.interval != 0
    && (sendToAll || p.sendNow || Since(us, p.lastFrame) >= p.interval)
  }

  /** A frame: the trace line, the bytes and the end mark, each if there is room for it. */
  function SendBlock(p: Line, us: int, trace: seq<int>, bytes: seq<int>): Line {
    DtSend(DtSend(DtSend(p.(sendNow := false, lastFrame := us), trace), bytes), [EndBlock])
  }

  /** The frame that is sent to a display. */
  function FrameSent(p: Line, us: int, trace: seq<int>, slice: Slice, bytes: seq<int>): Block {
    var q := DtSend(p.(sendNow := false, lastFrame := us), trace);
    Frame(if CanSend(p, |trace|) then trace else [], slice, CanSend(q, |bytes|), CanSend(DtSend(q, bytes), 1))
  }

  function Serve(p: Port, sendToAll: bool, us: int, trace: seq<int>, slice: Slice, bytes: seq<int>): Port {
    if !Due(p.line, sendToAll, us) then p
    else Port(SendBlock(p.line, us, trace, bytes), p.blocks + [FrameSent(p.line, us, trace, slice, bytes)])
  }

  function ServeAll(ports: seq<Port>, sendToAll: bool, us: int, trace: seq<int>, slice: Slice, bytes: seq<int>):
    (r: seq<Port>)
    ensures |r| == |ports|
    ensures forall i | 0 <= i < |ports| :: r[i] == Serve(ports[i], sendToAll, us, trace, slice, bytes)
  {
    if ports == [] then []
    else
      [Serve(ports[0], sendToAll, us, trace, slice, bytes)]
      + ServeAll(ports[1..], sendToAll, us, trace, slice, bytes)
  }

  /** Displays that ask for an interval of zero get everything at once. */
  predicate WantsAll(p: Line) {
    !p.stopped && p.connected && p.interval == 0
  }

  function Immediate(p: Port, bytes: seq<int>): Port {
    if !WantsAll(p.line) then p
    else Port(DtSend(p.line, bytes), p.blocks + [Now(if CanSend(p.line, |bytes|) then bytes else [])])
  }

  function ImmediateAll(ports: seq<Port>, bytes: seq<int>): (r: seq<Port>)
    ensures |r| == |ports|
    ensures forall i | 0 <= i < |ports| :: r[i] == Immediate(ports[i], bytes)
  {
    if ports == [] then [] else [Immediate(ports[0], bytes)] + ImmediateAll(ports[1..], bytes)
  }

  predicate Fits(slice: Slice, length: int) { 0 <= slice.start <= slice.end <= length }

  function Bytes(stream: seq<int>, slice: Slice): seq<int> {
    if Fits(slice, |stream|) then stream[slice.start..slice.end] else []
  }

  /** A frame goes to every display that is due, and what comes before its end is done with. */
  function Send(d: Display, slice: Slice, us: int, trace: seq<int>): Display {
    d.(ports := ServeAll(d.ports, d.sendToAll, us, trace, slice, Bytes(d.stream, slice)),
       lastDisplayUs := us, displayOut := slice.end, sendToAll := false, frames := d.frames + [slice])
  }

  /** Bytes are accepted together or not at all; one place of the ring stays empty. */
  function Accept(d: Display, bytes: seq<int>): Display {
    if |d.stream| - d.displayOut + |bytes| < DispBufSize then d.(stream := d.stream + bytes) else d
  }

  function SendNow(d: Display, bytes: seq<int>): Display {
    d.(ports := ImmediateAll(d.ports, bytes))
  }

  function Add(d: Display, bytes: seq<int>): Display {
    SendNow(Accept(d, bytes), bytes)
  }

  function SetXY(d: Display, code: int, data: int): Display {
    var sum1 := d.current.sum1 + data;
    var c := d.current.(sum1 := sum1, sum2 := d.current.sum2 + sum1);
    Add(d.(current := c), [(code + data % 512 / 256) % 256, data % 512 % 256])
  }

  function Reinit(d: Display): Display {
    d.(current := d.current.(sum1 := 0, sum2 := 0, start := |d.stream|))
  }

  predicate SameSums(a: Poll, b: Poll) { a.sum1 == b.sum1 && a.sum2 == b.sum2 }

  /** The latest of the first n stored polls with the checksums of the current one, or -1. */
  function Match(polls: seq<Poll>, current: Poll, n: nat): (i: int)
    requires n <= |polls|
    ensures -1 <= i < n
    ensures i >= 0 ==> SameSums(polls[i], current)
    ensures forall k | i < k < n :: !SameSums(polls[k], current)
  {
    if n == 0 then -1 else if SameSums(polls[n - 1], current) then n - 1 else Match(polls, current, n - 1)
  }

  ghost predicate Inv(d: Display) {
    && Partitioned(d) && Ordered(d.frames, d.displayOut)
    && forall i | 0 <= i < |d.ports| :: PortInv(d.stream, d.displayOut, d.ports[i])
  }

  /** From displayOut on, each stored poll starts where the one before it ends, and the current
      poll where the last one ends. */
  ghost predicate Chained(polls: seq<Poll>, from: int, to: int) {
    && from <= to
    && (if polls == [] then from == to else polls[0].start == from && polls[|polls| - 1].end == to)
    && (forall i | 0 <= i < |polls| :: from <= polls[i].start <= polls[i].end <= to)
    && (forall i | 0 < i < |polls| :: polls[i - 1].end == polls[i].start)
  }

  ghost predicate Partitioned(d: Display) {
    && 0 <= d.displayOut && d.current.start <= |d.stream| < d.displayOut + DispBufSize
    && |d.polls| < MaxPolls
    && Chained(d.polls, d.displayOut, d.current.start)
  }

  /** Slices that follow one another without overlap, up to some place. */
  ghost predicate Ordered(slices: seq<Slice>, to: int) {
    && (forall i | 0 <= i < |slices| :: Fits(slices[i], to))
    && (forall i, j | 0 <= i < j < |slices| :: slices[i].end <= slices[j].start)
  }

  /** The frames among the blocks follow one another without overlap, up to some place. */
  ghost predicate FramesOrdered(blocks: seq<Block>, to: int) {
    && (forall i | 0 <= i < |blocks| && blocks[i].Frame? :: Fits(blocks[i].slice, to))
    && (forall i, j | 0 <= i < j < |blocks| && blocks[i].Frame? && blocks[j].Frame? ::
          blocks[i].slice.end <= blocks[j].slice.start)
  }

  function BlockBytes(stream: seq<int>, b: Block): seq<int> {
    match b
    case Frame(trace, slice, data, mark) =>
      trace + (if data then Bytes(stream, slice) else []) + (if mark then [EndBlock] else [])
    case Now(bytes) => bytes
  }

  /** The bytes that a list of blocks stands for. */
  function Rendered(stream: seq<int>, blocks: seq<Block>): seq<int> {
    if blocks == [] then []
    else Rendered(stream, blocks[..|blocks| - 1]) + BlockBytes(stream, blocks[|blocks| - 1])
  }

  /** What a display got is slices of the stream, in order, without overlap, each whole; and what
      was sent at once. */
  ghost predicate PortInv(stream: seq<int>, displayOut: int, p: Port) {
    displayOut <= |stream| && FramesOrdered(p.blocks, displayOut) && p.line.sent == Rendered(stream, p.blocks)
  }

  datatype Action =
    | Byte(byte: int)
    | Coordinate(code: int, data: int)
    | KeyboardPoll(us: int, trace: seq<int>)
    | CheckOutput(us: int, trace: seq<int>)
    | Environment(ports: seq<Port>, sendToAll: bool)

  /** The current poll ends here. */
  function Closed(d: Display): Display {
    d.(current := d.current.(end := |d.stream|))
  }

  /** The cycle from stored poll i up to the current poll is sent, and the stored polls forgotten. */
  function CycleFrom(d: Display, i: int): Slice
    requires 0 <= i < |d.polls|
  {
    Slice(d.polls[i].start, d.current.start)
  }

  function SendCycle(d: Display, i: int, us: int, trace: seq<int>): Display
    requires 0 <= i < |d.polls|
  {
    Send(d, CycleFrom(d, i), us, trace).(polls := [])
  }

  function SendMatch(d: Display, us: int, trace: seq<int>): Display {
    var i := Match(d.polls, d.current, |d.polls|);
    if i < 0 then d else SendCycle(d, i, us, trace)
  }

  /** The current poll is stored, and the next one begins. */
  function StorePoll(d: Display): Display {
    Reinit(d.(polls := d.polls + [d.current]))
  }

  function AddPoll(d: Display, us: int, trace: seq<int>): Display {
    if |d.polls| == MaxPolls - 1 then d else StorePoll(SendMatch(Closed(d), us, trace))
  }

  function Check(d: Display, us: int, trace: seq<int>): Display {
    if Since(us, d.lastDisplayUs) <= RefreshInterval then d
    else if d.displayOut == |d.stream| then d.(lastDisplayUs := us)
    else SendPending(d, us, trace)
  }

  /** All stored polls are sent, or everything if there is none. */
  function SendPending(d: Display, us: int, trace: seq<int>): Display {
    if d.polls == [] then Reinit(Send(d, Slice(d.displayOut, |d.stream|), us, trace)) else SendCycle(d, 0, us, trace)
  }

  /** Displays may come and go and change their settings, and the network may take what was sent. */
  predicate PortsMayBecome(ports: seq<Port>, next: seq<Port>) {
    && |next| == |ports|
    && forall i | 0 <= i < |ports| ::
         next[i].line.sent == ports[i].line.sent && next[i].blocks == ports[i].blocks
  }

  predicate Enabled(d: Display, act: Action) {
    act.Environment? ==> PortsMayBecome(d.ports, act.ports)
  }

  function Next(d: Display, act: Action): Display
    requires Enabled(d, act)
  {
    match act
    case Byte(b) => Add(d, [b % 256])
    case Coordinate(code, data) => SetXY(d, code, data)
    case KeyboardPoll(us, trace) => AddPoll(d, us, trace)
    case CheckOutput(us, trace) => Check(d, us, trace)
    case Environment(ports, sendToAll) => d.(ports := ports, sendToAll := sendToAll)
  }

  lemma BlockGrows(stream: seq<int>, more: seq<int>, b: Block)
    requires b.Frame? ==> Fits(b.slice, |stream|)
    ensures BlockBytes(stream + more, b) == BlockBytes(stream, b)
  {
    if b.Frame? {
      var s := b.slice;
      assert (stream + more)[s.start..s.end] == stream[s.start..s.end];
    }
  }

  lemma {:induction false} RenderedGrows(stream: seq<int>, more: seq<int>, blocks: seq<Block>, to: int)
    requires FramesOrdered(blocks, to) && to <= |stream|
    ensures Rendered(stream + more, blocks) == Rendered(stream, blocks)
  {
    hide BlockBytes;
    if blocks != [] {
      var n := |blocks| - 1;
      RenderedGrows(stream, more, blocks[..n], to);
      BlockGrows(stream, more, blocks[n]);
    }
  }

  /** One more block, which may be a frame that starts where the others end. */
  lemma OneMoreBlock(stream: seq<int>, displayOut: int, p: Port, q: Port, b: Block, to: int)
    requires PortInv(stream, displayOut, p) && displayOut <= to <= |stream|
    requires b.Frame? ==> displayOut <= b.slice.start && Fits(b.slice, to)
    requires q.blocks == p.blocks + [b] && q.line.sent == p.line.sent + BlockBytes(stream, b)
    ensures PortInv(stream, to, q)
  {
    hide BlockBytes;
    assert q.blocks[..|p.blocks|] == p.blocks;
  }

  lemma ImmediateKeeps(stream: seq<int>, displayOut: int, p: Port, bytes: seq<int>)
    requires PortInv(stream, displayOut, p)
    ensures PortInv(stream, displayOut, Immediate(p, bytes))
  {
    hide Rendered, FramesOrdered;
    if WantsAll(p.line) {
      var sent := if CanSend(p.line, |bytes|) then bytes else [];
      OneMoreBlock(stream, displayOut, p, Immediate(p, bytes), Now(sent), displayOut);
    }
  }

  lemma PortGrows(stream: seq<int>, more: seq<int>, displayOut: int, p: Port)
    requires PortInv(stream, displayOut, p)
    ensures PortInv(stream + more, displayOut, p)
  {
    RenderedGrows(stream, more, p.blocks, displayOut);
  }

  lemma AddKeeps(d: Display, bytes: seq<int>)
    requires Inv(d)
    ensures Inv(Add(d, bytes))
  {
    hide PortInv, Ordered, Chained, Immediate;
    var e := Add(d, bytes);
    forall i | 0 <= i < |e.ports|
      ensures PortInv(e.stream, e.displayOut, e.ports[i])
    {
      ImmediateKeeps(d.stream, d.displayOut, d.ports[i], bytes);
      PortGrows(d.stream, bytes, d.displayOut, e.ports[i]);
    }
  }

  /** What is sent as a frame is what its block stands for. */
  lemma FrameBytes(p: Line, us: int, trace: seq<int>, slice: Slice, stream: seq<int>)
    requires Fits(slice, |stream|)
    ensures var bytes := Bytes(stream, slice);
            SendBlock(p, us, trace, bytes).sent == p.sent + BlockBytes(stream, FrameSent(p, us, trace, slice, bytes))
  {
    hide Bytes;
  }

  lemma ServeKeeps(stream: seq<int>, displayOut: int, p: Port, sendToAll: bool, us: int, trace: seq<int>, slice: Slice)
    requires PortInv(stream, displayOut, p) && Fits(slice, |stream|) && displayOut <= slice.start
    ensures PortInv(stream, slice.end, Serve(p, sendToAll, us, trace, slice, Bytes(stream, slice)))
  {
    hide Since, BlockBytes, Bytes;
    if Due(p.line, sendToAll, us) {
      var r := Serve(p, sendToAll, us, trace, slice, Bytes(stream, slice));
      FrameBytes(p.line, us, trace, slice, stream);
      hide SendBlock, PortInv;
      OneMoreBlock(stream, displayOut, p, r, r.blocks[|p.blocks|], slice.end);
    }
  }

  lemma SendKeeps(d: Display, slice: Slice, us: int, trace: seq<int>)
    requires Inv(d) && Fits(slice, |d.stream|) && d.displayOut <= slice.start
    ensures var e := Send(d, slice, us, trace);
            && Ordered(e.frames, e.displayOut)
            && forall i | 0 <= i < |e.ports| :: PortInv(e.stream, e.displayOut, e.ports[i])
  {
    hide PortInv, Serve, Bytes;
    var e := Send(d, slice, us, trace);
    forall i | 0 <= i < |e.ports|
      ensures PortInv(e.stream, e.displayOut, e.ports[i])
    {
      ServeKeeps(d.stream, d.displayOut, d.ports[i], d.sendToAll, us, trace, slice);
    }
  }

  /** Every action keeps the bookkeeping in order. */
  lemma StepKeeps(d: Display, act: Action)
    requires Inv(d) && Enabled(d, act)
    ensures Inv(Next(d, act))
  {
    hide PortInv, Ordered, ServeAll;
    match act
    case Byte(b) => AddKeeps(d, [b % 256]);
    case Coordinate(code, data) => CoordinateKeeps(d, code, data);
    case KeyboardPoll(us, trace) => PollKeeps(d, us, trace);
    case CheckOutput(us, trace) => CheckKeeps(d, us, trace);
    case Environment(ports, sendToAll) => EnvironmentKeeps(d, ports);
  }

  lemma CoordinateKeeps(d: Display, code: int, data: int)
    requires Inv(d)
    ensures Inv(SetXY(d, code, data))
  {
    hide PortInv, Ordered, Add;
    var sum1 := d.current.sum1 + data;
    var c := d.current.(sum1 := sum1, sum2 := d.current.sum2 + sum1);
    AddKeeps(d.(current := c), [(code + data % 512 / 256) % 256, data % 512 % 256]);
  }

  lemma PollKeeps(d: Display, us: int, trace: seq<int>)
    requires Inv(d)
    ensures Inv(AddPoll(d, us, trace))
  {
    hide PortInv, Ordered, ServeAll;
    var c := d.current.(end := |d.stream|);
    var i := Match(d.polls, c, |d.polls|);
    if i >= 0 {
      SendKeeps(d, Slice(d.polls[i].start, c.start), us, trace);
    }
  }

  lemma CheckKeeps(d: Display, us: int, trace: seq<int>)
    requires Inv(d)
    ensures Inv(Check(d, us, trace))
  {
    hide PortInv, Ordered, ServeAll, Since;
    if d.polls == [] {
      SendKeeps(d, Slice(d.displayOut, |d.stream|), us, trace);
    } else {
      SendKeeps(d, Slice(d.polls[0].start, d.current.start), us, trace);
    }
  }

  lemma EnvironmentKeeps(d: Display, ports: seq<Port>)
    requires Inv(d) && PortsMayBecome(d.ports, ports)
    ensures forall i | 0 <= i < |ports| :: PortInv(d.stream, d.displayOut, ports[i])
  {
    forall i | 0 <= i < |ports|
      ensures PortInv(d.stream, d.displayOut, ports[i])
    {
      assert PortInv(d.stream, d.displayOut, d.ports[i]);
    }
  }

  ghost predicate Leads(d: Display, acts: seq<Action>, e: Display)
    decreases |acts|
  {
    if acts == [] then d == e
    else Enabled(d, acts[0]) && Leads(Next(d, acts[0]), acts[1..], e)
  }

  predicate Initial(d: Display) {
    && d.stream == [] && d.displayOut == 0 && d.polls == [] && d.frames == []
    && d.current.sum1 == 0 && d.current.sum2 == 0 && d.current.start == 0
    && forall i | 0 <= i < |d.ports| :: d.ports[i].line.sent == [] && d.ports[i].blocks == []
  }

  /** What was accepted and what was sent only grow. */
  ghost predicate Grown(d: Display, e: Display) {
    && d.stream <= e.stream && d.frames <= e.frames && |d.ports| == |e.ports|
    && (forall i | 0 <= i < |d.ports| :: d.ports[i].line.sent <= e.ports[i].line.sent)
  }

  lemma SentGrows(p: Port, sendToAll: bool, us: int, trace: seq<int>, slice: Slice, bytes: seq<int>)
    ensures p.line.sent <= Serve(p, sendToAll, us, trace, slice, bytes).line.sent
    ensures p.line.sent <= Immediate(p, bytes).line.sent
  {
    hide Since;
  }

  lemma SendGrows(d: Display, slice: Slice, us: int, trace: seq<int>)
    ensures Grown(d, Send(d, slice, us, trace))
  {
    hide Serve, Bytes;
    forall i | 0 <= i < |d.ports|
      ensures d.ports[i].line.sent <= Serve(d.ports[i], d.sendToAll, us, trace, slice, Bytes(d.stream, slice)).line.sent
    {
      SentGrows(d.ports[i], d.sendToAll, us, trace, slice, Bytes(d.stream, slice));
    }
  }

  lemma AddGrows(d: Display, bytes: seq<int>)
    ensures Grown(d, Add(d, bytes))
  {
    hide Immediate;
    forall i | 0 <= i < |d.ports|
      ensures d.ports[i].line.sent <= Immediate(d.ports[i], bytes).line.sent
    {
      SentGrows(d.ports[i], false, 0, [], Slice(0, 0), bytes);
    }
  }

  lemma StepGrows(d: Display, act: Action)
    requires Enabled(d, act)
    ensures Grown(d, Next(d, act))
  {
    hide Since, Match, Send, Add;
    match act
    case Byte(b) => AddGrows(d, [b % 256]);
    case Coordinate(code, data) =>
      var sum1 := d.current.sum1 + data;
      var c := d.current.(sum1 := sum1, sum2 := d.current.sum2 + sum1);
      AddGrows(d.(current := c), [(code + data % 512 / 256) % 256, data % 512 % 256]);
    case KeyboardPoll(us, trace) =>
      var d1 := Closed(d);
      var i := Match(d1.polls, d1.current, |d1.polls|);
      if i >= 0 {
        SendGrows(d1, CycleFrom(d1, i), us, trace);
      }
    case CheckOutput(us, trace) =>
      SendGrows(d, Slice(if d.polls == [] then d.displayOut else d.polls[0].start,
                         if d.polls == [] then |d.stream| else d.current.start), us, trace);
    case Environment(ports, sendToAll) =>
  }

  /**
   Over every run: the stored polls and the current one partition what was accepted and not yet
   shown; frames are slices in order without overlap; and every display got, besides end marks,
   only whole such slices, reproduced exactly.
   */
  lemma {:induction false} RunsKeep(d: Display, acts: seq<Action>, e: Display)
    requires Inv(d) && Leads(d, acts, e)
    ensures Inv(e) && Grown(d, e)
    decreases |acts|
  {
    if acts != [] {
      var d1 := Next(d, acts[0]);
      StepKeeps(d, acts[0]);
      StepGrows(d, acts[0]);
      RunsKeep(d1, acts[1..], e);
    }
  }

  lemma InitiallyInv(d: Display)
    requires Initial(d)
    ensures Inv(d)
  {
    forall i | 0 <= i < |d.ports|
      ensures PortInv(d.stream, d.displayOut, d.ports[i])
    {
      assert d.ports[i].blocks == [];
    }
  }

  /** The bytes of the polls, one after another. */
  ghost function PollBytes(stream: seq<int>, polls: seq<Poll>): seq<int>
    requires forall i | 0 <= i < |polls| :: 0 <= polls[i].start <= polls[i].end <= |stream|
  {
    if polls == [] then []
    else stream[polls[0].start..polls[0].end] + PollBytes(stream, polls[1..])
  }

  lemma {:induction false} PollsCover(stream: seq<int>, polls: seq<Poll>, from: int, to: int)
    requires Chained(polls, from, to) && 0 <= from && to <= |stream|
    ensures PollBytes(stream, polls) == stream[from..to]
  {
    if polls != [] {
      var next := polls[0].end;
      PollsAfter(polls, from, to);
      PollsCover(stream, polls[1..], next, to);
      assert stream[from..next] + stream[next..to] == stream[from..to];
    }
  }

  lemma PollsAfter(polls: seq<Poll>, from: int, to: int)
    requires Chained(polls, from, to) && polls != []
    ensures Chained(polls[1..], polls[0].end, to)
  {
    forall i | 0 < i < |polls|
      ensures polls[0].end <= polls[i].start
    {
      EndsBefore(polls, from, to, i);
    }
  }

  lemma {:induction false} EndsBefore(polls: seq<Poll>, from: int, to: int, i: int)
    requires Chained(polls, from, to) && 0 < i < |polls|
    ensures polls[0].end <= polls[i].start
    decreases i
  {
    if i > 1 {
      EndsBefore(polls, from, to, i - 1);
    }
  }

  /** The stored polls and the current one hold exactly the bytes accepted and not yet shown. */
  lemma PollsPartition(d: Display)
    requires Inv(d)
    ensures PollBytes(d.stream, d.polls) + d.stream[d.current.start..] == d.stream[d.displayOut..]
  {
    PollsCover(d.stream, d.polls, d.displayOut, d.current.start);
  }

  /** A slice of the stream is the bytes of some polls. */
  ghost predicate PollsFill(stream: seq<int>, polls: seq<Poll>, slice: Slice) {
    && Chained(polls, slice.start, slice.end) && Fits(slice, |stream|)
    && stream[slice.start..slice.end] == PollBytes(stream, polls)
  }

  lemma CycleFilled(d: Display, i: nat)
    requires Inv(d) && i < |d.polls|
    ensures PollsFill(d.stream, d.polls[i..], Slice(d.polls[i].start, d.current.start))
  {
    PollsFrom(d.polls, d.displayOut, d.current.start, i);
    PollsCover(d.stream, d.polls[i..], d.polls[i].start, d.current.start);
  }

  /**
   A keyboard poll sends a frame if and only if fewer than four polls are stored and one of them
   has the checksums of the current one; the frame then is the polls from the latest such one up
   to the current one. Four stored polls stay until the timer sends them.
   */
  lemma PollSendsIff(d: Display, us: int, trace: seq<int>)
    requires Inv(d)
    ensures var e := AddPoll(d, us, trace);
            && (e.frames != d.frames <==>
                  |d.polls| < MaxPolls - 1 && exists k :: 0 <= k < |d.polls| && SameSums(d.polls[k], d.current))
            && (|d.polls| == MaxPolls - 1 ==> e == d)
            && (e.frames != d.frames ==>
                  exists i | 0 <= i < |d.polls| && SameSums(d.polls[i], d.current) ::
                    && (forall k | i < k < |d.polls| :: !SameSums(d.polls[k], d.current))
                    && e.frames == d.frames + [Slice(d.polls[i].start, d.current.start)]
                    && PollsFill(d.stream, d.polls[i..], Slice(d.polls[i].start, d.current.start)))
  {
    hide ServeAll, PortInv, Ordered, PollBytes, PollsFill, Chained;
    if |d.polls| < MaxPolls - 1 {
      var c := d.current.(end := |d.stream|);
      var i := Match(d.polls, c, |d.polls|);
      if i >= 0 {
        CycleFilled(d, i);
        assert SameSums(d.polls[i], d.current);
      }
    }
  }

  lemma {:induction false} PollsFrom(polls: seq<Poll>, from: int, to: int, i: nat)
    requires Chained(polls, from, to) && i < |polls|
    ensures Chained(polls[i..], polls[i].start, to)
  {
    if i == 0 {
      assert polls[0..] == polls;
    } else {
      PollsAfter(polls, from, to);
      PollsFrom(polls[1..], polls[0].end, to, i - 1);
      assert polls[1..][i - 1..] == polls[i..];
    }
  }

  /** The timer skips nothing: what it sends starts where the last frame ended. */
  lemma CheckSkipsNothing(d: Display, us: int, trace: seq<int>)
    requires Inv(d)
    ensures var e := Check(d, us, trace);
            e.frames != d.frames ==>
              && e.frames == d.frames + [Slice(d.displayOut, e.displayOut)]
              && e.polls == [] && d.displayOut < |d.stream|
              && e.displayOut == if d.polls == [] then |d.stream| else d.current.start
  {
    hide ServeAll, PortInv, Ordered, Since;
  }

  /** The sum of some coordinates, and the sum of the sums up to each of them. */
  function Total(data: seq<int>): int {
    if data == [] then 0 else data[0] + Total(data[1..])
  }

  /** Each coordinate as often as there are coordinates from it on. */
  function Weighted(data: seq<int>): int {
    if data == [] then 0 else |data| * data[0] + Weighted(data[1..])
  }

  /** Coordinates one after another. */
  function Coordinates(d: Display, code: int, data: seq<int>): Display
    decreases |data|
  {
    if data == [] then d else Coordinates(SetXY(d, code, data[0]), code, data[1..])
  }

  lemma SetXYSums(d: Display, code: int, data: int)
    ensures var c := SetXY(d, code, data).current;
            c.sum1 == d.current.sum1 + data && c.sum2 == d.current.sum2 + d.current.sum1 + data
  {
    hide Add;
    var sum1 := d.current.sum1 + data;
    var c := d.current.(sum1 := sum1, sum2 := d.current.sum2 + sum1);
    AddChanges(d.(current := c), [(code + data % 512 / 256) % 256, data % 512 % 256]);
  }

  /** The checksums of a poll are the sum of its coordinates, and their sum weighted by how far from the end
      they are. */
  lemma {:induction false} SumsMean(d: Display, code: int, data: seq<int>)
    ensures var c := Coordinates(d, code, data).current;
            && c.sum1 == d.current.sum1 + Total(data)
            && c.sum2 == d.current.sum2 + |data| * d.current.sum1 + Weighted(data)
    decreases |data|
  {
    hide SetXY;
    if data != [] {
      SetXYSums(d, code, data[0]);
      SumsMean(SetXY(d, code, data[0]), code, data[1..]);
    }
  }

  /** Two coordinates that differ give different checksums in the other order. */
  lemma OrderDetected(d: Display, code: int, x: int, y: int)
    requires x != y
    ensures !SameSums(Coordinates(d, code, [x, y]).current, Coordinates(d, code, [y, x]).current)
  {
    SumsMean(d, code, [x, y]);
    SumsMean(d, code, [y, x]);
    hide Coordinates;
    assert [x, y][1..] == [y] && [y, x][1..] == [x] && [x][1..] == [] && [y][1..] == [];
  }

  /** The two bytes of a coordinate: the highest of its nine bits is added to the code, the others are the
      second byte. */
  lemma CoordinateBytes(d: Display, code: int, data: int, high: int, low: int)
    requires |d.stream| - d.displayOut + 2 < DispBufSize
    requires 0 <= code < 255 && 0 <= high < 2 && 0 <= low < 256 && data % 512 == 256 * high + low
    ensures SetXY(d, code, data).stream == d.stream + [code + high, low]
  {
  }

  /** The least channel data that is taken as a coordinate. */
  const COORDINATE := 0xc00
  const SetX := 0x80

  /** An action that the channel can give rise to. */
  predicate FromChannel(act: Action) {
    act.Coordinate? ==> COORDINATE <= act.data < 0x1000
  }

  /** n polls are stored, each of one coordinate and all of different ones, and nothing has been summed
      since. */
  ghost predicate HasPolls(d: Display, n: nat) {
    && |d.polls| == n && d.current.sum1 == 0 && d.current.sum2 == 0
    && forall i | 0 <= i < n :: d.polls[i].sum1 == COORDINATE + i + 1
  }

  /** A coordinate that has not been summed before, and a poll: one more is stored. */
  lemma StoresOneMore(d: Display, n: nat) returns (e: Display, acts: seq<Action>)
    requires HasPolls(d, n) && n < MaxPolls - 1
    ensures acts == [Coordinate(SetX, COORDINATE + n + 1), KeyboardPoll(0, [])]
    ensures Leads(d, acts, e) && HasPolls(e, n + 1) && forall i | 0 <= i < |acts| :: FromChannel(acts[i])
  {
    hide Add;
    var data := COORDINATE + n + 1;
    var d1 := Next(d, Coordinate(SetX, data));
    var c := d.current.(sum1 := data, sum2 := data);
    AddChanges(d.(current := c), [(SetX + data % 512 / 256) % 256, data % 512 % 256]);
    e := Next(d1, KeyboardPoll(0, []));
    assert d1.current == c;
    NoMatch(d1.polls, c.(end := |d1.stream|));
    hide Match, Send;
    acts := [Coordinate(SetX, data), KeyboardPoll(0, [])];
    assert acts[1..] == [KeyboardPoll(0, [])] && acts[1..][1..] == [];
    assert Leads(d1, acts[1..], e);
  }

  lemma NoMatch(polls: seq<Poll>, current: Poll)
    requires forall i | 0 <= i < |polls| :: polls[i].sum1 != current.sum1
    ensures Match(polls, current, |polls|) == -1
  {
  }

  lemma AddChanges(d: Display, bytes: seq<int>)
    ensures var e := Add(d, bytes);
            e.polls == d.polls && e.current == d.current && e.frames == d.frames
  {
  }

  lemma {:induction false} LeadsOn(d: Display, a: seq<Action>, e: Display, b: seq<Action>, f: Display)
    requires Leads(d, a, e) && Leads(e, b, f)
    ensures Leads(d, a + b, f)
    decreases |a|
  {
    if a == [] {
      assert a + b == b;
    } else {
      assert (a + b)[1..] == a[1..] + b;
      LeadsOn(Next(d, a[0]), a[1..], e, b, f);
    }
  }

  /** Four polls with different checksums stop the search for cycles: this state is reached from the
      start, and the next poll is ignored whatever its checksums. */
  lemma FullReachable(d: Display) returns (acts: seq<Action>, e: Display)
    requires Initial(d)
    ensures Leads(d, acts, e) && |e.polls| == MaxPolls - 1 && forall i | 0 <= i < |acts| :: FromChannel(acts[i])
    ensures forall us, trace :: AddPoll(e, us, trace) == e
  {
    hide Next;
    var e1, a1 := StoresOneMore(d, 0);
    var e2, a2 := StoresOneMore(e1, 1);
    var e3, a3 := StoresOneMore(e2, 2);
    var a4;
    e, a4 := StoresOneMore(e3, 3);
    hide Leads, AddPoll;
    LeadsOn(d, a1, e1, a2, e2);
    LeadsOn(d, a1 + a2, e2, a3, e3);
    LeadsOn(d, a1 + a2 + a3, e3, a4, e);
    acts := a1 + a2 + a3 + a4;
    forall us, trace
      ensures AddPoll(e, us, trace) == e
    {
      FullIgnores(e, us, trace);
    }
  }

  lemma FullIgnores(d: Display, us: int, trace: seq<int>)
    requires |d.polls| == MaxPolls - 1
    ensures AddPoll(d, us, trace) == d
  {
  }
}
