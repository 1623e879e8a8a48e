/** From the wire to the parser: what the HTTP parser of a connection reads, for every
    interleaving of the packet loop and the handler, against the stream that was sent. */
module EndToEnd {
  import opened Basics
  import opened TcpSequence
  import opened Reassembly
  import opened TrueStream
  import opened StreamTheorems
  import opened WindowDecisions
  import opened WindowRefinement
  import opened WindowSafety
  import Endpoints
  import M = ConnectionModel
  import P = BlockingProtocol

  /** The logged segments and acknowledgements, at true positions. */
  predicate LogAt(log: seq<P.Logged>, placed: seq<Event>) {
    |log| == |placed| && forall i :: 0 <= i < |log| ==> LoggedAt(log[i], placed[i])
  }

  predicate LoggedAt(logged: P.Logged, placed: Event) {
    match placed
    case Arrival(p) => logged == P.Appended(Wrapped(p))
    case Ack(a) => logged == P.Begun(Wrap(a))
  }

  lemma {:induction false} ReplayIsWindowRun(log: seq<P.Logged>, placed: seq<Event>)
    requires LogAt(log, placed)
    ensures P.Replay(log) == WindowRun(EMPTY_WINDOW, placed)
    decreases |log|
  {
    if log != [] {
      var last := |log| - 1;
      ReplayIsWindowRun(log[..last], placed[..last]);
      WindowRunLast(EMPTY_WINDOW, placed[..last], placed[last]);
      assert placed[..last] + [placed[last]] == placed;
      var sent := P.Replay(log[..last]).1;
      assert sent + [] == sent;
    }
  }

  // ---- The packet loop does to its streams what the connection does

  function AsStream(p: P.Pipe): M.StreamView {
    M.StreamView(p.window, p.queue, p.ignore, p.eof, false)
  }

  /** Between packets the loop can deal with any segment and any acknowledgement, as a stream of a
      connection does: a segment changes the pipe as `Append` changes the stream; an
      acknowledgement is begun exactly while the stream is on and has room, and is bound to end
      as `Acknowledged` does; without room the stream can be given up on, and only then. */
  lemma {:induction false} LoopServesStreams(s: P.State, side: P.Side, segment: Segment, ack: Uint32)
    requires s.loop.Idle?
    ensures var a := P.Append(side, segment);
            P.LoopEnabled(s, a) &&
            AsStream(P.LoopStep(s, a).Get(side)) == M.Append(AsStream(s.Get(side)), segment)
    ensures var p, a := s.Get(side), P.Begin(side, ack);
            && (P.LoopEnabled(s, a) <==> !p.ignore && !p.eof && |p.queue| < s.capacity)
            && (P.LoopEnabled(s, a) ==>
                  var (w, sent) := P.Completed(P.LoopStep(s, a), side);
                  && |p.sent| <= |sent| && sent[..|p.sent|] == p.sent
                  && M.Acknowledged(AsStream(p), ack, true) ==
                     AsStream(p.(window := w, queue := p.queue + sent[|p.sent|..])))
    ensures var p, a := s.Get(side), P.Abandon(side);
            && (P.LoopEnabled(s, a) <==> |p.queue| >= s.capacity)
            && (P.LoopEnabled(s, a) && !p.ignore && !p.eof ==>
                  AsStream(P.LoopStep(s, a).Get(side)) == M.Acknowledged(AsStream(p), ack, false))
  {
    hide Insert, Deliver, LaterAck;
  }

  // ---- From the packets of a connection to the logs

  /** A packet of a connection, at true positions: its sender, its segment, and what it
      acknowledges of the other direction. */
  datatype Sent = Sent(src: Endpoints.Endpoint, segment: Placed, ack: Option<int>)

  /** A step of the protocol, with the true position of the segment it appends or of the
      acknowledgement it begins. */
  datatype Marked = Marked(action: P.Action, pos: int)

  function Actions(marked: seq<Marked>): (actions: seq<P.Action>)
    ensures |actions| == |marked| && forall i :: 0 <= i < |marked| ==> actions[i] == marked[i].action
  {
    if marked == [] then [] else [marked[0].action] + Actions(marked[1..])
  }

  function SideOf(src: Endpoints.Endpoint, client: Endpoints.Endpoint): P.Side {
    if src == client then P.Up else P.Down
  }

  /** The acknowledgement the loop has yet to take for a stream. */
  datatype Due = Due(side: P.Side, pos: int)

  /** The loop's steps handle the packets one after another, as `onReceive` routes them: a
      packet's segment is appended to its sender's stream; then its acknowledgement is begun
      for the other stream, or abandoned for want of space, or passed over. The handler's
      steps fall in between anywhere. */
  predicate Routed(marked: seq<Marked>, client: Endpoints.Endpoint, due: Option<Due>, packets: seq<Sent>)
    decreases |marked|
  {
    marked == [] ||
    match marked[0].action
    case ByHandler(_) | ByLoop(Turn) | ByLoop(Close) => Routed(marked[1..], client, due, packets)
    case ByLoop(Append(side, segment)) =>
      packets != [] &&
      (var p := packets[0];
       var own := SideOf(p.src, client);
       && side == own && segment == Wrapped(p.segment) && marked[0].pos == p.segment.pos
       && Routed(marked[1..], client, if p.ack.Some? then Some(Due(own.Other(), p.ack.value)) else None, packets[1..]))
    case ByLoop(Begin(side, ack)) =>
      due == Some(Due(side, marked[0].pos)) && ack == Wrap(marked[0].pos) && Routed(marked[1..], client, None, packets)
    case ByLoop(Abandon(side)) =>
      due.Some? && due.value.side == side && Routed(marked[1..], client, None, packets)
  }

  /** What a step logs for a side, at true positions. */
  function PlacedStep(s: P.State, m: Marked, side: P.Side): seq<Event> {
    match m.action
    case ByLoop(Append(own, segment)) =>
      if own == side && !s.Get(side).ignore && !s.Get(side).eof then [Arrival(Placed(m.pos, segment.payload))] else []
    case ByLoop(Begin(own, _)) => if own == side then [Ack(m.pos)] else []
    case _ => []
  }

  function PlacedLog(s: P.State, marked: seq<Marked>, side: P.Side): seq<Event>
    requires P.Possible(s, Actions(marked))
    decreases |marked|
  {
    if marked == [] then []
    else PlacedStep(s, marked[0], side) + PlacedLog(P.Step(s, marked[0].action), marked[1..], side)
  }

  lemma {:induction false} StepLogs(s: P.State, m: Marked, side: P.Side)
    requires P.Enabled(s, m.action)
    requires m.action.ByLoop? && m.action.loopAction.Append? ==> m.action.loopAction.segment.seqNo == Wrap(m.pos)
    requires m.action.ByLoop? && m.action.loopAction.Begin? ==> m.action.loopAction.ack == Wrap(m.pos)
    ensures var before, after := s.Get(side).log, P.Step(s, m.action).Get(side).log;
            && before <= after && LogAt(after[|before|..], PlacedStep(s, m, side))
  {
    hide Insert;
  }

  lemma {:induction false} LogAtConcat(a: seq<P.Logged>, b: seq<P.Logged>, c: seq<P.Logged>, p: seq<Event>,
                                       q: seq<Event>)
    requires a <= b <= c && LogAt(b[|a|..], p) && LogAt(c[|b|..], q)
    ensures LogAt(c[|a|..], p + q)
  {
    forall i | 0 <= i < |p + q| ensures LoggedAt(c[|a|..][i], (p + q)[i]) {
      if i < |p| {
        assert c[|a|..][i] == b[|a|..][i];
      } else {
        assert c[|a|..][i] == c[|b|..][i - |p|];
      }
    }
  }

  /** A side's log lists exactly the segments and acknowledgements routed to it while it was on,
      at their true positions. */
  lemma {:induction false} LogIsPlaced(s: P.State, marked: seq<Marked>, client: Endpoints.Endpoint, due: Option<Due>,
                                       packets: seq<Sent>, side: P.Side)
    requires P.Possible(s, Actions(marked)) && Routed(marked, client, due, packets)
    ensures var before, after := s.Get(side).log, P.After(s, Actions(marked)).Get(side).log;
            before <= after && LogAt(after[|before|..], PlacedLog(s, marked, side))
    decreases |marked|
  {
    if marked != [] {
      var s1 := P.Step(s, marked[0].action);
      assert Actions(marked)[1..] == Actions(marked[1..]);
      StepLogs(s, marked[0], side);
      var (due', packets') := Next(marked[0], client, due, packets);
      LogIsPlaced(s1, marked[1..], client, due', packets', side);
      LogAtConcat(s.Get(side).log, s1.Get(side).log, P.After(s, Actions(marked)).Get(side).log,
                  PlacedStep(s, marked[0], side), PlacedLog(s1, marked[1..], side));
    }
  }

  /** What is due and what is to come after a step. */
  function Next(m: Marked, client: Endpoints.Endpoint, due: Option<Due>, packets: seq<Sent>): (Option<Due>, seq<Sent>) {
    match m.action
    case ByLoop(Append(_, _)) =>
      if packets == [] then (due, packets)
      else
        var p := packets[0];
        (if p.ack.Some? then Some(Due(SideOf(p.src, client).Other(), p.ack.value)) else None, packets[1..])
    case ByLoop(Begin(_, _)) | ByLoop(Abandon(_)) => (None, packets)
    case _ => (due, packets)
  }

  /** The segments sent on a side are cut from its stream. */
  ghost predicate SideCutFrom(stream: int -> Byte, packets: seq<Sent>, client: Endpoints.Endpoint, side: P.Side) {
    forall i :: 0 <= i < |packets| && SideOf(packets[i].src, client) == side ==> CutFrom(stream, packets[i].segment)
  }

  /** Whatever is logged for a side was sent by that side. */
  lemma {:induction false} LogIsOneSenders(s: P.State, marked: seq<Marked>, client: Endpoints.Endpoint,
                                           due: Option<Due>, packets: seq<Sent>, side: P.Side,
                                           stream: int -> Byte)
    requires P.Possible(s, Actions(marked)) && Routed(marked, client, due, packets)
    requires SideCutFrom(stream, packets, client, side)
    ensures EventsCutFrom(stream, PlacedLog(s, marked, side))
    decreases |marked|
  {
    if marked != [] {
      assert Actions(marked)[1..] == Actions(marked[1..]);
      var (due', packets') := Next(marked[0], client, due, packets);
      LogIsOneSenders(P.Step(s, marked[0].action), marked[1..], client, due', packets', side, stream);
      hide P.Step, P.Enabled, P.Possible;
    }
  }

  // ---- What the parser reads

  /** The parser of a side has consumed a prefix of what the window sends for the side's log. */
  lemma {:induction false} ParserReadsWindowOutput(capacity: nat, marked: seq<Marked>, client: Endpoints.Endpoint,
                                                   packets: seq<Sent>, side: P.Side)
    requires P.Possible(P.Start(capacity), Actions(marked)) && Routed(marked, client, None, packets)
    ensures P.After(P.Start(capacity), Actions(marked)).Get(side).parsed <=
            Bytes(WindowRun(EMPTY_WINDOW, PlacedLog(P.Start(capacity), marked, side)).1)
  {
    var s := P.Start(capacity);
    var p := P.After(s, Actions(marked)).Get(side);
    LogIsPlaced(s, marked, client, None, packets, side);
    assert s.Get(side).log == [] && p.log[0..] == p.log;
    P.ParserSeesWindowOutput(capacity, Actions(marked), side);
    ReplayIsWindowRun(p.log, PlacedLog(s, marked, side));
  }

  /** Whatever the interleaving of the packet loop, handling the packets of a connection, and
      the handler, and whatever the comparison does near the wrap: if the segments of one side
      are cut from one stream, the parser has consumed a prefix of pieces of that stream; with
      the segments sent in reach, the pieces are disjoint and in order if and only if number 0
      hides no overlap. */
  lemma {:induction false} ParserReadsTheStream(capacity: nat, marked: seq<Marked>, client: Endpoints.Endpoint,
                                                packets: seq<Sent>, side: P.Side, stream: int -> Byte)
    requires P.Possible(P.Start(capacity), Actions(marked)) && Routed(marked, client, None, packets)
    requires SideCutFrom(stream, packets, client, side)
    ensures var placed := PlacedLog(P.Start(capacity), marked, side);
            var (v, chunks) := CodeRun(EMPTY, placed);
            && P.After(P.Start(capacity), Actions(marked)).Get(side).parsed <= Text(chunks)
            && AllCutFrom(stream, chunks)
            && (RunInReach(EMPTY, placed) ==> (InOrder(chunks, None, v.next) <==> RunHidesNothing(EMPTY, placed)))
  {
    hide P.After, P.Possible, Routed, CodeRun, WindowRun, Bytes, Text, EventsCutFrom, InOrder;
    var placed := PlacedLog(P.Start(capacity), marked, side);
    LogIsOneSenders(P.Start(capacity), marked, client, None, packets, side, stream);
    ParserReadsWindowOutput(capacity, marked, client, packets, side);
    ReassemblyIsSafe(stream, placed);
    TextOfSamePayloads(WindowRun(EMPTY_WINDOW, placed).1, CodeRun(EMPTY, placed).1);
  }

  /** With every decision of the window right and no gap at any acknowledgement, the parser has
      consumed exactly the sender's stream from the first delivered position on, as far as it
      has got. */
  lemma {:induction false} ParserReadsOneStretch(capacity: nat, marked: seq<Marked>, client: Endpoints.Endpoint,
                                                 packets: seq<Sent>, side: P.Side, stream: int -> Byte)
    requires P.Possible(P.Start(capacity), Actions(marked)) && Routed(marked, client, None, packets)
    requires SideCutFrom(stream, packets, client, side)
    requires var placed := PlacedLog(P.Start(capacity), marked, side);
             RunClear(EMPTY, placed) && RunGapFree(EMPTY, placed) && Run(EMPTY, placed).1 != []
    ensures var parsed := P.After(P.Start(capacity), Actions(marked)).Get(side).parsed;
            var from := Run(EMPTY, PlacedLog(P.Start(capacity), marked, side)).1[0].pos;
            parsed == Cut(stream, from, from + |parsed|)
  {
    hide P.After, P.Possible, Run, WindowRun, RunClear, RunGapFree, Routed, EventsCutFrom, Cut, Text, Bytes;
    var placed := PlacedLog(P.Start(capacity), marked, side);
    LogIsOneSenders(P.Start(capacity), marked, client, None, packets, side, stream);
    ParserReadsWindowOutput(capacity, marked, client, packets, side);
    GapFreeRunIsOneStretch(stream, placed);
    var (v, chunks) := Run(EMPTY, placed);
    PrefixOfCut(P.After(P.Start(capacity), Actions(marked)).Get(side).parsed, stream, chunks[0].pos, v.next.value);
  }

  lemma {:induction false} PrefixOfCut(s: seq<Byte>, stream: int -> Byte, from: int, to: int)
    requires from <= to && s <= Cut(stream, from, to)
    ensures s == Cut(stream, from, from + |s|)
  {
    assert s == Cut(stream, from, to)[..|s|];
  }
}
