/** The two directions of a connection over whole runs of the table: what each stream has been
    fed since the connection was created, and what it delivers. */
module Directions {
  import opened Basics
  import opened TcpSequence
  import opened Reassembly
  import opened TrueStream
  import opened StreamTheorems
  import opened WindowDecisions
  import opened WindowRefinement
  import opened WindowSafety
  import opened Endpoints
  import opened HttpData
  import opened ConnectionModel
  import opened ConnectionTheorems

  // ---- One stream alone

  datatype StreamEvent = Arrived(segment: Segment, last: bool) | Acked(ack: Uint32, space: bool) | Reads(effect: Effect)

  function StreamStep(s: StreamView, e: StreamEvent): StreamView {
    match e
    case Arrived(segment, last) =>
      var s := Append(s, segment); if last then s.(closed := true) else s
    case Acked(ack, space) => Acknowledged(s, ack, space)
    case Reads(effect) => Affect(s, effect)
  }

  function StreamRun(s: StreamView, events: seq<StreamEvent>): StreamView {
    if events == [] then s
    else StreamStep(StreamRun(s, events[..|events| - 1]), events[|events| - 1])
  }

  // ---- What a connection has lived through

  /** The events since the entry was last created, given the events `past` it has lived
      through so far. */
  function History(c: Option<ConnView>, past: seq<TableEvent>, events: seq<TableEvent>): seq<TableEvent>
    decreases |events|
  {
    if events == [] then past else
      var c' := EntryStep(c, events[0]);
      History(c', if c'.None? then [] else past + [events[0]], events[1..])
  }

  /** The sender of the first HTTP request. */
  function Client(past: seq<TableEvent>): Option<Endpoint> {
    if past == [] then None else
      var client, last := Client(past[..|past| - 1]), past[|past| - 1];
      if client.None? && last.Packet? && IsHTTPRequestData(last.p.segment.payload) then Some(last.src) else client
  }

  /** What an event means to a direction, the client's (`up`) or the server's: nothing before
      the first request; then the segments of its sender and the acknowledgements of the other
      end; and at any time what its reader does. */
  function Share(client: Option<Endpoint>, e: TableEvent, up: bool): seq<StreamEvent> {
    match e
    case Packet(src, _, p, _, space) =>
      if client.None? then []
      else if (src == client.value) == up then [Arrived(p.segment, p.fin || p.rst)]
      else if p.ack then [Acked(p.ackNo, space)] else []
    case FlushOld(_) => []
    case Reader(_, side, effect) => if side == up then [Reads(effect)] else []
  }

  function Flow(past: seq<TableEvent>, up: bool): seq<StreamEvent> {
    if past == [] then []
    else Flow(past[..|past| - 1], up) + Share(Client(past), past[|past| - 1], up)
  }

  /** Every packet goes from one of the two ends to the other. */
  predicate Between(past: seq<TableEvent>, client: Endpoint, server: Endpoint) {
    forall i :: 0 <= i < |past| && past[i].Packet? ==>
      (past[i].src == client && past[i].dst == server) || (past[i].src == server && past[i].dst == client)
  }

  /** The connection is what its past makes of two new streams. */
  ghost predicate MadeBy(c: ConnView, past: seq<TableEvent>) {
    && c.client == Client(past)
    && c.up == StreamRun(NEW_STREAM, Flow(past, true))
    && c.down == StreamRun(NEW_STREAM, Flow(past, false))
  }

  lemma {:induction false} FlowGrows(past: seq<TableEvent>, e: TableEvent, up: bool)
    ensures Client(past + [e]) ==
            (if Client(past).None? && e.Packet? && IsHTTPRequestData(e.p.segment.payload) then Some(e.src)
             else Client(past))
    ensures |Share(Client(past + [e]), e, up)| <= 1
    ensures StreamRun(NEW_STREAM, Flow(past + [e], up)) ==
            (var s, share := StreamRun(NEW_STREAM, Flow(past, up)), Share(Client(past + [e]), e, up);
             if share == [] then s else StreamStep(s, share[0]))
  {
    assert (past + [e])[..|past|] == past;
    var flow, share := Flow(past, up), Share(Client(past + [e]), e, up);
    assert Flow(past + [e], up) == flow + share;
    if share == [] {
      assert flow + share == flow;
    } else {
      assert (flow + share)[..|flow|] == flow && (flow + share)[|flow|] == share[0];
    }
  }

  lemma {:induction false} ReceiveContinues(c: ConnView, past: seq<TableEvent>, e: TableEvent)
    requires MadeBy(c, past) && e.Packet?
    ensures MadeBy(Receive(c, e.src, e.p, e.timestamp, e.space), past + [e])
  {
    FlowGrows(past, e, true);
    FlowGrows(past, e, false);
    hide Flow, Client, StreamRun, IsHTTPRequestData, Append, Acknowledged;
  }

  lemma {:induction false} ReadContinues(c: ConnView, past: seq<TableEvent>, e: TableEvent)
    requires MadeBy(c, past) && e.Reader?
    ensures MadeBy(ReaderStep(c, e.up, e.effect), past + [e])
  {
    FlowGrows(past, e, true);
    FlowGrows(past, e, false);
    hide Flow, Client, StreamRun, Affect;
  }

  lemma {:induction false} FlushContinues(c: ConnView, past: seq<TableEvent>, e: TableEvent)
    requires MadeBy(c, past) && e.FlushOld?
    ensures MadeBy(c, past + [e])
  {
    FlowGrows(past, e, true);
    FlowGrows(past, e, false);
    hide Flow, Client, StreamRun;
  }

  ghost predicate EntryMadeBy(c: Option<ConnView>, past: seq<TableEvent>, key: string) {
    && (if c.None? then past == [] else MadeBy(c.value, past))
    && forall i :: 0 <= i < |past| ==> Concerns(past[i], key)
  }

  lemma {:induction false} EntryStepContinues(c: Option<ConnView>, past: seq<TableEvent>, e: TableEvent, key: string)
    requires EntryMadeBy(c, past, key) && Concerns(e, key)
    ensures var c' := EntryStep(c, e);
            EntryMadeBy(c', if c'.None? then [] else past + [e], key)
  {
    assert MadeBy(NEW_CONNECTION, []);
    hide MadeBy, Receive;
    match e
    case Packet(src, dst, p, timestamp, space) =>
      ReceiveContinues(if c.Some? then c.value else NEW_CONNECTION, past, e);
    case FlushOld(_) =>
      if c.Some? {
        FlushContinues(c.value, past, e);
      }
    case Reader(_, up, effect) =>
      if c.Some? {
        ReadContinues(c.value, past, e);
      }
  }

  lemma {:induction false} HistoryMakesEntry(c: Option<ConnView>, past: seq<TableEvent>,
                                             events: seq<TableEvent>, key: string)
    requires EntryMadeBy(c, past, key)
    requires forall i :: 0 <= i < |events| ==> Concerns(events[i], key)
    ensures EntryMadeBy(EntryRun(c, events), History(c, past, events), key)
    decreases |events|
  {
    if events != [] {
      EntryStepContinues(c, past, events[0], key);
      var c' := EntryStep(c, events[0]);
      HistoryMakesEntry(c', if c'.None? then [] else past + [events[0]], events[1..], key);
    }
  }

  lemma {:induction false} ConcerningConcerns(events: seq<TableEvent>, key: string)
    ensures forall i :: 0 <= i < |Concerning(events, key)| ==> Concerns(Concerning(events, key)[i], key)
  {
    if events != [] {
      ConcerningConcerns(events[1..], key);
    }
  }

  lemma {:induction false} ClientHasSent(past: seq<TableEvent>) returns (i: nat)
    requires Client(past).Some?
    ensures i < |past| && past[i].Packet? && past[i].src == Client(past).value
  {
    if Client(past[..|past| - 1]).Some? {
      i := ClientHasSent(past[..|past| - 1]);
    } else {
      i := |past| - 1;
    }
  }

  /** What the connection under a key has lived through since it was last created. */
  function Past(events: seq<TableEvent>, key: string): seq<TableEvent> {
    History(None, [], Concerning(events, key))
  }

  /** Direction integrity, in every reachable table, whatever the interleaving of packets,
      flushes and reads of all connections: a connection with a client has one other end; every
      packet it received went between the two; its upstream is what the client's segments, the
      server's acknowledgements and its own reader have made of a new stream since the
      connection was created, and its downstream the same with the ends exchanged. */
  lemma {:induction false} DirectionIntegrity(events: seq<TableEvent>, key: string) returns (server: Endpoint)
    requires key in TableRun(map[], events) && TableRun(map[], events)[key].client.Some?
    ensures var c, past := TableRun(map[], events)[key], Past(events, key);
            && MadeBy(c, past) && Key(c.client.value, server) == key && Between(past, c.client.value, server)
  {
    var past := Past(events, key);
    EntryIsMadeByPast(events, key);
    var i := ClientHasSent(past);
    var client := past[i].src;
    server := past[i].dst;
    forall j | 0 <= j < |past| && past[j].Packet?
      ensures (past[j].src == client && past[j].dst == server) || (past[j].src == server && past[j].dst == client)
    {
      assert Concerns(past[j], key) && Concerns(past[i], key);
      KeyIdentifiesPair(client, server, past[j].src, past[j].dst);
    }
  }

  lemma {:induction false} EntryIsMadeByPast(events: seq<TableEvent>, key: string)
    ensures EntryMadeBy(Entry(TableRun(map[], events), key), Past(events, key), key)
  {
    ConnectionsAreIsolated(map[], events, key);
    ConcerningConcerns(events, key);
    HistoryMakesEntry(None, [], Concerning(events, key), key);
  }

  /** Until the first request both streams are as new, but for what their readers did. */
  lemma {:induction false} NothingBeforeRequest(events: seq<TableEvent>, key: string)
    requires key in TableRun(map[], events) && TableRun(map[], events)[key].client.None?
    ensures var c := TableRun(map[], events)[key];
            c.up.window == c.down.window == EMPTY_WINDOW && c.up.queued == c.down.queued == []
  {
    EntryIsMadeByPast(events, key);
    OnlyReads(Past(events, key), true);
    OnlyReads(Past(events, key), false);
  }

  lemma {:induction false} OnlyReads(past: seq<TableEvent>, up: bool)
    requires Client(past).None?
    ensures var s := StreamRun(NEW_STREAM, Flow(past, up)); s.window == EMPTY_WINDOW && s.queued == [] && !s.closed
  {
    if past == [] {
      assert Flow(past, up) == [];
    } else {
      var init, e := past[..|past| - 1], past[|past| - 1];
      assert Client(init).None?;
      OnlyReads(init, up);
      FlowGrows(init, e, up);
      assert init + [e] == past;
      ReadLeavesWindow(StreamRun(NEW_STREAM, Flow(init, up)), e, up);
      hide *;
    }
  }

  lemma {:induction false} ReadLeavesWindow(s: StreamView, e: TableEvent, up: bool)
    requires s.window == EMPTY_WINDOW && s.queued == [] && !s.closed
    ensures var share := Share(None, e, up);
            share != [] ==> var t := StreamStep(s, share[0]); t.window == EMPTY_WINDOW && t.queued == [] && !t.closed
  {
  }

  // ---- What a direction delivers

  /** The events that reach the window: none once the stream is off, and no acknowledgement
      whose wait for space fails. */
  predicate Reaches(s: StreamView, e: StreamEvent) {
    !s.Off() && match e
                case Arrived(_, _) => true
                case Acked(_, space) => space
                case Reads(_) => false
  }

  function Reaching(s: StreamView, events: seq<StreamEvent>): seq<StreamEvent> {
    if events == [] then [] else
      var init, last := events[..|events| - 1], events[|events| - 1];
      Reaching(s, init) + (if Reaches(StreamRun(s, init), last) then [last] else [])
  }

  /** Everything ever queued for the reader. */
  function Output(s: StreamView, events: seq<StreamEvent>): seq<Segment> {
    if events == [] then [] else
      var init, last := events[..|events| - 1], events[|events| - 1];
      var now := StreamRun(s, init);
      Output(s, init) + Queues(now, last)
  }

  /** What an event queues for the reader. */
  function Queues(s: StreamView, e: StreamEvent): seq<Segment> {
    if e.Acked? && Reaches(s, e) then Confirm(s.window, e.ack).1 else []
  }

  predicate IsAt(event: StreamEvent, placed: Event) {
    match placed
    case Arrival(p) => event.Arrived? && event.segment == Wrapped(p)
    case Ack(a) => event.Acked? && event.ack == Wrap(a)
  }

  /** The events as segments and acknowledgements at true positions. */
  predicate At(events: seq<StreamEvent>, placed: seq<Event>) {
    |events| == |placed| && forall i :: 0 <= i < |events| ==> IsAt(events[i], placed[i])
  }

  lemma {:induction false} StepIsWindowStep(s: StreamView, e: StreamEvent, placed: Event)
    requires IsAt(e, placed) && Reaches(s, e)
    ensures (StreamStep(s, e).window, Queues(s, e)) == WindowStep(s.window, placed)
  {
  }

  lemma {:induction false} StepReachesNothing(s: StreamView, e: StreamEvent)
    requires !Reaches(s, e)
    ensures StreamStep(s, e).window == s.window && Queues(s, e) == []
  {
  }

  /** Readers and failed waits included, a stream's window and everything it ever queued are
      those of the window run on the events that reach it. */
  lemma {:induction false} StreamIsWindowRun(events: seq<StreamEvent>, placed: seq<Event>)
    requires At(Reaching(NEW_STREAM, events), placed)
    ensures (StreamRun(NEW_STREAM, events).window, Output(NEW_STREAM, events)) == WindowRun(EMPTY_WINDOW, placed)
    decreases |events|
  {
    if events != [] {
      var init, last := events[..|events| - 1], events[|events| - 1];
      var now := StreamRun(NEW_STREAM, init);
      var before := Reaching(NEW_STREAM, init);
      if Reaches(now, last) {
        var k := |placed| - 1;
        assert Reaching(NEW_STREAM, events) == before + [last];
        assert forall i :: 0 <= i < k ==> before[i] == Reaching(NEW_STREAM, events)[i];
        StreamIsWindowRun(init, placed[..k]);
        WindowRunLast(EMPTY_WINDOW, placed[..k], placed[k]);
        assert placed[..k] + [placed[k]] == placed;
        StepIsWindowStep(now, last, placed[k]);
        hide At, Reaches, Reaching, StreamStep, Queues, WindowRun, WindowStep, IsAt;
      } else {
        assert before + [] == before;
        StepReachesNothing(now, last);
        assert Output(NEW_STREAM, init) + [] == Output(NEW_STREAM, init);
        StreamIsWindowRun(init, placed);
        hide At, Reaches, Reaching, StreamStep, Queues, WindowRun;
      }
    }
  }

  predicate IsTail(queued: seq<Segment>, all: seq<Segment>) {
    |queued| <= |all| && queued == all[|all| - |queued|..]
  }

  /** The reader takes from the front: what is queued is the end of everything ever queued. */
  lemma {:induction false} QueueIsTail(events: seq<StreamEvent>)
    ensures IsTail(StreamRun(NEW_STREAM, events).queued, Output(NEW_STREAM, events))
    decreases |events|
  {
    if events != [] {
      var init, last := events[..|events| - 1], events[|events| - 1];
      var now, output := StreamRun(NEW_STREAM, init), Output(NEW_STREAM, init);
      QueueIsTail(init);
      QueueMoves(now, last);
      TailMoves(now.queued, output, Queues(now, last), Taken(now, last));
      hide StreamStep, Queues, Taken, IsTail;
    }
  }

  /** How many segments the reader takes. */
  function Taken(s: StreamView, e: StreamEvent): (n: nat)
    ensures n <= |s.queued|
  {
    if e.Reads? && e.effect.Took? then if e.effect.n <= |s.queued| then e.effect.n else |s.queued| else 0
  }

  lemma {:induction false} QueueMoves(s: StreamView, e: StreamEvent)
    ensures StreamStep(s, e).queued == (s.queued + Queues(s, e))[Taken(s, e)..]
    ensures Queues(s, e) == [] || Taken(s, e) == 0
  {
  }

  lemma {:induction false} TailMoves(queued: seq<Segment>, all: seq<Segment>, more: seq<Segment>, taken: nat)
    requires IsTail(queued, all) && (more == [] || taken == 0) && taken <= |queued|
    ensures IsTail((queued + more)[taken..], all + more)
  {
  }

  /** A direction, from the wire to its reader: take any run of the table and the segments of a
      direction of a connection that reach its window, cut from one stream. Whatever the
      comparison does near the wrap, everything queued for that direction's reader since the
      connection was created is the stream's bytes at some positions, and what the reader has
      yet to take is the end of it; with the segments sent in reach, those stretches are
      disjoint and in order if and only if number 0 hides no overlap. With every decision of
      the window right and no gap at any acknowledgement it is one uninterrupted stretch. */
  lemma {:induction false} DirectionDelivers(events: seq<TableEvent>, key: string, up: bool,
                                             stream: int -> Byte, placed: seq<Event>)
    requires key in TableRun(map[], events)
    requires At(Reaching(NEW_STREAM, Flow(Past(events, key), up)), placed)
    requires EventsCutFrom(stream, placed)
    ensures var c := TableRun(map[], events)[key];
            var output := Output(NEW_STREAM, Flow(Past(events, key), up));
            var (v, chunks) := CodeRun(EMPTY, placed);
            && IsTail(if up then c.up.queued else c.down.queued, output)
            && SamePayloads(output, chunks) && AllCutFrom(stream, chunks)
            && (RunInReach(EMPTY, placed) ==> (InOrder(chunks, None, v.next) <==> RunHidesNothing(EMPTY, placed)))
    ensures var output := Output(NEW_STREAM, Flow(Past(events, key), up));
            var (v, chunks) := Run(EMPTY, placed);
            RunClear(EMPTY, placed) && RunGapFree(EMPTY, placed) && chunks != [] ==>
              v.next.Some? && chunks[0].pos <= v.next.value && Bytes(output) == Cut(stream, chunks[0].pos, v.next.value)
  {
    EntryIsMadeByPast(events, key);
    var flow := Flow(Past(events, key), up);
    QueueIsTail(flow);
    StreamIsWindowRun(flow, placed);
    ReassemblyIsSafe(stream, placed);
    if RunClear(EMPTY, placed) && RunGapFree(EMPTY, placed) && Run(EMPTY, placed).1 != [] {
      GapFreeRunIsOneStretch(stream, placed);
    }
  }
}
