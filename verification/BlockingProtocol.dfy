/** The packet loop against one connection's HTTP handler, step by step: the loop sends into
    two bounded channels, the handler reads them through `bufio` in an order the HTTP parser
    decides (httpdump/receive_window.go, network_stream.go and http_traffic_handler.go). */
module BlockingProtocol {
  import opened Basics
  import opened TcpSequence
  import opened Reassembly

  datatype Side = Up | Down {
    function Other(): Side {
      if Up? then Down else Up
    }
  }

  /** A direction. `parsed` and `sent` are histories: the bytes the parser has consumed and
      the segments ever sent; `log` lists the segments appended and acknowledgements begun. */
  datatype Pipe = Pipe(window: Window, queue: seq<Segment>, remain: seq<Byte>, buffered: seq<Byte>,
                       ignore: bool, eof: bool,
                       parsed: seq<Byte>, sent: seq<Segment>, log: seq<Logged>)

  datatype Logged = Appended(segment: Segment) | Begun(ack: Uint32)

  datatype Loop = Idle | Confirming(side: Side, ack: Uint32) | Closed

  /** Why a report is being made: the first response arrived (`again`: it was "100 Continue"
      and another follows), none arrived, or the one after "100 Continue" did. */
  datatype Why = First(again: bool) | NoResponse | Second

  /** Where the handler is. `got`: the request being read has consumed a byte. */
  datatype Phase =
    | Request(got: bool)
    | Response(expectContinue: bool)
    | ContinuedResponse
    | ReportRequest(why: Why)
    | ReportResponse(why: Why)
    | DiscardBody(why: Why)
    | DrainDown
    | DrainUp
    | CloseDown
    | CloseUp
    | Done

  datatype State = State(capacity: nat, up: Pipe, down: Pipe, loop: Loop, phase: Phase) {
    function Get(s: Side): Pipe {
      if s.Up? then up else down
    }

    function Set(s: Side, p: Pipe): State {
      if s.Up? then this.(up := p) else this.(down := p)
    }

    predicate Full(s: Side) {
      |Get(s).queue| >= capacity
    }
  }

  const NEW_PIPE := Pipe(EMPTY_WINDOW, [], [], [], false, false, [], [], [])

  function Start(capacity: nat): State {
    State(capacity, NEW_PIPE, NEW_PIPE, Idle, Request(false))
  }

  // ---- The packet loop

  datatype LoopAction =
    | Append(side: Side, segment: Segment)
    | Begin(side: Side, ack: Uint32)
    | Abandon(side: Side)
    | Turn
    | Close

  /** The turn an acknowledgement in flight is about to take. */
  function NextTurn(p: Pipe, ack: Uint32): Reassembly.Turn {
    if p.window.segments == [] then Stop
    else TakeTurn(p.window.segments[0], p.window.expectBegin, ack)
  }

  predicate LoopEnabled(s: State, a: LoopAction) {
    match a
    case Append(_, _) => s.loop.Idle?
    case Begin(side, _) => s.loop.Idle? && !s.Get(side).ignore && !s.Get(side).eof && !s.Full(side)
    case Abandon(side) => s.loop.Idle? && s.Full(side)
    case Turn => s.loop.Confirming? &&
                 (NextTurn(s.Get(s.loop.side), s.loop.ack).Send? ==> !s.Full(s.loop.side))
    case Close => s.loop.Idle?
  }

  function LoopStep(s: State, a: LoopAction): State
    requires LoopEnabled(s, a)
  {
    match a
    case Append(side, segment) =>
      var p := s.Get(side);
      if p.ignore || p.eof then s
      else s.Set(side, p.(window := Insert(p.window, segment), log := p.log + [Appended(segment)]))
    case Begin(side, ack) =>
      var p := s.Get(side);
      s.Set(side, p.(log := p.log + [Begun(ack)])).(loop := Confirming(side, ack))
    case Abandon(side) => s.Set(side, s.Get(side).(ignore := true))
    case Turn =>
      var side, ack := s.loop.side, s.loop.ack;
      var p := s.Get(side);
      var w := p.window;
      (match NextTurn(p, ack)
       case Stop => s.Set(side, p.(window := w.(lastAck := LaterAck(w.lastAck, ack)))).(loop := Idle)
       case Skip => s.Set(side, p.(window := w.(segments := w.segments[1..])))
       case Send(segment, next) =>
         s.Set(side, p.(window := w.(segments := w.segments[1..], expectBegin := next),
                        queue := p.queue + [segment], sent := p.sent + [segment])))
    case Close => s.(loop := Closed)
  }

  // ---- The handler

  datatype HandlerAction =
    | Consume(n: nat)                      // the parser takes bytes out of `bufio`
    | Refill(n: nat)                       // `Read` hands out part of `remain`
    | Receive                              // `Read` takes a packet from the channel
    | EndOfFile(ok: bool, flag: bool)      // `Read` reports EOF and the call in progress ends
    | EndOfFileHeld(n: nat)                // ... or goes on with what `bufio` still holds
    | Retry                                // the timer expires and `Read` waits again
    | EndCall(ok: bool, flag: bool)        // the call in progress ends by itself
    | CloseStream

  /** The stream the call in progress reads, if it reads at all. */
  function Reads(phase: Phase): Option<Side> {
    match phase
    case Request(_) | ReportRequest(_) | DiscardBody(_) | DrainUp => Some(Up)
    case Response(_) | ContinuedResponse | ReportResponse(_) | DrainDown => Some(Down)
    case CloseDown | CloseUp | Done => None
  }

  predicate Draining(phase: Phase) {
    phase.DrainDown? || phase.DrainUp?
  }

  /** `Read` finds nothing to hand out and nothing to receive. */
  predicate Dry(p: Pipe) {
    p.remain == [] && p.queue == []
  }

  /** How the call in progress may end: a request cannot be complete before its first byte,
      and a drain goes on until its reader, buffer included, reports EOF. */
  predicate MayEnd(phase: Phase, ok: bool) {
    phase.Request? && ok ==> phase.got
  }

  function AfterReport(why: Why): Phase {
    if why.Second? then Request(false) else DiscardBody(why)
  }

  /** Where the handler goes when the call in progress ends, with or without success; `flag`
      answers "Expect: 100-continue?" for a request and "status 100?" for its response. */
  function Conclude(phase: Phase, ok: bool, flag: bool): Phase {
    match phase
    case Request(_) => if ok then Response(flag) else DrainDown
    case Response(expectContinue) => ReportRequest(if ok then First(expectContinue && flag) else NoResponse)
    case ContinuedResponse => ReportRequest(if ok then Second else NoResponse)
    case ReportRequest(why) => if ok && !why.NoResponse? then ReportResponse(why) else AfterReport(why)
    case ReportResponse(why) => AfterReport(why)
    case DiscardBody(why) =>
      (match why
       case First(again) => if again then ContinuedResponse else Request(false)
       case _ => DrainDown)
    case DrainDown => DrainUp
    case DrainUp => CloseDown
    case CloseDown => CloseUp
    case CloseUp => Done
    case Done => Done
  }

  function Touched(phase: Phase): Phase {
    if phase.Request? then Request(true) else phase
  }

  /** `Read` reports EOF on a drained and closed channel, or when its timer expires: at once if
      the opposite channel is full, else when inactive for too long. With a full opposite
      channel it does not wait again. Nothing but luck keeps the timer from being chosen over a
      packet that is already there. */
  predicate HandlerEnabled(s: State, a: HandlerAction) {
    match Reads(s.phase)
    case None => a.CloseStream? && !s.phase.Done?
    case Some(side) =>
      var p := s.Get(side);
      match a
      case Consume(n) => 0 < n <= |p.buffered|
      case Refill(n) => 0 < n <= |p.remain|
      case Receive => p.remain == [] && p.queue != []
      case EndOfFile(ok, _) => p.remain == [] && MayEnd(s.phase, ok) && (Draining(s.phase) ==> p.buffered == [])
      case EndOfFileHeld(n) => p.remain == [] && !Draining(s.phase) && 0 < n <= |p.buffered|
      case Retry => p.remain == [] && !s.Full(side.Other())
      case EndCall(ok, _) => !Draining(s.phase) && MayEnd(s.phase, ok)
      case CloseStream => false
  }

  /** The action is possible, and no timer overtakes a packet or a close that is already there. */
  predicate OnTime(s: State, a: HandlerAction) {
    && HandlerEnabled(s, a)
    && (a.EndOfFile? || a.EndOfFileHeld? || a.Retry? ==> Dry(s.Get(Reads(s.phase).value)))
    && (a.Retry? ==> !s.loop.Closed?)
  }

  function HandlerStep(s: State, a: HandlerAction): State
    requires HandlerEnabled(s, a)
  {
    match Reads(s.phase)
    case None =>
      var side := if s.phase.CloseDown? then Down else Up;
      s.Set(side, s.Get(side).(ignore := true)).(phase := Conclude(s.phase, true, false))
    case Some(side) =>
      var p := s.Get(side);
      (match a
       case Consume(n) =>
         s.Set(side, p.(buffered := p.buffered[n..], parsed := p.parsed + p.buffered[..n]))
          .(phase := Touched(s.phase))
       case Refill(n) => s.Set(side, p.(remain := p.remain[n..], buffered := p.buffered + p.remain[..n]))
       case Receive => s.Set(side, p.(remain := p.queue[0].payload, queue := p.queue[1..]))
       case EndOfFile(ok, flag) => s.Set(side, p.(eof := true)).(phase := Conclude(s.phase, ok, flag))
       case EndOfFileHeld(n) =>
         s.Set(side, p.(eof := true, buffered := p.buffered[n..], parsed := p.parsed + p.buffered[..n]))
          .(phase := Touched(s.phase))
       case Retry => s
       case EndCall(ok, flag) => s.(phase := Conclude(s.phase, ok, flag)))
  }

  // ---- Runs

  datatype Action = ByLoop(loopAction: LoopAction) | ByHandler(handlerAction: HandlerAction)

  predicate Enabled(s: State, a: Action) {
    match a
    case ByLoop(l) => LoopEnabled(s, l)
    case ByHandler(h) => HandlerEnabled(s, h)
  }

  function Step(s: State, a: Action): State
    requires Enabled(s, a)
  {
    match a
    case ByLoop(l) => LoopStep(s, l)
    case ByHandler(h) => HandlerStep(s, h)
  }

  predicate Possible(s: State, actions: seq<Action>)
    decreases |actions|
  {
    actions == [] || (Enabled(s, actions[0]) && Possible(Step(s, actions[0]), actions[1..]))
  }

  function After(s: State, actions: seq<Action>): State
    requires Possible(s, actions)
    decreases |actions|
  {
    if actions == [] then s else After(Step(s, actions[0]), actions[1..])
  }

  // ---- What every reachable state satisfies

  /** The window and everything sent, as the logged operations alone determine them. */
  function Replay(log: seq<Logged>): (Window, seq<Segment>) {
    if log == [] then (EMPTY_WINDOW, []) else
      var last := |log| - 1;
      var (w, sent) := Replay(log[..last]);
      match log[last]
      case Appended(s) => (Insert(w, s), sent)
      case Begun(ack) => var (w', more) := Confirm(w, ack); (w', sent + more)
  }

  /** The window and everything sent once the acknowledgement in flight, if it is on this
      side, has run to its end. */
  function Completed(s: State, side: Side): (Window, seq<Segment>) {
    var p := s.Get(side);
    if s.loop.Confirming? && s.loop.side == side then
      var (w, more) := Confirm(p.window, s.loop.ack); (w, p.sent + more)
    else (p.window, p.sent)
  }

  /** Every byte sent is parsed, buffered, remaining or queued, in order. */
  ghost predicate Balanced(p: Pipe) {
    NoEmptyPayload(p.queue) && p.parsed + p.buffered + p.remain + Bytes(p.queue) == Bytes(p.sent)
  }

  /** Bounded, without empty packets and balanced; and the operations logged account for the
      window and for everything sent. */
  ghost predicate PipeOk(s: State, side: Side) {
    var p := s.Get(side);
    && |p.queue| <= s.capacity && NoEmptyPayload(p.window.segments)
    && Balanced(p)
    && Completed(s, side) == Replay(p.log)
  }

  ghost predicate Ok(s: State) {
    && PipeOk(s, Up) && PipeOk(s, Down)
    && (s.loop.Confirming? ==> 0 < s.capacity)
  }

  lemma {:induction false} ReplayLast(log: seq<Logged>, e: Logged)
    ensures var (w, sent) := Replay(log);
            Replay(log + [e]) ==
            match e
            case Appended(s) => (Insert(w, s), sent)
            case Begun(ack) => (Confirm(w, ack).0, sent + Confirm(w, ack).1)
  {
    assert (log + [e])[..|log|] == log;
  }

  lemma {:induction false} BalancedAfterSend(p: Pipe, segment: Segment)
    requires Balanced(p) && segment.payload != []
    ensures Balanced(p.(queue := p.queue + [segment], sent := p.sent + [segment]))
  {
    BytesOfConcat(p.queue, [segment]);
    BytesOfConcat(p.sent, [segment]);
    Regroup(p.parsed + p.buffered + p.remain, Bytes(p.queue), Bytes([segment]));
  }

  lemma {:induction false} BalancedAfterConsume(p: Pipe, n: nat)
    requires Balanced(p) && n <= |p.buffered|
    ensures Balanced(p.(buffered := p.buffered[n..], parsed := p.parsed + p.buffered[..n]))
  {
    assert p.buffered == p.buffered[..n] + p.buffered[n..];
    Regroup(p.parsed, p.buffered[..n], p.buffered[n..]);
  }

  lemma {:induction false} BalancedAfterRefill(p: Pipe, n: nat)
    requires Balanced(p) && n <= |p.remain|
    ensures Balanced(p.(remain := p.remain[n..], buffered := p.buffered + p.remain[..n]))
  {
    assert p.remain == p.remain[..n] + p.remain[n..];
    Regroup(p.parsed, p.buffered, p.remain[..n]);
    Regroup(p.parsed + p.buffered, p.remain[..n], p.remain[n..]);
  }

  lemma {:induction false} BalancedAfterReceive(p: Pipe)
    requires Balanced(p) && p.remain == [] && p.queue != []
    ensures Balanced(p.(remain := p.queue[0].payload, queue := p.queue[1..]))
  {
    assert p.parsed + p.buffered + [] == p.parsed + p.buffered;
    Regroup(p.parsed + p.buffered, p.queue[0].payload, Bytes(p.queue[1..]));
  }

  /** What a turn does to the acknowledgement in flight: nothing, seen from its end. */
  lemma {:induction false} TurnKeepsCompletion(p: Pipe, ack: Uint32)
    ensures var (w, more) := Confirm(p.window, ack);
            match NextTurn(p, ack)
            case Stop => more == [] && w == p.window.(lastAck := LaterAck(p.window.lastAck, ack))
            case Skip => Confirm(p.window.(segments := p.window.segments[1..]), ack) == (w, more)
            case Send(segment, next) =>
              var (w', more') := Confirm(p.window.(segments := p.window.segments[1..], expectBegin := next), ack);
              w == w' && p.sent + more == (p.sent + [segment]) + more'
  {
    match NextTurn(p, ack)
    case Send(segment, next) =>
      var rest := Deliver(p.window.segments[1..], next, ack);
      assert p.sent + ([segment] + rest.sent) == (p.sent + [segment]) + rest.sent;
    case _ =>
  }

  lemma {:induction false} TurnKeepsOk(s: State)
    requires Ok(s) && LoopEnabled(s, Turn)
    ensures Ok(LoopStep(s, Turn))
  {
    hide Confirm, Balanced;
    var side, ack := s.loop.side, s.loop.ack;
    var p := s.Get(side);
    TurnKeepsCompletion(p, ack);
    match NextTurn(p, ack)
    case Stop =>
      assert p.sent + [] == p.sent;
      SameBooks(p, p.(window := p.window.(lastAck := LaterAck(p.window.lastAck, ack))));
    case Skip =>
      SameBooks(p, p.(window := p.window.(segments := p.window.segments[1..])));
    case Send(segment, next) =>
      var p' := p.(window := p.window.(segments := p.window.segments[1..], expectBegin := next));
      SameBooks(p, p');
      BalancedAfterSend(p', segment);
  }

  lemma {:induction false} SameBooks(p: Pipe, p': Pipe)
    requires Balanced(p) && p' == p.(window := p'.window, ignore := p'.ignore, eof := p'.eof, log := p'.log)
    ensures Balanced(p')
  {
  }

  lemma {:induction false} LoopKeepsOk(s: State, a: LoopAction)
    requires Ok(s) && LoopEnabled(s, a)
    ensures Ok(LoopStep(s, a))
  {
    hide Confirm, Balanced, Insert, Replay;
    match a
    case Append(side, segment) =>
      var p := s.Get(side);
      ReplayLast(p.log, Appended(segment));
      InsertKeepsPayloads(p.window, segment);
      SameBooks(p, p.(window := Insert(p.window, segment), log := p.log + [Appended(segment)]));
    case Begin(side, ack) =>
      var p := s.Get(side);
      ReplayLast(p.log, Begun(ack));
      SameBooks(p, p.(log := p.log + [Begun(ack)]));
    case Abandon(side) => SameBooks(s.Get(side), s.Get(side).(ignore := true));
    case Turn => TurnKeepsOk(s);
    case Close =>
  }

  lemma {:induction false} HandlerKeepsOk(s: State, a: HandlerAction)
    requires Ok(s) && HandlerEnabled(s, a)
    ensures Ok(HandlerStep(s, a))
  {
    hide Confirm, Balanced, Replay;
    if Reads(s.phase).Some? {
      var p := s.Get(Reads(s.phase).value);
      match a
      case Consume(n) => BalancedAfterConsume(p, n);
      case EndOfFile(_, _) => SameBooks(p, p.(eof := true));
      case EndOfFileHeld(n) =>
        BalancedAfterConsume(p, n);
        var p' := p.(buffered := p.buffered[n..], parsed := p.parsed + p.buffered[..n]);
        SameBooks(p', p'.(eof := true));
      case Refill(n) => BalancedAfterRefill(p, n);
      case Receive => BalancedAfterReceive(p);
      case _ =>
    } else {
      SameBooks(s.up, s.up.(ignore := true));
      SameBooks(s.down, s.down.(ignore := true));
    }
  }

  lemma {:induction false} ReachableIsOk(s: State, actions: seq<Action>)
    requires Ok(s) && Possible(s, actions)
    ensures Ok(After(s, actions))
    decreases |actions|
  {
    if actions != [] {
      match actions[0] {
        case ByLoop(l) => LoopKeepsOk(s, l);
        case ByHandler(h) => HandlerKeepsOk(s, h);
      }
      ReachableIsOk(Step(s, actions[0]), actions[1..]);
    }
  }

  /** In every reachable state, for every interleaving, the bytes the parser has consumed and
      those it has yet to see are exactly what the logged segments and acknowledgements make
      the window send, up to the part an acknowledgement in flight has not sent yet. */
  lemma {:induction false} ParserSeesWindowOutput(capacity: nat, actions: seq<Action>, side: Side)
    requires Possible(Start(capacity), actions)
    ensures var s := After(Start(capacity), actions);
            var p := s.Get(side);
            var all := Bytes(Replay(p.log).1);
            && p.parsed + p.buffered + p.remain + Bytes(p.queue) <= all
            && p.parsed <= all && |p.queue| <= capacity
  {
    ReachableIsOk(Start(capacity), actions);
    CapacityStays(Start(capacity), actions);
    OutputSoFar(After(Start(capacity), actions), side);
  }

  lemma {:induction false} CapacityStays(s: State, actions: seq<Action>)
    requires Possible(s, actions)
    ensures After(s, actions).capacity == s.capacity
    decreases |actions|
  {
    if actions != [] {
      CapacityStays(Step(s, actions[0]), actions[1..]);
    }
  }

  lemma {:induction false} OutputSoFar(s: State, side: Side)
    requires PipeOk(s, side)
    ensures var p := s.Get(side);
            var all := Bytes(Replay(p.log).1);
            p.parsed + p.buffered + p.remain + Bytes(p.queue) <= all && p.parsed <= all
  {
    hide Confirm, Replay, Bytes;
    var p := s.Get(side);
    if s.loop.Confirming? && s.loop.side == side {
      BytesOfConcat(p.sent, Confirm(p.window, s.loop.ack).1);
    }
    Prefixes(p.parsed, p.buffered, p.remain, Bytes(p.queue), Bytes(Replay(p.log).1));
  }

  lemma {:induction false} Prefixes(a: seq<Byte>, b: seq<Byte>, c: seq<Byte>, d: seq<Byte>, all: seq<Byte>)
    requires a + b + c + d <= all
    ensures a <= all
  {
  }

  // ---- No circular wait

  function Weight(p: Pipe): nat {
    3 * |Bytes(p.queue)| + 2 * |p.remain| + |p.buffered|
  }

  /** How far the handler is from its end, given that it reads no further byte. */
  function Rank(phase: Phase): nat {
    match phase
    case Done => 0
    case CloseUp => 1
    case CloseDown => 2
    case DrainUp => 3
    case DrainDown => 4
    case Request(got) => if got then 14 else 5
    case DiscardBody(why) => if why.First? then 10 else 6
    case ReportResponse(why) => if why.First? then 11 else 7
    case ReportRequest(why) => if why.First? then 12 else 8
    case ContinuedResponse => 9
    case Response(_) => 13
  }

  function Work(s: State): nat {
    Weight(s.up) + Weight(s.down)
  }

  predicate LessWork(s: State, t: State) {
    Work(s) < Work(t) || (Work(s) == Work(t) && Rank(s.phase) < Rank(t.phase))
  }

  /** Every handler step but a fruitless wait brings the handler closer to its end, whatever
      the parser decides: fewer bytes to go, or as many and fewer calls. */
  lemma {:induction false} HandlerProgresses(s: State, a: HandlerAction)
    requires Ok(s) && HandlerEnabled(s, a) && !a.Retry?
    ensures LessWork(HandlerStep(s, a), s)
  {
    if a.EndOfFile? || a.EndCall? || a.CloseStream? {
      EndingProgresses(s, a);
    } else {
      ReadingProgresses(s, a);
    }
    hide HandlerEnabled, HandlerStep, Ok, Work;
  }

  lemma {:induction false} EndingProgresses(s: State, a: HandlerAction)
    requires HandlerEnabled(s, a) && (a.EndOfFile? || a.EndCall? || a.CloseStream?)
    ensures Work(HandlerStep(s, a)) == Work(s) && Rank(HandlerStep(s, a).phase) < Rank(s.phase)
  {
    ConcludingDescends(s.phase);
    hide Conclude, Rank, Bytes;
  }

  lemma {:induction false} ReadingProgresses(s: State, a: HandlerAction)
    requires HandlerEnabled(s, a) && Reads(s.phase).Some? && NoEmptyPayload(s.Get(Reads(s.phase).value).queue)
    requires a.Consume? || a.Refill? || a.Receive? || a.EndOfFileHeld?
    ensures Work(HandlerStep(s, a)) < Work(s)
  {
    var side := Reads(s.phase).value;
    PipeWeighs(s, side, HandlerStep(s, a));
    hide Work, Bytes;
    if a.Receive? {
      ReceiveWeighs(s.Get(side));
    }
  }

  /** Only the pipe that changes counts. */
  lemma {:induction false} PipeWeighs(s: State, side: Side, t: State)
    requires t.Get(side.Other()) == s.Get(side.Other())
    ensures Work(t) - Work(s) == Weight(t.Get(side)) - Weight(s.Get(side))
  {
  }

  /** Ending the call in progress, however it ends, is a step towards the handler's end. */
  lemma {:induction false} ConcludingDescends(phase: Phase)
    requires !phase.Done?
    ensures forall ok, flag :: MayEnd(phase, ok) ==> Rank(Conclude(phase, ok, flag)) < Rank(phase)
  {
  }

  lemma {:induction false} ReceiveWeighs(p: Pipe)
    requires p.remain == [] && p.queue != [] && NoEmptyPayload(p.queue)
    ensures Weight(p.(remain := p.queue[0].payload, queue := p.queue[1..])) < Weight(p)
  {
    assert p.queue[0].payload != [];
  }

  /** The packet loop wants to send on a full channel. */
  predicate Blocked(s: State, side: Side) {
    && s.loop.Confirming? && s.loop.side == side
    && NextTurn(s.Get(side), s.loop.ack).Send? && s.Full(side)
  }

  /** The handler has finished discarding what the stream still delivers. */
  predicate Discarded(s: State, side: Side) {
    if side.Up? then Rank(s.phase) < Rank(DrainUp) else Rank(s.phase) < Rank(DrainDown)
  }

  /** While the loop is blocked and the handler has not discarded that stream, some handler
      step is on time and none is a fruitless wait; each either makes room or leaves the loop
      blocked with the stream still not discarded. */
  lemma {:induction false} BlockedHandlerMoves(s: State, side: Side)
    requires Ok(s) && Blocked(s, side) && !Discarded(s, side)
    ensures exists a :: OnTime(s, a)
    ensures forall a :: OnTime(s, a) ==> !a.Retry?
    ensures forall a :: OnTime(s, a) ==>
              var t := HandlerStep(s, a);
              Ok(t) && t.loop == s.loop && (!t.Full(side) || (Blocked(t, side) && !Discarded(t, side)))
  {
    hide Completed, Balanced, TakeTurn;
    SomeStepEnabled(s);
    forall a | OnTime(s, a)
      ensures !a.Retry?
      ensures var t := HandlerStep(s, a);
              Ok(t) && t.loop == s.loop && (!t.Full(side) || (Blocked(t, side) && !Discarded(t, side)))
    {
      HandlerKeepsOk(s, a);
      HandlerFrame(s, a);
      assert !Dry(s.Get(side));
    }
  }

  lemma {:induction false} SomeStepEnabled(s: State)
    requires !s.phase.Done?
    ensures exists a :: OnTime(s, a)
  {
    if Reads(s.phase).None? {
      assert OnTime(s, CloseStream);
    } else {
      var p := s.Get(Reads(s.phase).value);
      if p.remain != [] {
        assert OnTime(s, Refill(|p.remain|));
      } else if p.queue != [] {
        assert OnTime(s, Receive);
      } else if p.buffered != [] {
        assert OnTime(s, Consume(|p.buffered|));
      } else {
        assert OnTime(s, EndOfFile(false, false));
      }
    }
  }

  /** A handler step touches neither the loop nor a window, and of the queues only the one
      it receives from. */
  lemma {:induction false} HandlerFrame(s: State, a: HandlerAction)
    requires HandlerEnabled(s, a)
    ensures var t := HandlerStep(s, a);
            && t.loop == s.loop && t.capacity == s.capacity
            && forall side :: t.Get(side).window == s.Get(side).window &&
                 if a.Receive? && Reads(s.phase) == Some(side)
                 then s.Get(side).queue != [] && t.Get(side).queue == s.Get(side).queue[1..]
                 else t.Get(side).queue == s.Get(side).queue
  {
  }

  /** A scheduler of the handler, parser and timers: it picks a step on time where there is one. */
  ghost predicate Schedules(pick: State -> HandlerAction) {
    forall s :: (exists a :: OnTime(s, a)) ==> OnTime(s, pick(s))
  }

  function Iterate(s: State, pick: State -> HandlerAction, n: nat): State
    decreases n
  {
    if n == 0 || !HandlerEnabled(s, pick(s)) then s else Iterate(HandlerStep(s, pick(s)), pick, n - 1)
  }

  /** No circular wait: a loop blocked on a stream the handler has not discarded is released
      after finitely many handler steps, however parser and timers are scheduled. */
  lemma {:induction false} BlockedLoopIsReleased(s: State, side: Side, pick: State -> HandlerAction) returns (n: nat)
    requires Ok(s) && Blocked(s, side) && !Discarded(s, side) && Schedules(pick)
    ensures var t := Iterate(s, pick, n); t.loop == s.loop && !t.Full(side) && LoopEnabled(t, Turn)
    decreases Work(s), Rank(s.phase)
  {
    hide Ok, HandlerEnabled, HandlerStep, Work, Rank, Discarded, TakeTurn;
    BlockedHandlerMoves(s, side);
    var t := HandlerStep(s, pick(s));
    HandlerProgresses(s, pick(s));
    if t.Full(side) {
      var m := BlockedLoopIsReleased(t, side, pick);
      n := m + 1;
    } else {
      n := 1;
      assert Iterate(t, pick, 0) == t;
    }
  }

  /** Once the handler has discarded the stream, no handler step ever makes room again. */
  lemma {:induction false} DiscardedStaysFull(s: State, side: Side, pick: State -> HandlerAction, n: nat)
    requires Blocked(s, side) && Discarded(s, side)
    ensures var t := Iterate(s, pick, n); Blocked(t, side) && Discarded(t, side) && !LoopEnabled(t, Turn)
    decreases n
  {
    hide TakeTurn;
    if n > 0 && HandlerEnabled(s, pick(s)) {
      HandlerFrame(s, pick(s));
      DiscardedStaysFull(HandlerStep(s, pick(s)), side, pick, n - 1);
    }
  }

  /** Exactly: a blocked loop is released by the handler if and only if the handler has not
      yet discarded that stream. */
  lemma {:induction false} ReleasedExactly(s: State, side: Side, pick: State -> HandlerAction)
    requires Ok(s) && Blocked(s, side) && Schedules(pick)
    ensures (exists n :: LoopEnabled(Iterate(s, pick, n), Turn)) <==> !Discarded(s, side)
  {
    if Discarded(s, side) {
      forall n ensures !LoopEnabled(Iterate(s, pick, n), Turn) {
        DiscardedStaysFull(s, side, pick, n);
      }
    } else {
      var n := BlockedLoopIsReleased(s, side, pick);
    }
  }

  lemma {:induction false} OneMore(s: State, actions: seq<Action>, a: Action)
    requires Possible(s, actions) && Enabled(After(s, actions), a)
    ensures Possible(s, actions + [a]) && After(s, actions + [a]) == Step(After(s, actions), a)
    decreases |actions|
  {
    if actions != [] {
      assert (actions + [a])[1..] == actions[1..] + [a];
      OneMore(Step(s, actions[0]), actions[1..], a);
    } else {
      assert Possible(Step(s, a), []);
    }
  }

  /** `s` is reached from a start with room for `capacity` packets. */
  ghost predicate Reachable(capacity: nat, s: State) {
    exists actions :: Possible(Start(capacity), actions) && After(Start(capacity), actions) == s
  }

  lemma {:induction false} StartIsReachable(capacity: nat)
    ensures Reachable(capacity, Start(capacity))
  {
    assert Possible(Start(capacity), []) && After(Start(capacity), []) == Start(capacity);
  }

  lemma {:induction false} StepIsReachable(capacity: nat, s: State, a: Action)
    requires Reachable(capacity, s) && Enabled(s, a)
    ensures Reachable(capacity, Step(s, a))
  {
    var actions :| Possible(Start(capacity), actions) && After(Start(capacity), actions) == s;
    OneMore(Start(capacity), actions, a);
  }

  /** On a connection with nothing to read the handler may give up at any time, closing both
      streams. */
  lemma {:induction false} DryHandlerMayEnd(capacity: nat, s: State)
    requires Reachable(capacity, s) && s.phase == Request(false)
    requires Dry(s.up) && Dry(s.down) && s.up.buffered == [] && s.down.buffered == []
    ensures Reachable(capacity, s.(up := s.up.(eof := true, ignore := true),
                                   down := s.down.(eof := true, ignore := true), phase := Done))
  {
    hide Reachable;
    var eof, close := ByHandler(EndOfFile(false, false)), ByHandler(CloseStream);
    StepIsReachable(capacity, s, eof);
    var s1 := s.(up := s.up.(eof := true), phase := DrainDown);
    StepIsReachable(capacity, s1, eof);
    var s2 := s1.(down := s1.down.(eof := true), phase := DrainUp);
    StepIsReachable(capacity, s2, eof);
    var s3 := s2.(phase := CloseDown);
    StepIsReachable(capacity, s3, close);
    var s4 := s3.(down := s3.down.(ignore := true), phase := CloseUp);
    StepIsReachable(capacity, s4, close);
  }

  // ---- A stall within reach

  /** The `i`-th of a train of consecutive one-byte segments. */
  function Wagon(i: nat): Segment
    requires i < HALF
  {
    Segment(1 + i, [7])
  }

  function Train(n: nat): (train: seq<Segment>)
    requires n <= HALF
    ensures |train| == n && forall i :: 0 <= i < n ==> train[i] == Wagon(i)
  {
    if n == 0 then [] else Train(n - 1) + [Wagon(n - 1)]
  }

  function TrainLog(n: nat): seq<Logged>
    requires n <= HALF
  {
    if n == 0 then [] else TrainLog(n - 1) + [Appended(Wagon(n - 1))]
  }

  lemma {:induction false} TrainGrows(n: nat)
    requires n < HALF
    ensures Insert(EMPTY_WINDOW.(segments := Train(n)), Wagon(n)) == EMPTY_WINDOW.(segments := Train(n + 1))
  {
    assert n > 0 ==> CompareTCPSeq(Train(n)[n - 1].seqNo, Wagon(n).seqNo) == -1;
    assert FindSlot(Train(n), Wagon(n).seqNo) == Some(n);
    assert Train(n)[..n] + [Wagon(n)] + Train(n)[n..] == Train(n + 1);
  }

  /** `n` segments have been appended, none acknowledged. */
  function Waiting(capacity: nat, n: nat): State
    requires n <= HALF
  {
    Start(capacity).(up := NEW_PIPE.(window := EMPTY_WINDOW.(segments := Train(n)), log := TrainLog(n)))
  }

  lemma {:induction false} TrainArrives(capacity: nat, n: nat)
    requires n <= HALF
    ensures Reachable(capacity, Waiting(capacity, n))
  {
    if n == 0 {
      StartIsReachable(capacity);
      assert Waiting(capacity, 0) == Start(capacity);
    } else {
      TrainArrives(capacity, n - 1);
      TrainGrows(n - 1);
      hide Reachable, Insert;
      StepIsReachable(capacity, Waiting(capacity, n - 1), ByLoop(Append(Up, Wagon(n - 1))));
    }
  }

  /** The acknowledgement of one segment more than the channel holds is in flight, the handler
      has ended, and `n` of the segments have been sent. */
  function Stalling(capacity: nat, n: nat): State
    requires n <= capacity < HALF - 1
  {
    var window := Window(Train(capacity + 1)[n..], if n == 0 then 0 else n + 1, 0);
    var log := TrainLog(capacity + 1) + [Begun(capacity + 2)];
    State(capacity,
          Pipe(window, Train(n), [], [], true, true, [], Train(n), log),
          NEW_PIPE.(eof := true, ignore := true), Confirming(Up, capacity + 2), Done)
  }

  lemma {:induction false} WagonTurn(capacity: nat, n: nat)
    requires n <= capacity < HALF - 1
    ensures TakeTurn(Wagon(n), if n == 0 then 0 else n + 1, capacity + 2) == Reassembly.Turn.Send(Wagon(n), n + 2)
  {
    assert CompareTCPSeq(n + 1, capacity + 2) == n - 1 - capacity;
  }

  lemma {:induction false} NextWagon(capacity: nat, n: nat)
    requires n <= capacity < HALF - 1
    ensures NextTurn(Stalling(capacity, n).up, capacity + 2) == Reassembly.Turn.Send(Wagon(n), n + 2)
  {
    WagonTurn(capacity, n);
    assert Train(capacity + 1)[n..][0] == Wagon(n);
    hide TakeTurn, Wagon;
  }

  lemma {:induction false} WagonLeaves(capacity: nat, n: nat)
    requires n < capacity < HALF - 1
    ensures LoopEnabled(Stalling(capacity, n), Turn)
    ensures LoopStep(Stalling(capacity, n), Turn) == Stalling(capacity, n + 1)
  {
    NextWagon(capacity, n);
    assert Train(capacity + 1)[n..][1..] == Train(capacity + 1)[n + 1..];
    assert Train(n + 1) == Train(n) + [Wagon(n)];
    TurnSends(Stalling(capacity, n), Wagon(n), n + 2);
    hide LoopStep, LoopEnabled, NextTurn, Train, TrainLog, Wagon;
  }

  lemma {:induction false} TurnSends(s: State, segment: Segment, next: Uint32)
    requires s.loop.Confirming? && s.loop.side == Up && !s.Full(Up)
    requires NextTurn(s.up, s.loop.ack) == Reassembly.Turn.Send(segment, next)
    ensures LoopEnabled(s, Turn)
    ensures var p := s.up;
            LoopStep(s, Turn) ==
            s.(up := p.(window := p.window.(segments := p.window.segments[1..], expectBegin := next),
                        queue := p.queue + [segment], sent := p.sent + [segment]))
  {
  }

  lemma {:induction false} TrainLeaves(capacity: nat, n: nat)
    requires n <= capacity && 0 < capacity < HALF - 1
    ensures Reachable(capacity, Stalling(capacity, n))
  {
    hide Reachable;
    if n == 0 {
      var s := Waiting(capacity, capacity + 1);
      TrainArrives(capacity, capacity + 1);
      StepIsReachable(capacity, s, ByLoop(Begin(Up, capacity + 2)));
      DryHandlerMayEnd(capacity, LoopStep(s, Begin(Up, capacity + 2)));
      assert Train(capacity + 1)[0..] == Train(capacity + 1);
    } else {
      TrainLeaves(capacity, n - 1);
      WagonLeaves(capacity, n - 1);
      StepIsReachable(capacity, Stalling(capacity, n - 1), ByLoop(Turn));
    }
  }

  /** A stall is within reach, whatever the size of the channel: an acknowledgement that
      releases one segment more than the channel holds begins just before the handler gives up
      on an inactive connection; the handler discards and closes both streams, the segments
      fill the channel, and sending the last one waits for good. */
  lemma {:induction false} StallIsReachable(capacity: nat)
    requires 0 < capacity < HALF - 1
    ensures exists s :: Reachable(capacity, s) && s.phase == Done && Blocked(s, Up)
  {
    TrainLeaves(capacity, capacity);
    NextWagon(capacity, capacity);
    assert Blocked(Stalling(capacity, capacity), Up);
  }

  /** Why the schedules have to be on time: a timer chosen over the packets of a full channel
      ends the discarding early, and the loop blocked on that channel is never released. */
  lemma {:induction false} OvertakingStalls(s: State, pick: State -> HandlerAction, n: nat)
    requires Blocked(s, Up) && 0 < s.capacity && s.phase == DrainUp && s.up.remain == [] && s.up.buffered == []
    ensures var a := EndOfFile(false, false);
            && HandlerEnabled(s, a) && !OnTime(s, a) && !Discarded(s, Up)
            && !LoopEnabled(Iterate(HandlerStep(s, a), pick, n), Turn)
  {
    DiscardedStaysFull(HandlerStep(s, EndOfFile(false, false)), Up, pick, n);
  }

  /** Once the packet loop has closed the channels, the handler comes to its end, whatever the
      parser and the timers do. */
  lemma {:induction false} ClosedHandlerFinishes(s: State, pick: State -> HandlerAction) returns (n: nat)
    requires Ok(s) && s.loop.Closed? && Schedules(pick)
    ensures Iterate(s, pick, n).phase == Done
    decreases Work(s), Rank(s.phase)
  {
    hide Ok, HandlerStep, Work, Rank;
    if s.phase == Done {
      n := 0;
    } else {
      SomeStepEnabled(s);
      var t := HandlerStep(s, pick(s));
      HandlerProgresses(s, pick(s));
      HandlerKeepsOk(s, pick(s));
      HandlerFrame(s, pick(s));
      var m := ClosedHandlerFinishes(t, pick);
      n := m + 1;
    }
  }
}
