/** The orders of calls the text of `handle` allows all occur: for each there is a run of the
    handler and the packet loop that makes exactly those calls
    (httpdump/http_traffic_handler.go). */
module CallRuns {
  import opened Basics
  import opened TcpSequence
  import opened Reassembly
  import opened BlockingProtocol
  import opened HandlerCalls

  /** The first call the text allows is the one of the phase, and the text goes on as the
      handler does. */
  lemma {:induction false} FirstCallFits(phase: Phase, calls: seq<Call>)
    requires Proper(phase) && calls != [] && Allowed(phase, calls)
    ensures Doing(phase) == Some(calls[0].what)
    ensures Allowed(Conclude(phase, calls[0].ok, calls[0].answer), calls[1..])
    ensures Proper(Conclude(phase, calls[0].ok, calls[0].answer))
    ensures phase.CloseDown? || phase.CloseUp? ==> calls[0].ok && !calls[0].answer
  {
    var rest := calls[1..];
    match phase
    case Request(_) => assert HandlerCalls.Loop(calls);
    case ReportRequest(why) =>
      assert rest != [] ==> rest[1..] == calls[2..];
      assert !calls[0].ok && why.First? ==> Reported(rest, true, why.again);
      assert !calls[0].ok && why.Second? ==> Reported(rest, false, false);
    case ReportResponse(why) => assert why.Second? ==> Reported(rest, false, false);
    case DiscardBody(why) => assert why.First? ==> Reported(calls, true, why.again);
    case _ =>
  }

  /** A request arrives in two bytes, ending the sequence space, so that the next one may have
      the same numbers. */
  const REQUEST_BYTES := Segment(0xFFFF_FFFE, [71, 69])
  const REQUEST_ACK: Uint32 := 0xFFFF_FFFF

  predicate Empty(p: Pipe) {
    p.queue == [] && p.remain == [] && p.buffered == []
  }

  /** Nothing is under way, and until the handler leaves, requests can still arrive. */
  predicate Quiet(s: State) {
    && s.loop == Idle && Empty(s.up) && Empty(s.down)
    && (!Ending(s.phase) ==>
          !s.up.ignore && !s.up.eof && s.up.window.segments == [] && s.up.window.expectBegin == 0)
  }

  /** The action that ends the call in progress. */
  function Ends(phase: Phase, c: Call): Action {
    ByHandler(if phase.CloseDown? || phase.CloseUp? then CloseStream
              else if Draining(phase) then EndOfFile(c.ok, c.answer)
              else EndCall(c.ok, c.answer))
  }

  lemma {:induction false} CallEnds(s: State, c: Call)
    requires Quiet(s) && Proper(s.phase) && Doing(s.phase) == Some(c.what)
    requires s.phase.CloseDown? || s.phase.CloseUp? ==> c.ok && !c.answer
    requires s.phase.Request? && c.ok ==> s.phase.got
    ensures var a := Ends(s.phase, c);
            && Enabled(s, a) && Finished(s, a) == [c] && Quiet(Step(s, a))
            && Step(s, a).phase == Conclude(s.phase, c.ok, c.answer) && Step(s, a).capacity == s.capacity
  {
  }

  lemma {:induction false} Prepend(s: State, a: Action, rest: seq<Action>)
    requires Enabled(s, a) && Possible(Step(s, a), rest)
    ensures Possible(s, [a] + rest) && Calls(s, [a] + rest) == Finished(s, a) + Calls(Step(s, a), rest)
  {
    assert ([a] + rest)[1..] == rest;
  }

  // ---- A request arrives

  /** What the upstream has sent by then. */
  function Delivered(s: State): State {
    var w := s.up.window;
    s.(up := s.up.(window := w.(lastAck := LaterAck(w.lastAck, REQUEST_ACK)),
                   queue := [REQUEST_BYTES], sent := s.up.sent + [REQUEST_BYTES],
                   log := s.up.log + [Appended(REQUEST_BYTES)] + [Begun(REQUEST_ACK)]))
  }

  lemma {:induction false} LoopDelivers(s: State, rest: seq<Action>) returns (actions: seq<Action>)
    requires Quiet(s) && s.phase.Request? && 0 < s.capacity && Possible(Delivered(s), rest)
    ensures Possible(s, actions) && Calls(s, actions) == Calls(Delivered(s), rest)
  {
    hide Possible, Calls, LaterAck;
    var append, begin := ByLoop(Append(Up, REQUEST_BYTES)), ByLoop(Begin(Up, REQUEST_ACK));
    var s1 := s.(up := s.up.(window := s.up.window.(segments := [REQUEST_BYTES]),
                             log := s.up.log + [Appended(REQUEST_BYTES)]));
    assert Enabled(s, append) && Step(s, append) == s1;
    var s2 := s1.(up := s1.up.(log := s1.up.log + [Begun(REQUEST_ACK)]), loop := Confirming(Up, REQUEST_ACK));
    assert Enabled(s1, begin) && Step(s1, begin) == s2;
    var s3 := s2.(up := s2.up.(window := s.up.window, queue := [REQUEST_BYTES], sent := s.up.sent + [REQUEST_BYTES]));
    RequestIsSent(s2, s3);
    assert Enabled(s3, ByLoop(Turn)) && Step(s3, ByLoop(Turn)) == Delivered(s);
    Prepend(s3, ByLoop(Turn), rest);
    Prepend(s2, ByLoop(Turn), [ByLoop(Turn)] + rest);
    Prepend(s1, begin, [ByLoop(Turn)] + ([ByLoop(Turn)] + rest));
    Prepend(s, append, [begin] + ([ByLoop(Turn)] + ([ByLoop(Turn)] + rest)));
    actions := [append] + ([begin] + ([ByLoop(Turn)] + ([ByLoop(Turn)] + rest)));
  }

  lemma {:induction false} RequestIsSent(s: State, t: State)
    requires s.loop == Confirming(Up, REQUEST_ACK) && 0 < s.capacity && s.up.queue == []
    requires s.up.window.segments == [REQUEST_BYTES] && s.up.window.expectBegin == 0
    requires t == s.(up := s.up.(window := s.up.window.(segments := []), queue := [REQUEST_BYTES],
                                 sent := s.up.sent + [REQUEST_BYTES]))
    ensures Enabled(s, ByLoop(Turn)) && Step(s, ByLoop(Turn)) == t
  {
    assert NextTurn(s.up, REQUEST_ACK) == Send(REQUEST_BYTES, 0);
    assert [REQUEST_BYTES][1..] == [] && [] + [REQUEST_BYTES] == [REQUEST_BYTES];
  }

  /** The parser has consumed it. */
  function Read(s: State): State {
    s.(up := s.up.(queue := [], parsed := s.up.parsed + REQUEST_BYTES.payload), phase := Request(true))
  }

  lemma {:induction false} HandlerReads(s: State, rest: seq<Action>) returns (actions: seq<Action>)
    requires s.phase.Request? && s.up.queue == [REQUEST_BYTES] && s.up.remain == [] && s.up.buffered == []
    requires Possible(Read(s), rest)
    ensures Possible(s, actions) && Calls(s, actions) == Calls(Read(s), rest)
  {
    hide Possible, Calls;
    var bytes := REQUEST_BYTES.payload;
    assert bytes[2..] == [] && bytes[..2] == bytes && [] + bytes == bytes;
    var receive, refill, consume := ByHandler(Receive), ByHandler(HandlerAction.Refill(2)), ByHandler(Consume(2));
    var s1 := s.(up := s.up.(queue := [], remain := bytes));
    assert Enabled(s, receive) && Step(s, receive) == s1;
    var s2 := s1.(up := s1.up.(remain := [], buffered := bytes));
    assert Enabled(s1, refill) && Step(s1, refill) == s2;
    assert Enabled(s2, consume) && Step(s2, consume) == Read(s);
    Prepend(s2, consume, rest);
    Prepend(s1, refill, [consume] + rest);
    Prepend(s, receive, [refill] + ([consume] + rest));
    actions := [receive] + ([refill] + ([consume] + rest));
  }

  lemma {:induction false} RequestArrives(s: State, rest: seq<Action>) returns (actions: seq<Action>)
    requires Quiet(s) && s.phase.Request? && 0 < s.capacity && Possible(Read(Delivered(s)), rest)
    ensures Possible(s, actions) && Calls(s, actions) == Calls(Read(Delivered(s)), rest)
  {
    actions := HandlerReads(Delivered(s), rest);
    actions := LoopDelivers(s, actions);
  }

  // ---- Every order of calls

  /** Without room for a single packet no request can be read. */
  predicate NeedsNoRoom(calls: seq<Call>) {
    forall i :: 0 <= i < |calls| && calls[i].what == ReadRequest ==> !calls[i].ok
  }

  lemma {:induction false} AllowedIsPossible(s: State, calls: seq<Call>) returns (actions: seq<Action>)
    requires Quiet(s) && Proper(s.phase) && Allowed(s.phase, calls)
    requires s.capacity > 0 || NeedsNoRoom(calls)
    ensures Possible(s, actions) && Calls(s, actions) == calls
    decreases |calls|
  {
    hide Allowed;
    if calls == [] {
      actions := [];
    } else {
      var c := calls[0];
      FirstCallFits(s.phase, calls);
      var arrives := s.phase.Request? && c.ok;
      var t := if arrives then Read(Delivered(s)) else s;
      var a := Ends(t.phase, c);
      CallEnds(t, c);
      var rest := AllowedIsPossible(Step(t, a), calls[1..]);
      Prepend(t, a, rest);
      actions := [a] + rest;
      if arrives {
        actions := RequestArrives(s, actions);
      }
    }
  }

  /** Nothing has been sent, so nothing has been read. */
  predicate Starved(s: State) {
    s.capacity == 0 && !s.loop.Confirming? && Empty(s.up) && Empty(s.down) && s.phase != Request(true)
  }

  lemma {:induction false} StepStarves(s: State, a: Action)
    requires Starved(s) && Enabled(s, a)
    ensures Starved(Step(s, a)) && NeedsNoRoom(Finished(s, a))
  {
    hide Insert, TakeTurn, LaterAck;
  }

  lemma {:induction false} RunStarves(s: State, actions: seq<Action>)
    requires Starved(s) && Possible(s, actions)
    ensures NeedsNoRoom(Calls(s, actions))
    decreases |actions|
  {
    if actions != [] {
      StepStarves(s, actions[0]);
      RunStarves(Step(s, actions[0]), actions[1..]);
    }
  }

  /** For every size of the channels: a sequence of calls is made on some run if and only if it
      is one the text of `handle` allows and, without any room in the channels, no request in it
      can be read. */
  lemma {:induction false} CallsAreExactlyTheText(capacity: nat, calls: seq<Call>)
    ensures (exists actions :: Possible(Start(capacity), actions) && Calls(Start(capacity), actions) == calls) <==>
            HandlerCalls.Loop(calls) && (capacity > 0 || NeedsNoRoom(calls))
  {
    if actions :| Possible(Start(capacity), actions) && Calls(Start(capacity), actions) == calls {
      CallsFollowTheText(capacity, actions);
      if capacity == 0 {
        RunStarves(Start(capacity), actions);
      }
    }
    if HandlerCalls.Loop(calls) && (capacity > 0 || NeedsNoRoom(calls)) {
      var actions := AllowedIsPossible(Start(capacity), calls);
    }
  }
}
