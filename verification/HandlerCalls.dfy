/** The calls the HTTP handler makes, one after another, against the text of `handle`, and what
    holds once it has given up on a stream (httpdump/http_traffic_handler.go). */
module HandlerCalls {
  import opened Basics
  import opened Reassembly
  import opened BlockingProtocol

  /** A call of the handler that reads or closes a stream. */
  datatype What =
    | ReadRequest | ReadResponse | ReadSecondResponse
    | ReadRequestBody | ReadResponseBody | DiscardRequestBody
    | DiscardResponses | DiscardRequests | CloseDownStream | CloseUpStream

  /** A finished call: whether it succeeded, and its answer: for a request whether it expects
      "100-continue", for its response whether the status is 100. */
  datatype Call = Call(what: What, ok: bool, answer: bool)

  function Doing(phase: Phase): Option<What> {
    match phase
    case Request(_) => Some(ReadRequest)
    case Response(_) => Some(ReadResponse)
    case ContinuedResponse => Some(ReadSecondResponse)
    case ReportRequest(_) => Some(ReadRequestBody)
    case ReportResponse(_) => Some(ReadResponseBody)
    case DiscardBody(_) => Some(DiscardRequestBody)
    case DrainDown => Some(DiscardResponses)
    case DrainUp => Some(DiscardRequests)
    case CloseDown => Some(CloseDownStream)
    case CloseUp => Some(CloseUpStream)
    case Done => None
  }

  /** The call an action finishes, if it finishes one. */
  function Finished(s: State, a: Action): seq<Call> {
    if a.ByLoop? || Doing(s.phase).None? then []
    else match a.handlerAction
      case EndOfFile(ok, answer) => [Call(Doing(s.phase).value, ok, answer)]
      case EndCall(ok, answer) => [Call(Doing(s.phase).value, ok, answer)]
      case CloseStream => [Call(Doing(s.phase).value, true, false)]
      case _ => []
  }

  function Calls(s: State, actions: seq<Action>): seq<Call>
    requires Possible(s, actions)
    decreases |actions|
  {
    if actions == [] then [] else Finished(s, actions[0]) + Calls(Step(s, actions[0]), actions[1..])
  }

  // ---- The text of `handle`, as the order of calls it allows

  predicate Next(calls: seq<Call>, what: What) {
    calls != [] && calls[0].what == what
  }

  /** The loop: read a request, or leave. */
  predicate Loop(calls: seq<Call>)
    decreases |calls|, 0
  {
    calls == [] || (Next(calls, ReadRequest) &&
                    if calls[0].ok then Exchange(calls[1..], calls[0].answer) else Leave(calls[1..]))
  }

  /** Read the response; without one, report the request alone, discard its body and leave. */
  predicate Exchange(calls: seq<Call>, expectContinue: bool)
    decreases |calls|, 0
  {
    calls == [] || (Next(calls, ReadResponse) &&
                    if calls[0].ok then Report(calls[1..], true, expectContinue && calls[0].answer)
                    else ReportAlone(calls[1..]))
  }

  /** `report` with a response: a request body that cannot be read ends it early, and a response
      body that cannot be read does not matter. The first report of an exchange is followed by
      the discarding of the request's body and by a second response where one was announced. */
  predicate Report(calls: seq<Call>, first: bool, continued: bool)
    decreases |calls|, 0
  {
    calls == [] || (Next(calls, ReadRequestBody) &&
                    if calls[0].ok
                    then calls[1..] == [] ||
                         (Next(calls[1..], ReadResponseBody) && Reported(calls[2..], first, continued))
                    else Reported(calls[1..], first, continued))
  }

  predicate Reported(calls: seq<Call>, first: bool, continued: bool)
    decreases |calls|, 1
  {
    if first then
      calls == [] || (Next(calls, DiscardRequestBody) && if continued then Second(calls[1..]) else Loop(calls[1..]))
    else Loop(calls)
  }

  predicate Second(calls: seq<Call>)
    decreases |calls|, 0
  {
    calls == [] || (Next(calls, ReadSecondResponse) &&
                    if calls[0].ok then Report(calls[1..], false, false) else ReportAlone(calls[1..]))
  }

  predicate ReportAlone(calls: seq<Call>)
    decreases |calls|, 0
  {
    calls == [] || (Next(calls, ReadRequestBody) && DiscardAndLeave(calls[1..]))
  }

  predicate DiscardAndLeave(calls: seq<Call>)
    decreases |calls|, 0
  {
    calls == [] || (Next(calls, DiscardRequestBody) && Leave(calls[1..]))
  }

  /** The deferred calls, the last one deferred first. */
  predicate Leave(calls: seq<Call>) {
    && |calls| <= 4
    && (|calls| > 0 ==> calls[0].what == DiscardResponses)
    && (|calls| > 1 ==> calls[1].what == DiscardRequests)
    && (|calls| > 2 ==> calls[2] == Call(CloseDownStream, true, false))
    && (|calls| > 3 ==> calls[3] == Call(CloseUpStream, true, false))
  }

  /** What the text allows from a phase on. */
  predicate Allowed(phase: Phase, calls: seq<Call>) {
    match phase
    case Request(_) => Loop(calls)
    case Response(expectContinue) => Exchange(calls, expectContinue)
    case ContinuedResponse => Second(calls)
    case ReportRequest(why) =>
      (match why
       case First(again) => Report(calls, true, again)
       case NoResponse => ReportAlone(calls)
       case Second => Report(calls, false, false))
    case ReportResponse(why) =>
      calls == [] ||
      (Next(calls, ReadResponseBody) &&
       match why
       case First(again) => Reported(calls[1..], true, again)
       case NoResponse => false
       case Second => Reported(calls[1..], false, false))
    case DiscardBody(why) =>
      (match why
       case First(again) => Reported(calls, true, again)
       case NoResponse => DiscardAndLeave(calls)
       case Second => true)
    case DrainDown => Leave(calls)
    case DrainUp => |calls| <= 3 && Leave([Call(DiscardResponses, false, false)] + calls)
    case CloseDown =>
      |calls| <= 2 && Leave([Call(DiscardResponses, false, false), Call(DiscardRequests, false, false)] + calls)
    case CloseUp => calls == [] || calls == [Call(CloseUpStream, true, false)]
    case Done => calls == []
  }

  /** The phases that occur: a second report is not followed by a discarded body, and a report
      without a response reads none. */
  predicate Proper(phase: Phase) {
    && (phase.DiscardBody? ==> !phase.why.Second?)
    && (phase.ReportResponse? ==> !phase.why.NoResponse?)
  }

  lemma {:induction false} StepKeepsProper(s: State, a: Action)
    requires Proper(s.phase) && Enabled(s, a)
    ensures Proper(Step(s, a).phase)
    ensures Finished(s, a) == [] ==> forall calls :: Allowed(Step(s, a).phase, calls) ==> Allowed(s.phase, calls)
  {
  }

  lemma {:induction false} CallIsAllowed(s: State, a: Action, calls: seq<Call>)
    requires Proper(s.phase) && Enabled(s, a) && Finished(s, a) != []
    requires Allowed(Step(s, a).phase, calls)
    ensures Allowed(s.phase, Finished(s, a) + calls)
  {
    var c := Finished(s, a)[0];
    assert Step(s, a).phase == Conclude(s.phase, c.ok, c.answer) && Finished(s, a) == [c];
    hide Allowed, Step, Enabled;
    ConclusionIsAllowed(s.phase, c, calls);
  }

  lemma {:induction false} ConclusionIsAllowed(phase: Phase, c: Call, calls: seq<Call>)
    requires Proper(phase) && Doing(phase) == Some(c.what) && (phase.CloseDown? || phase.CloseUp? ==> c.ok && !c.answer)
    requires Allowed(Conclude(phase, c.ok, c.answer), calls)
    ensures Allowed(phase, [c] + calls)
  {
    var all := [c] + calls;
    assert all[0] == c && all[1..] == calls;
    match phase
    case ReportRequest(why) => ReportGoesOn(c, calls, why);
    case _ =>
  }

  lemma {:induction false} ReportGoesOn(c: Call, calls: seq<Call>, why: Why)
    requires c.what == ReadRequestBody
    requires Allowed(if c.ok && !why.NoResponse? then ReportResponse(why) else AfterReport(why), calls)
    ensures Allowed(ReportRequest(why), [c] + calls)
  {
    var all := [c] + calls;
    assert all[0] == c && all[1..] == calls;
    if c.ok && !why.NoResponse? && calls != [] {
      assert all[2..] == calls[1..];
    }
  }

  lemma {:induction false} CallsAreAllowed(s: State, actions: seq<Action>)
    requires Proper(s.phase) && Possible(s, actions)
    ensures Allowed(s.phase, Calls(s, actions)) && Proper(After(s, actions).phase)
    decreases |actions|
  {
    if actions != [] {
      var a := actions[0];
      var rest := Calls(Step(s, a), actions[1..]);
      StepKeepsProper(s, a);
      CallsAreAllowed(Step(s, a), actions[1..]);
      if Finished(s, a) == [] {
        assert [] + rest == rest;
      } else {
        CallIsAllowed(s, a, rest);
      }
      hide Allowed, Step, Finished, Enabled;
    }
  }

  /** On every run the handler's calls come in the order the text of `handle` prescribes,
      whatever the parser, the timers and the packet loop do. */
  lemma {:induction false} CallsFollowTheText(capacity: nat, actions: seq<Action>)
    requires Possible(Start(capacity), actions)
    ensures Loop(Calls(Start(capacity), actions))
  {
    CallsAreAllowed(Start(capacity), actions);
  }

  // ---- Leaving the loop

  /** One of the calls that read a request or a response has failed. */
  predicate Failed(calls: seq<Call>) {
    exists i :: 0 <= i < |calls| && !calls[i].ok &&
      (calls[i].what == ReadRequest || calls[i].what == ReadResponse || calls[i].what == ReadSecondResponse)
  }

  predicate Ending(phase: Phase) {
    phase.DrainDown? || phase.DrainUp? || phase.CloseDown? || phase.CloseUp? || phase.Done?
  }

  /** The handler has left its loop or is about to. */
  predicate Leaving(phase: Phase) {
    Ending(phase) || ((phase.ReportRequest? || phase.ReportResponse? || phase.DiscardBody?) && phase.why.NoResponse?)
  }

  lemma {:induction false} FailedConcat(a: seq<Call>, b: seq<Call>)
    ensures Failed(a + b) <==> Failed(a) || Failed(b)
  {
    if Failed(a) {
      var i :| 0 <= i < |a| && !a[i].ok &&
        (a[i].what == ReadRequest || a[i].what == ReadResponse || a[i].what == ReadSecondResponse);
      assert (a + b)[i] == a[i];
    }
    if Failed(b) {
      var i :| 0 <= i < |b| && !b[i].ok &&
        (b[i].what == ReadRequest || b[i].what == ReadResponse || b[i].what == ReadSecondResponse);
      assert (a + b)[|a| + i] == b[i];
    }
  }

  lemma {:induction false} StepLeaves(s: State, a: Action)
    requires Proper(s.phase) && Enabled(s, a)
    ensures Leaving(Step(s, a).phase) <==> Leaving(s.phase) || Failed(Finished(s, a))
  {
    if Finished(s, a) != [] {
      FailedOne(Finished(s, a)[0]);
      hide Failed;
    }
  }

  lemma {:induction false} FailedOne(c: Call)
    ensures Failed([c]) <==>
            !c.ok && (c.what == ReadRequest || c.what == ReadResponse || c.what == ReadSecondResponse)
  {
    assert [c][0] == c;
  }

  lemma {:induction false} RunLeaves(s: State, actions: seq<Action>)
    requires Proper(s.phase) && Possible(s, actions)
    ensures Leaving(After(s, actions).phase) <==> Leaving(s.phase) || Failed(Calls(s, actions))
    decreases |actions|
  {
    if actions != [] {
      var t := Step(s, actions[0]);
      StepKeepsProper(s, actions[0]);
      StepLeaves(s, actions[0]);
      RunLeaves(t, actions[1..]);
      FailedConcat(Finished(s, actions[0]), Calls(t, actions[1..]));
      hide Failed, Leaving, Step, Enabled, Finished, Proper;
    }
  }

  /** On every run the handler leaves its loop if and only if one of its calls that read a
      request or a response has failed; so it discards and closes its streams only then. An
      EOF inside a report does not make it leave. */
  lemma {:induction false} LeavesExactlyOnFailure(capacity: nat, actions: seq<Action>)
    requires Possible(Start(capacity), actions)
    ensures var phase, calls := After(Start(capacity), actions).phase, Calls(Start(capacity), actions);
            && (Leaving(phase) <==> Failed(calls))
            && (Ending(phase) ==> Failed(calls))
  {
    RunLeaves(Start(capacity), actions);
  }

  // ---- The second response

  /** The answer of the last call of its kind. */
  function Answer(calls: seq<Call>, what: What): bool {
    calls != [] &&
    if calls[|calls| - 1].what == what then calls[|calls| - 1].answer else Answer(calls[..|calls| - 1], what)
  }

  lemma {:induction false} AnswerLast(calls: seq<Call>, c: Call, what: What)
    ensures Answer(calls + [c], what) == if c.what == what then c.answer else Answer(calls, what)
  {
    assert (calls + [c])[..|calls|] == calls;
  }

  /** What the phase remembers is what the calls answered. */
  predicate Remembers(phase: Phase, calls: seq<Call>) {
    && (phase.Response? ==> phase.expectContinue == Answer(calls, ReadRequest))
    && ((phase.ReportRequest? || phase.ReportResponse? || phase.DiscardBody?) && phase.why.First? ==>
          phase.why.again == (Answer(calls, ReadRequest) && Answer(calls, ReadResponse)))
  }

  lemma {:induction false} StepRemembers(s: State, a: Action, calls: seq<Call>)
    requires Proper(s.phase) && Enabled(s, a) && Remembers(s.phase, calls)
    ensures Remembers(Step(s, a).phase, calls + Finished(s, a))
  {
    var finished := Finished(s, a);
    if finished == [] {
      assert calls + finished == calls;
    } else {
      var c := finished[0];
      assert Step(s, a).phase == Conclude(s.phase, c.ok, c.answer) && finished == [c];
      AnswerLast(calls, c, ReadRequest);
      AnswerLast(calls, c, ReadResponse);
      hide Answer, Step, Enabled, Finished;
    }
  }

  lemma {:induction false} RunRemembers(s: State, actions: seq<Action>, calls: seq<Call>)
    requires Proper(s.phase) && Possible(s, actions) && Remembers(s.phase, calls)
    ensures Remembers(After(s, actions).phase, calls + Calls(s, actions))
    decreases |actions|
  {
    if actions == [] {
      assert calls + [] == calls;
    } else {
      var a := actions[0];
      StepKeepsProper(s, a);
      StepRemembers(s, a, calls);
      RunRemembers(Step(s, a), actions[1..], calls + Finished(s, a));
      Regroup(calls, Finished(s, a), Calls(Step(s, a), actions[1..]));
      hide Remembers, Step, Finished, Enabled, Proper;
    }
  }

  /** After an exchange whose request and response could be read, and whose request body has been
      discarded, the handler reads a second response if the last request expected
      "100-continue" and the last response had status 100, and the next request otherwise. */
  lemma {:induction false} AfterTheExchange(capacity: nat, actions: seq<Action>, a: Action)
    requires Possible(Start(capacity), actions)
    requires var s := After(Start(capacity), actions);
             Enabled(s, a) && Finished(s, a) != [] && Finished(s, a)[0].what == DiscardRequestBody
    requires !Failed(Calls(Start(capacity), actions))
    ensures var calls := Calls(Start(capacity), actions);
            Doing(Step(After(Start(capacity), actions), a).phase) ==
            Some(if Answer(calls, ReadRequest) && Answer(calls, ReadResponse) then ReadSecondResponse else ReadRequest)
  {
    var s := Start(capacity);
    CallsAreAllowed(s, actions);
    RunLeaves(s, actions);
    RunRemembers(s, actions, []);
    assert [] + Calls(s, actions) == Calls(s, actions);
    GoesRound(After(s, actions), a, Calls(s, actions));
  }

  lemma {:induction false} GoesRound(s: State, a: Action, calls: seq<Call>)
    requires Proper(s.phase) && !Leaving(s.phase) && Remembers(s.phase, calls)
    requires Enabled(s, a) && Finished(s, a) != [] && Finished(s, a)[0].what == DiscardRequestBody
    ensures Doing(Step(s, a).phase) ==
            Some(if Answer(calls, ReadRequest) && Answer(calls, ReadResponse) then ReadSecondResponse else ReadRequest)
  {
    hide Answer;
  }

  // ---- What a call touches, and what is left when the handler has given up on a stream

  /** Calls for the request read and close the upstream, calls for the response the downstream. */
  lemma {:induction false} CallsKeepToTheirStream(s: State, a: HandlerAction)
    requires HandlerEnabled(s, a)
    ensures match Doing(s.phase)
            case Some(what) =>
              if what in {ReadRequest, ReadRequestBody, DiscardRequestBody, DiscardRequests, CloseUpStream}
              then HandlerStep(s, a).down == s.down else HandlerStep(s, a).up == s.up
            case None => HandlerStep(s, a) == s
  {
  }

  /** A stream that has been discarded was read up to an EOF, buffers included, and a stream that
      has been closed takes nothing more. */
  predicate Tidy(s: State) {
    && (forall side :: Discarded(s, side) ==>
          s.Get(side).eof && s.Get(side).remain == [] && s.Get(side).buffered == [])
    && (s.phase.CloseUp? || s.phase.Done? ==> s.down.ignore)
    && (s.phase.Done? ==> s.up.ignore)
  }

  lemma {:induction false} StepKeepsTidy(s: State, a: Action)
    requires Tidy(s) && Enabled(s, a)
    ensures Tidy(Step(s, a))
  {
    match a {
      case ByLoop(l) => LoopLeavesReader(s, l);
      case ByHandler(h) => HandlerKeepsTidy(s, h);
    }
    hide LoopStep, HandlerStep, LoopEnabled, HandlerEnabled;
  }

  lemma {:induction false} HandlerKeepsTidy(s: State, h: HandlerAction)
    requires Tidy(s) && HandlerEnabled(s, h)
    ensures Tidy(HandlerStep(s, h))
  {
    var t := HandlerStep(s, h);
    forall side | Discarded(t, side)
      ensures t.Get(side).eof && t.Get(side).remain == [] && t.Get(side).buffered == []
    {
      if Discarded(s, side) {
        DiscardedIsLeft(s, h, side);
      } else {
        DiscardEnds(s, h, side);
      }
    }
  }

  lemma {:induction false} DiscardedIsLeft(s: State, h: HandlerAction, side: Side)
    requires HandlerEnabled(s, h) && Discarded(s, side)
    ensures HandlerStep(s, h).Get(side) == s.Get(side).(ignore := HandlerStep(s, h).Get(side).ignore)
  {
  }

  lemma {:induction false} DiscardEnds(s: State, h: HandlerAction, side: Side)
    requires HandlerEnabled(s, h) && !Discarded(s, side) && Discarded(HandlerStep(s, h), side)
    ensures var p := HandlerStep(s, h).Get(side); p.eof && p.remain == [] && p.buffered == []
  {
  }

  lemma {:induction false} LoopLeavesReader(s: State, l: LoopAction)
    requires LoopEnabled(s, l)
    ensures var t := LoopStep(s, l);
            t.phase == s.phase && forall side ::
              && t.Get(side).eof == s.Get(side).eof && t.Get(side).remain == s.Get(side).remain
              && t.Get(side).buffered == s.Get(side).buffered && (s.Get(side).ignore ==> t.Get(side).ignore)
  {
    hide Insert, TakeTurn, LaterAck;
  }

  lemma {:induction false} RunKeepsTidy(s: State, actions: seq<Action>)
    requires Tidy(s) && Possible(s, actions)
    ensures Tidy(After(s, actions))
    decreases |actions|
  {
    if actions != [] {
      StepKeepsTidy(s, actions[0]);
      RunKeepsTidy(Step(s, actions[0]), actions[1..]);
    }
  }

  /** In every reachable state: once the handler has discarded a stream, `Read` has reported EOF
      on it and nothing it had handed out is left unread; the handler ends with both streams
      closed, the downstream first. */
  lemma {:induction false} DiscardsToTheEnd(capacity: nat, actions: seq<Action>)
    requires Possible(Start(capacity), actions)
    ensures Tidy(After(Start(capacity), actions))
  {
    RunKeepsTidy(Start(capacity), actions);
  }

  // ---- Streams that are off stay off

  /** The action switches the stream off: the loop gives up on it for want of space, `Read`
      simulates or meets an EOF on it, or the handler closes it. */
  predicate SwitchesOff(s: State, a: Action, side: Side) {
    match a
    case ByLoop(l) => l == Abandon(side)
    case ByHandler(h) =>
      match Doing(s.phase)
      case None => false
      case Some(what) =>
        if what == CloseUpStream then side.Up?
        else if what == CloseDownStream then side.Down?
        else
          && (h.EndOfFile? || h.EndOfFileHeld?)
          && side == if what in {ReadRequest, ReadRequestBody, DiscardRequestBody, DiscardRequests} then Up else Down
  }

  lemma {:induction false} OffStays(s: State, actions: seq<Action>, side: Side)
    requires (s.Get(side).ignore || s.Get(side).eof) && Possible(s, actions)
    ensures After(s, actions).Get(side).log == s.Get(side).log
    decreases |actions|
  {
    if actions != [] {
      StepStaysOff(s, actions[0], side);
      OffStays(Step(s, actions[0]), actions[1..], side);
    }
  }

  lemma {:induction false} StepStaysOff(s: State, a: Action, side: Side)
    requires (s.Get(side).ignore || s.Get(side).eof) && Enabled(s, a)
    ensures var p, q := s.Get(side), Step(s, a).Get(side); (q.ignore || q.eof) && q.log == p.log
  {
    hide Insert, TakeTurn, LaterAck;
  }

  lemma {:induction false} StepSwitchesOff(s: State, a: Action, side: Side)
    requires Enabled(s, a) && SwitchesOff(s, a, side)
    ensures var p, q := s.Get(side), Step(s, a).Get(side); (q.ignore || q.eof) && q.log == p.log
  {
    hide Insert, TakeTurn, LaterAck;
  }

  /** Once a stream has been given up on, has reported EOF or has been closed, no segment is
      appended to it and no acknowledgement begun for it ever again. */
  lemma {:induction false} SwitchedOffForGood(s: State, a: Action, actions: seq<Action>, side: Side)
    requires Enabled(s, a) && SwitchesOff(s, a, side) && Possible(Step(s, a), actions)
    ensures After(Step(s, a), actions).Get(side).log == s.Get(side).log
  {
    StepSwitchesOff(s, a, side);
    OffStays(Step(s, a), actions, side);
  }

  // ---- The waiting of `Read`, as steps of the protocol

  function Retries(n: nat): (actions: seq<Action>)
    ensures |actions| == n
  {
    if n == 0 then [] else [ByHandler(Retry)] + Retries(n - 1)
  }

  lemma {:induction false} RetriesStay(s: State, n: nat)
    requires n > 0 ==> HandlerEnabled(s, Retry)
    ensures Possible(s, Retries(n)) && After(s, Retries(n)) == s
  {
    if n > 0 {
      RetriesStay(s, n - 1);
      assert Retries(n)[1..] == Retries(n - 1);
    }
  }

  /** Nothing remains, and `expiries` are the timer expiries chosen before the channel is looked
      at. The protocol lets `Read` do what `Refill` does: with a full opposite channel the first
      expiry ends it, for waiting again is not possible; with room there it waits again at every
      expiry up to the first one that finds the stream inactive, which ends it; and if none
      does, it takes a packet if there is one. What `bufio` holds by then the parser may still
      consume, except while discarding. */
  lemma {:induction false} ReadsAsTheProtocolAllows(s: State, side: Side, expiries: seq<bool>)
    requires Reads(s.phase) == Some(side) && s.Get(side).remain == []
    ensures HandlerEnabled(s, Retry) <==> |s.Get(side.Other()).queue| < s.capacity
    ensures |s.Get(side.Other()).queue| < s.capacity ==>
              forall n :: 0 <= n <= |expiries| ==> Possible(s, Retries(n)) && After(s, Retries(n)) == s
    ensures HandlerEnabled(s, Receive) <==> s.Get(side).queue != []
    ensures s.Get(side).buffered == [] ==>
              HandlerEnabled(s, EndOfFile(false, false)) && HandlerStep(s, EndOfFile(false, false)).Get(side).eof
    ensures s.phase != DrainDown && s.phase != DrainUp ==>
              forall n :: 0 < n <= |s.Get(side).buffered| ==>
                HandlerEnabled(s, EndOfFileHeld(n)) && HandlerStep(s, EndOfFileHeld(n)).Get(side).eof
  {
    if |s.Get(side.Other()).queue| < s.capacity {
      forall n | 0 <= n <= |expiries| ensures Possible(s, Retries(n)) && After(s, Retries(n)) == s {
        RetriesStay(s, n);
      }
    }
  }
}
