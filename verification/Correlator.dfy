/** Pairing requests with responses, one pending request per TCP stream
    (tshark/correlator/processor.go). */
module Correlator {
  import opened Basics

  /** The number tshark gives a TCP stream. */
  datatype StreamId = StreamId(number: int)

  datatype HttpRequest = HttpRequest(stream: StreamId, time: int, content: string)
  datatype HttpResponse = HttpResponse(stream: StreamId, content: string)
  datatype Transaction = Transaction(request: HttpRequest, response: Option<HttpResponse>)

  datatype Entry = ARequest(request: HttpRequest) | AResponse(response: HttpResponse)

  type Pending = map<StreamId, HttpRequest>

  // ---- One event against the whole map

  /** An entry from the capture, or a timer tick at `now` on which the map is iterated in the
      given order of its keys. */
  datatype Event = Arrived(entry: Entry) | Tick(now: int, order: seq<StreamId>)

  /** An order of iteration: every key once. */
  predicate Enumerates(order: seq<StreamId>, pending: Pending) {
    && (forall s :: s in order ==> s in pending)
    && (forall s :: s in pending ==> s in order)
    && forall i, j :: 0 <= i < j < |order| ==> order[i] != order[j]
  }

  predicate Expired(request: HttpRequest, now: int, timeout: int) {
    now - request.time > timeout
  }

  function ExpiredStreams(order: seq<StreamId>, pending: Pending, now: int, timeout: int): (expired: seq<StreamId>)
    requires forall s :: s in order ==> s in pending
    ensures forall s :: s in expired <==> s in order && Expired(pending[s], now, timeout)
  {
    if order == [] then []
    else
      (if Expired(pending[order[0]], now, timeout) then [order[0]] else [])
      + ExpiredStreams(order[1..], pending, now, timeout)
  }

  /** The requests of the listed streams, each as a transaction without a response. */
  function Unanswered(streams: seq<StreamId>, pending: Pending): seq<Transaction>
    requires forall s :: s in streams ==> s in pending
  {
    if streams == [] then []
    else
      [Transaction(pending[streams[0]], None)] + Unanswered(streams[1..], pending)
  }

  function Without(pending: Pending, streams: seq<StreamId>): Pending {
    map s | s in pending && s !in streams :: pending[s]
  }

  predicate Proper(pending: Pending, e: Event) {
    e.Tick? ==> Enumerates(e.order, pending)
  }

  function Step(pending: Pending, e: Event, timeout: int): (Pending, seq<Transaction>)
    requires Proper(pending, e)
  {
    match e
    case Arrived(ARequest(request)) => (pending[request.stream := request], [])
    case Arrived(AResponse(response)) =>
      if response.stream !in pending then (pending, [])
      else (pending - {response.stream}, [Transaction(pending[response.stream], Some(response))])
    case Tick(now, order) =>
      var expired := ExpiredStreams(order, pending, now, timeout);
      (Without(pending, expired), Unanswered(expired, pending))
  }

  // ---- The processor

  class Processor {
    var requests: Pending
    /** What has been handed to the next processor, in order. */
    var output: seq<Transaction>
    const timeout: int

    constructor (timeout: int)
      ensures requests == map[] && output == [] && this.timeout == timeout
    {
      this.timeout := timeout;
      requests, output := map[], [];
    }

    method UpdateEntry(entry: Entry)
      modifies this
      ensures (requests, output) ==
              (var (p, out) := Step(old(requests), Arrived(entry), timeout); (p, old(output) + out))
    {
      match entry
      case ARequest(request) =>
        UpdateRequest(request);
        assert output + [] == output;
      case AResponse(response) => UpdateResponse(response);
    }

    method UpdateRequest(request: HttpRequest)
      modifies this
      ensures requests == old(requests)[request.stream := request] && output == old(output)
    {
      requests := requests[request.stream := request];
    }

    method UpdateResponse(response: HttpResponse)
      modifies this
      ensures (requests, output) ==
              (var (p, out) := Step(old(requests), Arrived(AResponse(response)), timeout); (p, old(output) + out))
    {
      if response.stream !in requests {
        assert output + [] == output;
        return;
      }
      var transaction := Transaction(requests[response.stream], Some(response));
      requests := requests - {response.stream};
      output := output + [transaction];
    }

    /** A tick: the map is iterated in some order, which is returned, and everything overdue
        leaves it. */
    method CheckTimeouts(now: int) returns (ghost order: seq<StreamId>)
      modifies this
      ensures Enumerates(order, old(requests))
      ensures (requests, output) ==
              (var (p, out) := Step(old(requests), Tick(now, order), timeout); (p, old(output) + out))
    {
      var expired;
      expired, order := CollectExpired(now);
      ExpiredDistinct(order, requests, now, timeout);
      EmitExpired(expired);
    }

    method CollectExpired(now: int) returns (expired: seq<StreamId>, ghost order: seq<StreamId>)
      ensures Enumerates(order, requests) && expired == ExpiredStreams(order, requests, now, timeout)
    {
      expired, order := [], [];
      var keys := requests.Keys;
      while keys != {}
        invariant keys <= requests.Keys
        invariant forall s :: s in order <==> s in requests && s !in keys
        invariant Distinct(order)
        invariant expired == ExpiredStreams(order, requests, now, timeout)
      {
        var stream :| stream in keys;
        keys := keys - {stream};
        ExpiredConcat(order, stream, requests, now, timeout);
        if now - requests[stream].time > timeout {
          expired := expired + [stream];
        }
        order := order + [stream];
      }
    }

    method EmitExpired(expired: seq<StreamId>)
      requires Distinct(expired) && forall s :: s in expired ==> s in requests
      modifies this
      ensures requests == Without(old(requests), expired)
      ensures output == old(output) + Unanswered(expired, old(requests))
    {
      ghost var pending := requests;
      var i := 0;
      assert expired[0..] == expired;
      while i < |expired|
        invariant 0 <= i <= |expired|
        invariant forall s :: s in requests <==> s in pending && s !in expired[..i]
        invariant forall s :: s in requests ==> requests[s] == pending[s]
        invariant forall s :: s in expired[i..] ==> s in pending
        invariant output + Unanswered(expired[i..], pending) == old(output) + Unanswered(expired, pending)
      {
        var stream := expired[i];
        assert expired[..i + 1] == expired[..i] + [stream];
        assert expired[i..][1..] == expired[i + 1..];
        assert stream in requests;
        var request := requests[stream];
        Regroup(output, [Transaction(request, None)], Unanswered(expired[i + 1..], pending));
        requests := requests - {stream};
        output := output + [Transaction(request, None)];
        i := i + 1;
      }
      assert expired[..i] == expired && expired[i..] == [];
      assert output + [] == output;
    }
  }

  lemma {:induction false} ExpiredConcat(order: seq<StreamId>, s: StreamId, pending: Pending, now: int, timeout: int)
    requires s in pending && forall t :: t in order ==> t in pending
    ensures ExpiredStreams(order + [s], pending, now, timeout) ==
            ExpiredStreams(order, pending, now, timeout) + (if Expired(pending[s], now, timeout) then [s] else [])
  {
    if order == [] {
      assert [] + [s] == [s] && [s][1..] == [];
    } else {
      assert (order + [s])[1..] == order[1..] + [s];
      ExpiredConcat(order[1..], s, pending, now, timeout);
      Regroup(if Expired(pending[order[0]], now, timeout) then [order[0]] else [],
              ExpiredStreams(order[1..], pending, now, timeout), if Expired(pending[s], now, timeout) then [s] else []);
      hide Expired;
    }
  }

  predicate Distinct(streams: seq<StreamId>) {
    forall i, j :: 0 <= i < j < |streams| ==> streams[i] != streams[j]
  }

  lemma {:induction false} ExpiredDistinct(order: seq<StreamId>, pending: Pending, now: int, timeout: int)
    requires (forall s :: s in order ==> s in pending) && Distinct(order)
    ensures Distinct(ExpiredStreams(order, pending, now, timeout))
  {
    if order != [] {
      ExpiredDistinct(order[1..], pending, now, timeout);
      assert order[0] !in order[1..];
    }
  }

  // ---- Whole runs

  predicate Possible(pending: Pending, events: seq<Event>, timeout: int)
    decreases |events|
  {
    events == [] ||
    (Proper(pending, events[0]) && Possible(Step(pending, events[0], timeout).0, events[1..], timeout))
  }

  function Run(pending: Pending, events: seq<Event>, timeout: int): (Pending, seq<Transaction>)
    requires Possible(pending, events, timeout)
    decreases |events|
  {
    if events == [] then (pending, []) else
      var (p1, out) := Step(pending, events[0], timeout);
      var (p2, more) := Run(p1, events[1..], timeout);
      (p2, out + more)
  }

  // ---- One stream alone

  datatype SlotEvent = Asked(request: HttpRequest) | Answered(response: HttpResponse) | Ticked(now: int)

  function SlotStep(slot: Option<HttpRequest>, e: SlotEvent, timeout: int): (Option<HttpRequest>, seq<Transaction>) {
    match e
    case Asked(request) => (Some(request), [])
    case Answered(response) =>
      if slot.None? then (None, []) else (None, [Transaction(slot.value, Some(response))])
    case Ticked(now) =>
      if slot.Some? && Expired(slot.value, now, timeout) then (None, [Transaction(slot.value, None)]) else (slot, [])
  }

  function SlotRun(slot: Option<HttpRequest>, events: seq<SlotEvent>, timeout: int)
    : (Option<HttpRequest>, seq<Transaction>)
    decreases |events|
  {
    if events == [] then (slot, []) else
      var (s1, out) := SlotStep(slot, events[0], timeout);
      var (s2, more) := SlotRun(s1, events[1..], timeout);
      (s2, out + more)
  }

  /** The events a stream takes part in: its own entries and every tick. */
  function Share(e: Event, stream: StreamId): seq<SlotEvent> {
    match e
    case Arrived(ARequest(request)) => if request.stream == stream then [Asked(request)] else []
    case Arrived(AResponse(response)) => if response.stream == stream then [Answered(response)] else []
    case Tick(now, _) => [Ticked(now)]
  }

  function Shares(events: seq<Event>, stream: StreamId): seq<SlotEvent> {
    if events == [] then [] else Share(events[0], stream) + Shares(events[1..], stream)
  }

  function OfStream(transactions: seq<Transaction>, stream: StreamId): seq<Transaction> {
    if transactions == [] then []
    else
      (if transactions[0].request.stream == stream then [transactions[0]] else [])
      + OfStream(transactions[1..], stream)
  }

  function Slot(pending: Pending, stream: StreamId): Option<HttpRequest> {
    if stream in pending then Some(pending[stream]) else None
  }

  /** Requests are filed under their own stream. */
  ghost predicate Filed(pending: Pending) {
    forall s :: s in pending ==> pending[s].stream == s
  }

  lemma {:induction false} OfStreamConcat(a: seq<Transaction>, b: seq<Transaction>, stream: StreamId)
    ensures OfStream(a + b, stream) == OfStream(a, stream) + OfStream(b, stream)
  {
    if a == [] {
      assert a + b == b;
    } else {
      assert (a + b)[1..] == a[1..] + b;
      OfStreamConcat(a[1..], b, stream);
    }
  }

  lemma {:induction false} UnansweredOfStream(streams: seq<StreamId>, pending: Pending, stream: StreamId)
    requires Filed(pending) && Distinct(streams) && forall s :: s in streams ==> s in pending
    ensures OfStream(Unanswered(streams, pending), stream) ==
            if stream in streams then [Transaction(pending[stream], None)] else []
  {
    if streams != [] {
      UnansweredOfStream(streams[1..], pending, stream);
      var t := Transaction(pending[streams[0]], None);
      OfStreamConcat([t], Unanswered(streams[1..], pending), stream);
      assert [t][1..] == [];
      assert streams[0] !in streams[1..];
    }
  }

  lemma {:induction false} StepProjects(pending: Pending, e: Event, timeout: int, stream: StreamId)
    requires Filed(pending) && Proper(pending, e)
    ensures var (p, out) := Step(pending, e, timeout);
            && Filed(p)
            && (Slot(p, stream), OfStream(out, stream)) == SlotRun(Slot(pending, stream), Share(e, stream), timeout)
  {
    var slot := Slot(pending, stream);
    forall x: SlotEvent ensures SlotRun(slot, [x], timeout) == SlotStep(slot, x, timeout) {
      var (s1, out) := SlotStep(slot, x, timeout);
      assert [x][1..] == [];
      assert SlotRun(s1, [], timeout) == (s1, []);
      assert out + [] == out;
    }
    match e
    case Arrived(_) =>
    case Tick(now, order) =>
      ExpiredDistinct(order, pending, now, timeout);
      UnansweredOfStream(ExpiredStreams(order, pending, now, timeout), pending, stream);
  }

  lemma {:induction false} SlotRunConcat(slot: Option<HttpRequest>, a: seq<SlotEvent>, b: seq<SlotEvent>, timeout: int)
    ensures var (s1, out) := SlotRun(slot, a, timeout);
            var (s2, more) := SlotRun(s1, b, timeout);
            SlotRun(slot, a + b, timeout) == (s2, out + more)
    decreases |a|
  {
    if a == [] {
      assert a + b == b;
      var more := SlotRun(slot, b, timeout).1;
      assert [] + more == more;
    } else {
      assert (a + b)[1..] == a[1..] + b;
      var (s1, out) := SlotStep(slot, a[0], timeout);
      SlotRunConcat(s1, a[1..], b, timeout);
      var (s2, mid) := SlotRun(s1, a[1..], timeout);
      var more := SlotRun(s2, b, timeout).1;
      assert out + (mid + more) == (out + mid) + more;
    }
  }

  /** For every interleaving of entries and ticks of any number of streams, and every order in
      which the map is iterated, the transactions emitted for a stream and what stays pending
      for it are those of a one-slot automaton that sees only that stream and the ticks. */
  lemma {:induction false} StreamsAreIndependent(pending: Pending, events: seq<Event>, timeout: int, stream: StreamId)
    requires Filed(pending) && Possible(pending, events, timeout)
    ensures var (p, out) := Run(pending, events, timeout);
            (Slot(p, stream), OfStream(out, stream)) == SlotRun(Slot(pending, stream), Shares(events, stream), timeout)
    decreases |events|
  {
    if events != [] {
      var (p1, out) := Step(pending, events[0], timeout);
      var more := Run(p1, events[1..], timeout).1;
      StepProjects(pending, events[0], timeout, stream);
      StreamsAreIndependent(p1, events[1..], timeout, stream);
      OfStreamConcat(out, more, stream);
      SlotRunConcat(Slot(pending, stream), Share(events[0], stream), Shares(events[1..], stream), timeout);
    }
  }

  // ---- Exactly once

  /** The fates of a stream's requests, in the order they are decided. */
  datatype Fate = Replied(request: HttpRequest, response: HttpResponse)
                | TimedOut(request: HttpRequest, now: int)
                | Replaced(request: HttpRequest)

  function FateOf(slot: Option<HttpRequest>, e: SlotEvent, timeout: int): seq<Fate> {
    if slot.None? then [] else
    match e
    case Asked(_) => [Replaced(slot.value)]
    case Answered(response) => [Replied(slot.value, response)]
    case Ticked(now) => if Expired(slot.value, now, timeout) then [TimedOut(slot.value, now)] else []
  }

  function Fates(slot: Option<HttpRequest>, events: seq<SlotEvent>, timeout: int): seq<Fate>
    decreases |events|
  {
    if events == [] then []
    else FateOf(slot, events[0], timeout) + Fates(SlotStep(slot, events[0], timeout).0, events[1..], timeout)
  }

  function Requests(events: seq<SlotEvent>): seq<HttpRequest> {
    if events == [] then []
    else (if events[0].Asked? then [events[0].request] else []) + Requests(events[1..])
  }

  function Decided(fates: seq<Fate>): seq<HttpRequest> {
    if fates == [] then [] else [fates[0].request] + Decided(fates[1..])
  }

  /** The transactions the fates give rise to: none for a replaced request. */
  function Emitted(fates: seq<Fate>): seq<Transaction> {
    if fates == [] then []
    else
      (match fates[0]
       case Replied(request, response) => [Transaction(request, Some(response))]
       case TimedOut(request, _) => [Transaction(request, None)]
       case Replaced(_) => [])
      + Emitted(fates[1..])
  }

  function Waiting(slot: Option<HttpRequest>): seq<HttpRequest> {
    if slot.None? then [] else [slot.value]
  }

  lemma {:induction false} FatesAccount(slot: Option<HttpRequest>, events: seq<SlotEvent>, timeout: int)
    ensures var (slot', out) := SlotRun(slot, events, timeout);
            var fates := Fates(slot, events, timeout);
            && Waiting(slot) + Requests(events) == Decided(fates) + Waiting(slot')
            && out == Emitted(fates)
            && forall i :: 0 <= i < |fates| && fates[i].TimedOut? ==> fates[i].now - fates[i].request.time > timeout
    decreases |events|
  {
    if events != [] {
      var (s1, out) := SlotStep(slot, events[0], timeout);
      FatesAccount(s1, events[1..], timeout);
      var fate := FateOf(slot, events[0], timeout);
      var tail := Fates(s1, events[1..], timeout);
      var asked := if events[0].Asked? then [events[0].request] else [];
      FirstFate(fate, tail);
      assert Waiting(slot) + asked == Decided(fate) + Waiting(s1);
      Regroup(Waiting(slot), asked, Requests(events[1..]));
      Regroup(Decided(fate), Waiting(s1), Requests(events[1..]));
      Regroup(Decided(fate), Decided(tail), Waiting(SlotRun(slot, events, timeout).0));
    }
  }

  lemma {:induction false} FirstFate(fate: seq<Fate>, tail: seq<Fate>)
    requires |fate| <= 1
    ensures Decided(fate + tail) == Decided(fate) + Decided(tail)
    ensures Emitted(fate + tail) == Emitted(fate) + Emitted(tail)
  {
    if fate == [] {
      assert fate + tail == tail;
    } else {
      assert (fate + tail)[0] == fate[0] && (fate + tail)[1..] == tail && fate[1..] == [];
    }
  }

  // ---- What a fate means in the events

  /** The event decides the fate of a pending request: a later request replaces it, a response
      answers it, a tick ends it once it is overdue. */
  predicate Decides(request: HttpRequest, e: SlotEvent, timeout: int) {
    e.Ticked? ==> Expired(request, e.now, timeout)
  }

  function FateBy(request: HttpRequest, e: SlotEvent): Fate {
    match e
    case Asked(_) => Replaced(request)
    case Answered(response) => Replied(request, response)
    case Ticked(now) => TimedOut(request, now)
  }

  /** The fate of a request, given the events after it: none while nothing decides it. */
  function FateAfter(request: HttpRequest, events: seq<SlotEvent>, timeout: int): seq<Fate> {
    if events == [] then []
    else if Decides(request, events[0], timeout) then [FateBy(request, events[0])]
    else FateAfter(request, events[1..], timeout)
  }

  /** Each request received, in order, with the fate that the events after it decide. */
  function FateOfEach(events: seq<SlotEvent>, timeout: int): seq<Fate> {
    if events == [] then []
    else
      (if events[0].Asked? then FateAfter(events[0].request, events[1..], timeout) else [])
      + FateOfEach(events[1..], timeout)
  }

  /** A request's fate is decided by the first event after it that is a request, a response or a
      tick at which it is overdue, and by nothing else. */
  lemma {:induction false} FateIsFirstDecision(request: HttpRequest, events: seq<SlotEvent>, timeout: int, fate: Fate)
    ensures FateAfter(request, events, timeout) == [fate] <==>
            exists k :: 0 <= k < |events| && Decides(request, events[k], timeout) && fate == FateBy(request, events[k])
                        && forall j :: 0 <= j < k ==> !Decides(request, events[j], timeout)
    ensures FateAfter(request, events, timeout) == [] <==>
            forall j :: 0 <= j < |events| ==> !Decides(request, events[j], timeout)
  {
    if events != [] && !Decides(request, events[0], timeout) {
      var rest := events[1..];
      FateIsFirstDecision(request, rest, timeout, fate);
      if FateAfter(request, rest, timeout) == [fate] {
        var k :| 0 <= k < |rest| && Decides(request, rest[k], timeout) && fate == FateBy(request, rest[k])
                 && forall j :: 0 <= j < k ==> !Decides(request, rest[j], timeout);
        assert Decides(request, events[k + 1], timeout) && fate == FateBy(request, events[k + 1]);
        forall j | 0 <= j < k + 1 ensures !Decides(request, events[j], timeout) {
          assert j > 0 ==> events[j] == rest[j - 1];
        }
      }
      if k :| 0 <= k < |events| && Decides(request, events[k], timeout) && fate == FateBy(request, events[k])
              && forall j :: 0 <= j < k ==> !Decides(request, events[j], timeout) {
        assert rest[k - 1] == events[k];
        forall j | 0 <= j < k - 1 ensures !Decides(request, rest[j], timeout) {
          assert rest[j] == events[j + 1];
        }
      }
      if FateAfter(request, rest, timeout) == [] {
        forall j | 0 <= j < |events| ensures !Decides(request, events[j], timeout) {
          assert j > 0 ==> events[j] == rest[j - 1];
        }
      } else {
        var j :| 0 <= j < |rest| && Decides(request, rest[j], timeout);
        assert Decides(request, events[j + 1], timeout);
      }
    } else if events != [] {
      assert Decides(request, events[0], timeout);
    }
  }

  /** The fates of the slot are those of each request: the one pending first, then the others. */
  lemma {:induction false} FatesAreOfEach(slot: Option<HttpRequest>, events: seq<SlotEvent>, timeout: int)
    ensures Fates(slot, events, timeout) ==
            (if slot.Some? then FateAfter(slot.value, events, timeout) else []) + FateOfEach(events, timeout)
    decreases |events|
  {
    if events != [] {
      var e, rest := events[0], events[1..];
      var slot' := SlotStep(slot, e, timeout).0;
      FatesAreOfEach(slot', rest, timeout);
      Regroup(FateOf(slot, e, timeout), if slot'.Some? then FateAfter(slot'.value, rest, timeout) else [],
              FateOfEach(rest, timeout));
      assert [] + FateOfEach(rest, timeout) == FateOfEach(rest, timeout);
    }
  }

  /** Exactly once: in the order they were received, every request of a stream has the fate that
      the stream's later events and the ticks decide first (a response, the timeout, a later
      request) or is still pending if none does; and what is emitted for the stream is what
      those fates say, no more and no less. */
  lemma {:induction false} EveryRequestOnce(events: seq<Event>, timeout: int,
                                            stream: StreamId) returns (fates: seq<Fate>)
    requires Possible(map[], events, timeout)
    ensures fates == FateOfEach(Shares(events, stream), timeout)
    ensures var (pending, out) := Run(map[], events, timeout);
            && Requests(Shares(events, stream)) == Decided(fates) + Waiting(Slot(pending, stream))
            && OfStream(out, stream) == Emitted(fates)
    ensures OwnFates(fates, stream)
    ensures forall i :: 0 <= i < |fates| && fates[i].TimedOut? ==> fates[i].now - fates[i].request.time > timeout
  {
    StreamsAreIndependent(map[], events, timeout, stream);
    var shares := Shares(events, stream);
    fates := Fates(None, shares, timeout);
    FatesAccount(None, shares, timeout);
    FatesAreOfEach(None, shares, timeout);
    SharesOwn(events, stream);
    FatesOwn(None, shares, timeout, stream);
  }

  predicate Own(e: SlotEvent, stream: StreamId) {
    match e
    case Asked(request) => request.stream == stream
    case Answered(response) => response.stream == stream
    case Ticked(_) => true
  }

  lemma {:induction false} SharesOwn(events: seq<Event>, stream: StreamId)
    ensures forall i :: 0 <= i < |Shares(events, stream)| ==> Own(Shares(events, stream)[i], stream)
  {
    if events != [] {
      SharesOwn(events[1..], stream);
    }
  }

  predicate OwnFate(fate: Fate, stream: StreamId) {
    fate.request.stream == stream && (fate.Replied? ==> fate.response.stream == stream)
  }

  predicate OwnFates(fates: seq<Fate>, stream: StreamId) {
    forall i :: 0 <= i < |fates| ==> OwnFate(fates[i], stream)
  }

  lemma {:induction false} FatesOwn(slot: Option<HttpRequest>, events: seq<SlotEvent>, timeout: int, stream: StreamId)
    requires slot.Some? ==> slot.value.stream == stream
    requires forall i :: 0 <= i < |events| ==> Own(events[i], stream)
    ensures OwnFates(Fates(slot, events, timeout), stream)
    decreases |events|
  {
    if events != [] {
      assert Own(events[0], stream);
      var slot' := SlotStep(slot, events[0], timeout).0;
      FatesOwn(slot', events[1..], timeout, stream);
    }
  }

  /** After a tick no pending request is overdue at that tick, and none that was not overdue
      has left. */
  lemma {:induction false} TickLeavesNothingOverdue(pending: Pending, now: int, order: seq<StreamId>, timeout: int)
    requires Enumerates(order, pending)
    ensures var (p, out) := Step(pending, Tick(now, order), timeout);
            forall s :: s in p <==> s in pending && now - pending[s].time <= timeout
  {
    assert forall s :: s in ExpiredStreams(order, pending, now, timeout) <==>
                       s in pending && Expired(pending[s], now, timeout);
  }
}
