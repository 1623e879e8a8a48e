/** What the receive window sends, whether or not it keeps track: over every run, wraps and wrong
    decisions included, exactly when the bytes sent move forward through the stream. */
module WindowSafety {
  import opened Basics
  import opened TcpSequence
  import opened Reassembly
  import opened TrueStream
  import opened WindowDecisions
  import opened WindowRefinement

  // ---- The code's own window, with true positions attached

  function WrappedAll(held: seq<Placed>): (segments: seq<Segment>)
    ensures SegmentsOf(segments, held)
  {
    seq(|held|, i requires 0 <= i < |held| => Wrapped(held[i]))
  }

  /** The segments are those of the window, in the window's order, and `next` is where the last
      segment sent ends. Neither order nor visibility is promised. */
  predicate Traces(w: Window, v: Ideal) {
    SegmentsOf(w.segments, v.held) && w.expectBegin == NumberOf(v.next)
  }

  /** `insert`, decision by decision. */
  function CodeArrive(v: Ideal, p: Placed): Ideal {
    if AlreadyDelivered(NumberOf(v.next), Wrapped(p)) || p.payload == [] then v
    else match FindSlot(WrappedAll(v.held), Wrap(p.pos))
      case None => v
      case Some(slot) => v.(held := v.held[..slot] + [p] + v.held[slot..])
  }

  /** What is left of a segment when its last bytes are sent. */
  function Tail(p: Placed, t: Segment): (chunk: Placed)
    ensures chunk.End() == p.End()
  {
    Placed(p.End() - |t.payload|, t.payload)
  }

  /** `confirm`, decision by decision. */
  function CodeDrain(held: seq<Placed>, next: Option<int>, ack: int): Release {
    if held == [] then Release([], [], next)
    else match TakeTurn(Wrapped(held[0]), NumberOf(next), Wrap(ack))
      case Stop => Release([], held, next)
      case Skip => CodeDrain(held[1..], next, ack)
      case Send(t, _) =>
        var r := CodeDrain(held[1..], Some(held[0].End()), ack);
        Release([Tail(held[0], t)] + r.sent, r.rest, r.next)
  }

  function CodeStep(v: Ideal, e: Event): (Ideal, seq<Placed>) {
    match e
    case Arrival(p) => (CodeArrive(v, p), [])
    case Ack(a) => var r := CodeDrain(v.held, v.next, a); (Ideal(r.rest, r.next), r.sent)
  }

  function CodeRun(v: Ideal, events: seq<Event>): (Ideal, seq<Placed>)
    decreases |events|
  {
    if events == [] then (v, []) else
      var (v1, sent) := CodeStep(v, events[0]);
      var (v2, more) := CodeRun(v1, events[1..]);
      (v2, sent + more)
  }

  lemma {:induction false} SegmentsAreWrappedAll(segments: seq<Segment>, held: seq<Placed>)
    requires SegmentsOf(segments, held)
    ensures segments == WrappedAll(held)
  {
  }

  lemma {:induction false} DrainTraces(segments: seq<Segment>, held: seq<Placed>, next: Option<int>, ack: int)
    requires SegmentsOf(segments, held)
    ensures var d, r := Deliver(segments, NumberOf(next), Wrap(ack)), CodeDrain(held, next, ack);
            SegmentsOf(d.rest, r.rest) && d.expectBegin == NumberOf(r.next) && SamePayloads(d.sent, r.sent)
  {
    if segments != [] {
      match TakeTurn(segments[0], NumberOf(next), Wrap(ack))
      case Stop =>
      case Skip => DrainTraces(segments[1..], held[1..], next, ack);
      case Send(t, e) =>
        var end := Some(held[0].End());
        TurnSendsTail(held[0], NumberOf(next), ack);
        DrainTraces(segments[1..], held[1..], end, ack);
        SamePayloadsCons(t, Tail(held[0], t), Deliver(segments[1..], e, Wrap(ack)).sent,
                         CodeDrain(held[1..], end, ack).sent);
        hide TakeTurn, SamePayloads, SegmentsOf, Wrapped;
    }
  }

  /** A turn only ever sends the last bytes of a segment. */
  lemma {:induction false} TurnSendsTail(p: Placed, expectBegin: Uint32, ack: int)
    ensures match TakeTurn(Wrapped(p), expectBegin, Wrap(ack))
            case Send(t, e) =>
              && e == Wrap(p.End()) && (p.payload != [] ==> t.payload != []) && |t.payload| <= |p.payload|
              && t.payload == p.payload[|p.payload| - |t.payload|..]
            case _ => true
  {
    WrapOfSum(p.pos, |p.payload|);
  }

  lemma {:induction false} StepTraces(w: Window, v: Ideal, e: Event)
    requires Traces(w, v)
    ensures Traces(WindowStep(w, e).0, CodeStep(v, e).0)
    ensures SamePayloads(WindowStep(w, e).1, CodeStep(v, e).1)
  {
    match e
    case Arrival(p) => SegmentsAreWrappedAll(w.segments, v.held);
    case Ack(a) => DrainTraces(w.segments, v.held, v.next, a);
  }

  /** Whatever the run, the window sends the payloads of these chunks. */
  lemma {:induction false} RunTraces(w: Window, v: Ideal, events: seq<Event>)
    requires Traces(w, v)
    ensures Traces(WindowRun(w, events).0, CodeRun(v, events).0)
    ensures SamePayloads(WindowRun(w, events).1, CodeRun(v, events).1)
    decreases |events|
  {
    if events != [] {
      var (w1, v1) := (WindowStep(w, events[0]).0, CodeStep(v, events[0]).0);
      StepTraces(w, v, events[0]);
      RunTraces(w1, v1, events[1..]);
      SamePayloadsConcat(WindowStep(w, events[0]).1, CodeStep(v, events[0]).1,
                         WindowRun(w1, events[1..]).1, CodeRun(v1, events[1..]).1);
    }
  }

  // ---- Every chunk is the stream's bytes at its position, on every run

  lemma {:induction false} ArriveIsCut(stream: int -> Byte, v: Ideal, p: Placed)
    requires AllCutFrom(stream, v.held) && CutFrom(stream, p) && NonEmpty(v.held)
    ensures AllCutFrom(stream, CodeArrive(v, p).held) && NonEmpty(CodeArrive(v, p).held)
  {
  }

  lemma {:induction false} TailIsCut(stream: int -> Byte, p: Placed, next: Option<int>, ack: int)
    requires CutFrom(stream, p) && p.payload != []
    ensures match TakeTurn(Wrapped(p), NumberOf(next), Wrap(ack))
            case Send(t, _) => CutFrom(stream, Tail(p, t)) && t.payload != []
            case _ => true
  {
    TurnSendsTail(p, NumberOf(next), ack);
  }

  lemma {:induction false} CodeDrainIsCut(stream: int -> Byte, held: seq<Placed>, next: Option<int>, ack: int)
    requires AllCutFrom(stream, held) && NonEmpty(held)
    ensures var r := CodeDrain(held, next, ack);
            && AllCutFrom(stream, r.sent) && NonEmpty(r.sent)
            && AllCutFrom(stream, r.rest) && NonEmpty(r.rest)
  {
    if held != [] {
      AllCutTail(stream, held);
      match TakeTurn(Wrapped(held[0]), NumberOf(next), Wrap(ack))
      case Stop =>
      case Skip => CodeDrainIsCut(stream, held[1..], next, ack);
      case Send(t, _) =>
        TailIsCut(stream, held[0], next, ack);
        hide TakeTurn, CutFrom;
        CodeDrainIsCut(stream, held[1..], Some(held[0].End()), ack);
        AllCutCons(stream, Tail(held[0], t), CodeDrain(held[1..], Some(held[0].End()), ack).sent);
    }
  }

  lemma {:induction false} StepIsCut(stream: int -> Byte, v: Ideal, e: Event)
    requires AllCutFrom(stream, v.held) && NonEmpty(v.held) && (e.Arrival? ==> CutFrom(stream, e.segment))
    ensures var (v', sent) := CodeStep(v, e);
            AllCutFrom(stream, v'.held) && NonEmpty(v'.held) && AllCutFrom(stream, sent) && NonEmpty(sent)
  {
    match e
    case Arrival(p) => ArriveIsCut(stream, v, p);
    case Ack(a) => CodeDrainIsCut(stream, v.held, v.next, a);
  }

  lemma {:induction false} RunIsCut(stream: int -> Byte, v: Ideal, events: seq<Event>)
    requires AllCutFrom(stream, v.held) && NonEmpty(v.held) && EventsCutFrom(stream, events)
    ensures AllCutFrom(stream, CodeRun(v, events).1)
    decreases |events|
  {
    if events != [] {
      StepIsCut(stream, v, events[0]);
      RunIsCut(stream, CodeStep(v, events[0]).0, events[1..]);
    }
  }

  // ---- Exactly when the chunks move forward

  /** The segment starts less than half the sequence space before the next position. */
  predicate InReach(p: Placed, next: Option<int>) {
    next.Some? ==> next.value - p.pos < HALF
  }

  /** The segment starts before the next position, whose number the code takes for "none yet". */
  predicate Hidden(p: Placed, next: Option<int>) {
    next.Some? && Wrap(next.value) == 0 && p.pos < next.value
  }

  /** Every segment the acknowledgement sends is in reach of the next position. */
  predicate DrainInReach(held: seq<Placed>, next: Option<int>, ack: int) {
    held == [] ||
    match TakeTurn(Wrapped(held[0]), NumberOf(next), Wrap(ack))
    case Stop => true
    case Skip => DrainInReach(held[1..], next, ack)
    case Send(_, _) => InReach(held[0], next) && DrainInReach(held[1..], Some(held[0].End()), ack)
  }

  /** The acknowledgement sends no segment whose overlap number 0 hides. */
  predicate NothingHidden(held: seq<Placed>, next: Option<int>, ack: int) {
    held == [] ||
    match TakeTurn(Wrapped(held[0]), NumberOf(next), Wrap(ack))
    case Stop => true
    case Skip => NothingHidden(held[1..], next, ack)
    case Send(_, _) => !Hidden(held[0], next) && NothingHidden(held[1..], Some(held[0].End()), ack)
  }

  /** A sent chunk starts at or after the next position, unless number 0 hides the overlap:
      drops, misplacements, early stops and wrong skips never send a byte twice. */
  lemma {:induction false} SendIsForwardExactly(p: Placed, next: Option<int>, ack: int)
    requires p.payload != [] && InReach(p, next)
    ensures match TakeTurn(Wrapped(p), NumberOf(next), Wrap(ack))
            case Send(t, _) => InOrder([Tail(p, t)], next, Some(p.End())) <==> !Hidden(p, next)
            case _ => true
  {
    TurnSendsTail(p, NumberOf(next), ack);
    if next.Some? && p.pos < next.value {
      OverlapIsCut(p, next.value, ack);
    }
    hide TakeTurn, Wrap, Wrapped;
  }

  /** Of a segment that starts before the next position only what lies past it is sent, unless
      that position's number is 0. */
  lemma {:induction false} OverlapIsCut(p: Placed, n: int, ack: int)
    requires p.pos < n < p.pos + HALF
    ensures match TakeTurn(Wrapped(p), Wrap(n), Wrap(ack))
            case Send(t, _) => |t.payload| == if Wrap(n) == 0 then |p.payload| else p.End() - n
            case _ => true
  {
    CompareOutcome(n, p.pos);
    DuplicatedSize(Wrap(n), n, p.pos);
    hide CompareTCPSeq;
  }

  lemma {:induction false} InOrderSplits(a: Placed, b: seq<Placed>, from: Option<int>, to: Option<int>)
    requires a.payload != []
    ensures InOrder([a] + b, from, to) <==> InOrder([a], from, Some(a.End())) && InOrder(b, Some(a.End()), to)
  {
    if InOrder([a] + b, from, to) {
      FirstThenRest(a, b, from, to);
    } else if InOrder([a], from, Some(a.End())) && InOrder(b, Some(a.End()), to) {
      InOrderConcat([a], b, from, Some(a.End()), to);
    }
  }

  lemma {:induction false} FirstThenRest(a: Placed, b: seq<Placed>, from: Option<int>, to: Option<int>)
    requires InOrder([a] + b, from, to)
    ensures InOrder([a], from, Some(a.End())) && InOrder(b, Some(a.End()), to)
  {
    var c := [a] + b;
    assert c[0] == a && c[1..] == b;
    forall i | 0 <= i < |b| ensures a.End() <= b[i].pos && b[i].payload != [] {
      assert b[i] == c[i + 1] && c[0].End() <= c[i + 1].pos;
    }
    forall i, j | 0 <= i < j < |b| ensures b[i].End() <= b[j].pos {
      assert c[i + 1].End() <= c[j + 1].pos;
    }
    assert b != [] ==> c[|c| - 1] == b[|b| - 1];
  }

  lemma {:induction false} DrainIsForwardExactly(held: seq<Placed>, next: Option<int>, ack: int)
    requires NonEmpty(held) && DrainInReach(held, next, ack)
    ensures var r := CodeDrain(held, next, ack);
            InOrder(r.sent, next, r.next) <==> NothingHidden(held, next, ack)
  {
    if held != [] {
      var p := held[0];
      match TakeTurn(Wrapped(p), NumberOf(next), Wrap(ack))
      case Stop =>
      case Skip => DrainIsForwardExactly(held[1..], next, ack);
      case Send(t, _) =>
        var r := CodeDrain(held[1..], Some(p.End()), ack);
        SendIsForwardExactly(p, next, ack);
        TurnSendsTail(p, NumberOf(next), ack);
        DrainIsForwardExactly(held[1..], Some(p.End()), ack);
        hide TakeTurn, Wrapped, Wrap, InOrder;
        InOrderSplits(Tail(p, t), r.sent, next, r.next);
    }
  }

  predicate RunInReach(v: Ideal, events: seq<Event>)
    decreases |events|
  {
    events == [] ||
    (&& (events[0].Ack? ==> DrainInReach(v.held, v.next, events[0].pos))
     && RunInReach(CodeStep(v, events[0]).0, events[1..]))
  }

  predicate RunHidesNothing(v: Ideal, events: seq<Event>)
    decreases |events|
  {
    events == [] ||
    (&& (events[0].Ack? ==> NothingHidden(v.held, v.next, events[0].pos))
     && RunHidesNothing(CodeStep(v, events[0]).0, events[1..]))
  }

  lemma {:induction false} InOrderJoins(a: seq<Placed>, b: seq<Placed>, from: Option<int>, mid: Option<int>,
                                        to: Option<int>)
    requires NonEmpty(a) && mid == (if a == [] then from else Some(a[|a| - 1].End()))
    ensures InOrder(a + b, from, to) <==> InOrder(a, from, mid) && InOrder(b, mid, to)
    decreases |a|
  {
    if a == [] {
      assert a + b == b;
    } else {
      var rest := a[1..];
      assert a == [a[0]] + rest && a + b == [a[0]] + (rest + b);
      InOrderSplits(a[0], rest + b, from, to);
      InOrderSplits(a[0], rest, from, mid);
      InOrderJoins(rest, b, Some(a[0].End()), mid, to);
    }
  }

  lemma {:induction false} DrainEnds(held: seq<Placed>, next: Option<int>, ack: int)
    ensures var r := CodeDrain(held, next, ack);
            r.next == if r.sent == [] then next else Some(r.sent[|r.sent| - 1].End())
  {
    if held != [] {
      match TakeTurn(Wrapped(held[0]), NumberOf(next), Wrap(ack))
      case Stop =>
      case Skip => DrainEnds(held[1..], next, ack);
      case Send(t, _) =>
        var r := CodeDrain(held[1..], Some(held[0].End()), ack);
        DrainEnds(held[1..], Some(held[0].End()), ack);
        hide TakeTurn, Wrapped, Wrap;
        assert r.sent != [] ==> ([Tail(held[0], t)] + r.sent)[|r.sent|] == r.sent[|r.sent| - 1];
    }
  }

  lemma {:induction false} DrainKeepsPayloads(held: seq<Placed>, next: Option<int>, ack: int)
    requires NonEmpty(held)
    ensures var r := CodeDrain(held, next, ack); NonEmpty(r.sent) && NonEmpty(r.rest)
  {
    if held != [] {
      match TakeTurn(Wrapped(held[0]), NumberOf(next), Wrap(ack))
      case Stop =>
      case Skip => DrainKeepsPayloads(held[1..], next, ack);
      case Send(t, _) =>
        TurnSendsTail(held[0], NumberOf(next), ack);
        hide TakeTurn, Wrapped, Wrap;
        DrainKeepsPayloads(held[1..], Some(held[0].End()), ack);
    }
  }

  /** Over every run the chunks sent move forward and never overlap if and only if no segment is
      sent whose overlap number 0 hides. */
  lemma {:induction false} RunIsForwardExactly(v: Ideal, events: seq<Event>)
    requires NonEmpty(v.held) && RunInReach(v, events)
    ensures InOrder(CodeRun(v, events).1, v.next, CodeRun(v, events).0.next) <==> RunHidesNothing(v, events)
    decreases |events|
  {
    if events != [] {
      var (v1, sent) := CodeStep(v, events[0]);
      var (v2, more) := CodeRun(v1, events[1..]);
      match events[0] {
        case Arrival(_) =>
        case Ack(a) =>
          DrainEnds(v.held, v.next, a);
          DrainKeepsPayloads(v.held, v.next, a);
          DrainIsForwardExactly(v.held, v.next, a);
      }
      RunIsForwardExactly(v1, events[1..]);
      InOrderJoins(sent, more, v.next, v1.next, v2.next);
    }
  }

  // ---- The theorems

  /** Reassembly safety, over every interleaving of arrivals and acknowledgements of segments of
      one stream, whatever the comparison does near the wrap: every payload sent is the stream's
      bytes at a position; and with the segments sent in reach, those stretches only move
      forward and never overlap if and only if no segment is sent from before the next position
      while that position's number is 0. */
  lemma {:induction false} ReassemblyIsSafe(stream: int -> Byte, events: seq<Event>)
    requires EventsCutFrom(stream, events)
    ensures var (w, sent) := WindowRun(EMPTY_WINDOW, events);
            var (v, chunks) := CodeRun(EMPTY, events);
            && Traces(w, v) && SamePayloads(sent, chunks) && AllCutFrom(stream, chunks)
            && (RunInReach(EMPTY, events) ==> (InOrder(chunks, None, v.next) <==> RunHidesNothing(EMPTY, events)))
  {
    RunTraces(EMPTY_WINDOW, EMPTY, events);
    RunIsCut(stream, EMPTY, events);
    if RunInReach(EMPTY, events) {
      RunIsForwardExactly(EMPTY, events);
    }
  }

  /** No segment that carries data ends at number 0. */
  predicate NoneEndsAtZero(ps: seq<Placed>) {
    forall i :: 0 <= i < |ps| ==> Wrap(ps[i].End()) != 0
  }

  predicate NoArrivalEndsAtZero(events: seq<Event>) {
    forall i :: 0 <= i < |events| && events[i].Arrival? && events[i].segment.payload != [] ==>
      Wrap(events[i].segment.End()) != 0
  }

  lemma {:induction false} DrainStaysVisible(held: seq<Placed>, next: Option<int>, ack: int)
    requires NoneEndsAtZero(held) && Visible(next)
    ensures NothingHidden(held, next, ack)
    ensures NoneEndsAtZero(CodeDrain(held, next, ack).rest) && Visible(CodeDrain(held, next, ack).next)
  {
    if held != [] {
      match TakeTurn(Wrapped(held[0]), NumberOf(next), Wrap(ack))
      case Stop =>
      case Skip => DrainStaysVisible(held[1..], next, ack);
      case Send(_, _) => DrainStaysVisible(held[1..], Some(held[0].End()), ack);
    }
  }

  lemma {:induction false} NothingIsHidden(v: Ideal, events: seq<Event>)
    requires NoneEndsAtZero(v.held) && Visible(v.next) && NoArrivalEndsAtZero(events)
    ensures RunHidesNothing(v, events)
    decreases |events|
  {
    if events != [] {
      match events[0] {
        case Arrival(_) =>
        case Ack(a) => DrainStaysVisible(v.held, v.next, a);
      }
      NothingIsHidden(CodeStep(v, events[0]).0, events[1..]);
    }
  }

  /** All positions lie in one interval of half the sequence space, wherever it wraps. */
  predicate Compact(ps: seq<Placed>, low: int) {
    forall i :: 0 <= i < |ps| ==> low <= ps[i].pos && ps[i].End() < low + HALF
  }

  predicate ArrivalsCompact(events: seq<Event>, low: int) {
    forall i :: 0 <= i < |events| && events[i].Arrival? ==>
      low <= events[i].segment.pos && events[i].segment.End() < low + HALF
  }

  lemma {:induction false} DrainStaysCompact(held: seq<Placed>, next: Option<int>, ack: int, low: int)
    requires Compact(held, low) && (next.Some? ==> next.value < low + HALF)
    ensures DrainInReach(held, next, ack)
    ensures var r := CodeDrain(held, next, ack); Compact(r.rest, low) && (r.next.Some? ==> r.next.value < low + HALF)
  {
    if held != [] {
      match TakeTurn(Wrapped(held[0]), NumberOf(next), Wrap(ack))
      case Stop =>
      case Skip => DrainStaysCompact(held[1..], next, ack, low);
      case Send(_, _) => DrainStaysCompact(held[1..], Some(held[0].End()), ack, low);
    }
  }

  lemma {:induction false} CompactIsInReach(v: Ideal, events: seq<Event>, low: int)
    requires Compact(v.held, low) && (v.next.Some? ==> v.next.value < low + HALF) && ArrivalsCompact(events, low)
    ensures RunInReach(v, events)
    decreases |events|
  {
    if events != [] {
      match events[0] {
        case Arrival(_) =>
        case Ack(a) => DrainStaysCompact(v.held, v.next, a, low);
      }
      CompactIsInReach(CodeStep(v, events[0]).0, events[1..], low);
    }
  }

  /** Checkable on the arrivals alone: if none ends at number 0 and they lie in one interval of
      length 2^31, across the wrap or not, every run is safe, whatever is acknowledged when. */
  lemma {:induction false} SafeUnlessEndingAtZero(stream: int -> Byte, events: seq<Event>, low: int)
    requires EventsCutFrom(stream, events) && NoArrivalEndsAtZero(events) && ArrivalsCompact(events, low)
    ensures var sent := WindowRun(EMPTY_WINDOW, events).1;
            var (v, chunks) := CodeRun(EMPTY, events);
            SamePayloads(sent, chunks) && AllCutFrom(stream, chunks) && InOrder(chunks, None, v.next)
  {
    ReassemblyIsSafe(stream, events);
    CompactIsInReach(EMPTY, events, low);
    NothingIsHidden(EMPTY, events);
  }
}
