/** The window on 32-bit sequence numbers against the window on true positions over whole runs:
    exactly when the two agree, and what follows. */
module WindowRefinement {
  import opened Basics
  import opened TcpSequence
  import opened Reassembly
  import opened TrueStream
  import opened StreamTheorems
  import opened WindowDecisions

  function WindowStep(w: Window, e: Event): (Window, seq<Segment>) {
    match e
    case Arrival(p) => (Insert(w, Wrapped(p)), [])
    case Ack(a) => Confirm(w, Wrap(a))
  }

  function WindowRun(w: Window, events: seq<Event>): (Window, seq<Segment>)
    decreases |events|
  {
    if events == [] then (w, []) else
      var (w1, sent) := WindowStep(w, events[0]);
      var (w2, more) := WindowRun(w1, events[1..]);
      (w2, sent + more)
  }

  lemma {:induction false} WindowRunLast(w: Window, events: seq<Event>, e: Event)
    ensures var (w1, sent) := WindowRun(w, events);
            var (w2, more) := WindowStep(w1, e);
            WindowRun(w, events + [e]) == (w2, sent + more)
    decreases |events|
  {
    if events == [] {
      var (w2, more) := WindowStep(w, e);
      assert ([] + [e])[1..] == [];
      assert WindowRun(w2, []) == (w2, []);
      assert more + [] == more == [] + more;
    } else {
      var (w1, sent) := WindowStep(w, events[0]);
      assert (events + [e])[1..] == events[1..] + [e];
      WindowRunLast(w1, events[1..], e);
      var (w2, tail) := WindowRun(w1, events[1..]);
      var more := WindowStep(w2, e).1;
      assert (sent + tail) + more == sent + (tail + more);
    }
  }

  // ---- Two ways the code loses track

  /** Delivering a segment that ends at number 0 forgets what was delivered: the same segment
      is accepted and sent a second time. */
  lemma {:induction false} EndAtZeroSendsTwice()
    ensures var events := [Arrival(Placed(MAX_TCP_SEQ, [7])), Ack(MODULUS + 0x2_0000)];
            Bytes(WindowRun(EMPTY_WINDOW, events + events).1) == [7, 7]
  {
    var s := Segment(MAX_TCP_SEQ, [7]);
    var a, k := Arrival(Placed(MAX_TCP_SEQ, [7])), Ack(MODULUS + 0x2_0000);
    var after := Window([], 0, 0x2_0000);
    assert Wrap(MODULUS + 0x2_0000) == 0x2_0000;
    assert s.End() == 0;
    assert FindSlot([], s.seqNo) == Some(0);
    assert Deliver([s], 0, 0x2_0000) == Delivery([s], [], 0) by {
      assert [s][1..] == [];
      assert Deliver([], 0, 0x2_0000) == Delivery([], [], 0);
    }
    forall w | w in {EMPTY_WINDOW, after}
      ensures WindowStep(w, a) == (w.(segments := [s]), [])
    {
      assert [][..0] + [s] + [][0..] == [s];
    }
    forall w | w in {EMPTY_WINDOW, after}
      ensures WindowStep(w.(segments := [s]), k) == (after, [s])
    {
    }
    assert [a, k] + [a, k] == [a, k, a, k];
    assert WindowRun(after, []) == (after, []);
    assert [a, k, a, k][1..] == [k, a, k] && [k, a, k][1..] == [a, k] && [a, k][1..] == [k] && [k][1..] == [];
    assert WindowRun(after.(segments := [s]), [k]) == (after, [s] + []);
    assert WindowRun(after, [a, k]) == (after, [] + ([s] + []));
    assert WindowRun(EMPTY_WINDOW.(segments := [s]), [k, a, k]) == (after, [s] + ([] + ([s] + [])));
    assert WindowRun(EMPTY_WINDOW, [a, k, a, k]).1 == [s, s];
    assert Bytes([s]) == [7] by {
      assert [s][1..] == [];
    }
    assert [s, s] == [s] + [s];
    BytesOfConcat([s], [s]);
  }

  /** New data that crosses the wrap is lost: with 16 bytes to go before it, the next
      32-byte segment in sequence is dropped on arrival. */
  lemma {:induction false} WrapCrossingIsDropped(p: Placed)
    requires p.pos == 0xFFFF_FFF0 && |p.payload| == 32
    ensures !Covered(p, Some(p.pos))
    ensures forall w: Window :: w.expectBegin == Wrap(p.pos) ==> Insert(w, Wrapped(p)) == w
  {
    assert Wrap(p.pos) == 0xFFFF_FFF0 && Wrap(p.End()) == 0x10;
    DropExactly(p.pos, p);
    assert AlreadyDelivered(Wrap(p.pos), Wrapped(p));
    hide AlreadyDelivered, Wrap, Wrapped;
  }

  // ---- Exactly when a step, and a run, keeps track

  /** Whatever the step compares is less than half the sequence space apart. */
  predicate StepNear(v: Ideal, e: Event) {
    match e
    case Arrival(p) => ArrivalNear(v, p)
    case Ack(a) => AckNear(v.held, v.next, a)
  }

  /** Every decision of the step is the one true positions call for. */
  predicate StepExact(v: Ideal, e: Event) {
    match e
    case Arrival(p) => ArrivalExact(v, p)
    case Ack(a) => AckExact(v.held, v.next, a)
  }

  /** The step sends the right payloads and leaves a window that represents the right one. */
  predicate StepTracks(w: Window, v: Ideal, e: Event) {
    Represents(WindowStep(w, e).0, Step(v, e).0) && SamePayloads(WindowStep(w, e).1, Step(v, e).1)
  }

  predicate StepZeroClear(v: Ideal, e: Event) {
    e.Ack? ==> ZeroClear(v.held, v.next, e.pos)
  }

  /** A step keeps track of true positions if and only if every decision in it is right. */
  lemma {:induction false} StepTracksExactly(w: Window, v: Ideal, e: Event)
    requires Represents(w, v) && Valid(v) && StepNear(v, e) && StepZeroClear(v, e)
    ensures StepTracks(w, v, e) <==> StepExact(v, e)
  {
    match e
    case Arrival(p) => ArrivalExactly(w, v, p);
    case Ack(a) => AckTracksExactly(w.segments, v.held, v.next, a);
  }

  lemma {:induction false} ExactStepTracks(w: Window, v: Ideal, e: Event)
    requires Represents(w, v) && Valid(v) && StepNear(v, e) && StepExact(v, e)
    ensures StepTracks(w, v, e)
  {
    match e
    case Arrival(p) => ArrivalExactly(w, v, p);
    case Ack(a) => ExactAckTracks(w.segments, v.held, v.next, a);
  }

  /** The condition slides with the window: only what a step really compares is asked to be
      near, and only as long as every step before it was exact. */
  predicate RunNear(v: Ideal, events: seq<Event>)
    decreases |events|
  {
    events == [] ||
    (&& StepNear(v, events[0])
     && (StepExact(v, events[0]) ==> RunNear(Step(v, events[0]).0, events[1..])))
  }

  predicate RunZeroClear(v: Ideal, events: seq<Event>)
    decreases |events|
  {
    events == [] || (StepZeroClear(v, events[0]) && RunZeroClear(Step(v, events[0]).0, events[1..]))
  }

  predicate RunExact(v: Ideal, events: seq<Event>)
    decreases |events|
  {
    events == [] || (StepExact(v, events[0]) && RunExact(Step(v, events[0]).0, events[1..]))
  }

  /** Every comparison of the run is of near positions and every decision is right. */
  predicate RunClear(v: Ideal, events: seq<Event>) {
    RunNear(v, events) && RunExact(v, events)
  }

  /** After the first `k` events the code's window represents the right one, and what was sent
      until then has the right payloads. */
  predicate TracksUpTo(w: Window, v: Ideal, events: seq<Event>, k: nat)
    requires k <= |events|
  {
    && Represents(WindowRun(w, events[..k]).0, Run(v, events[..k]).0)
    && SamePayloads(WindowRun(w, events[..k]).1, Run(v, events[..k]).1)
  }

  lemma {:induction false} TracksAfterFirst(w: Window, v: Ideal, events: seq<Event>, k: nat)
    requires events != [] && StepTracks(w, v, events[0]) && 0 < k <= |events|
    ensures TracksUpTo(w, v, events, k) <==>
            TracksUpTo(WindowStep(w, events[0]).0, Step(v, events[0]).0, events[1..], k - 1)
  {
    var (w1, sent) := WindowStep(w, events[0]);
    var (v1, chunks) := Step(v, events[0]);
    assert events[..k][1..] == events[1..][..k - 1] && events[..k][0] == events[0];
    SamePayloadsConcat(sent, chunks, WindowRun(w1, events[1..][..k - 1]).1, Run(v1, events[1..][..k - 1]).1);
    hide WindowStep, Step;
  }

  lemma {:induction false} SamePayloadsConcat(s1: seq<Segment>, c1: seq<Placed>, s2: seq<Segment>, c2: seq<Placed>)
    requires SamePayloads(s1, c1)
    ensures SamePayloads(s1 + s2, c1 + c2) <==> SamePayloads(s2, c2)
  {
    if SamePayloads(s1 + s2, c1 + c2) {
      forall i | 0 <= i < |s2| ensures s2[i].payload == c2[i].payload {
        assert (s1 + s2)[|s1| + i].payload == (c1 + c2)[|c1| + i].payload;
      }
    }
  }

  lemma {:induction false} TracksAtFirst(w: Window, v: Ideal, events: seq<Event>)
    requires events != []
    ensures TracksUpTo(w, v, events, 1) <==> StepTracks(w, v, events[0])
  {
    var (w1, sent) := WindowStep(w, events[0]);
    var (v1, chunks) := Step(v, events[0]);
    assert events[..1][1..] == [] && events[..1][0] == events[0];
    assert WindowRun(w1, []) == (w1, []) && Run(v1, []) == (v1, []);
    assert sent + [] == sent && chunks + [] == chunks;
  }

  /** Over any run, the code's window keeps track after every event if and only if every
      decision of the run is right. */
  lemma {:induction false} RunTracksExactly(w: Window, v: Ideal, events: seq<Event>)
    requires Represents(w, v) && Valid(v) && RunNear(v, events) && RunZeroClear(v, events)
    ensures (forall k :: 0 <= k <= |events| ==> TracksUpTo(w, v, events, k)) <==> RunExact(v, events)
    decreases |events|
  {
    if events == [] {
      assert events[..0] == [];
    } else {
      var w1, v1 := WindowStep(w, events[0]).0, Step(v, events[0]).0;
      StepTracksExactly(w, v, events[0]);
      TracksAtFirst(w, v, events);
      if StepExact(v, events[0]) {
        StepKeepsValid(v, events[0]);
        RunTracksExactly(w1, v1, events[1..]);
        forall k | 0 < k <= |events|
          ensures TracksUpTo(w, v, events, k) <==> TracksUpTo(w1, v1, events[1..], k - 1)
        {
          TracksAfterFirst(w, v, events, k);
        }
        Shifted(w, v, w1, v1, events);
      }
    }
  }

  lemma {:induction false} Shifted(w: Window, v: Ideal, w1: Window, v1: Ideal, events: seq<Event>)
    requires events != [] && Represents(w, v)
    requires forall k :: 0 < k <= |events| ==> (TracksUpTo(w, v, events, k) <==> TracksUpTo(w1, v1, events[1..], k - 1))
    ensures (forall k :: 0 <= k <= |events| ==> TracksUpTo(w, v, events, k)) <==>
            (forall k :: 0 <= k <= |events[1..]| ==> TracksUpTo(w1, v1, events[1..], k))
  {
    assert TracksUpTo(w, v, events, 0) by {
      assert events[..0] == [];
    }
    hide TracksUpTo;
    if forall k :: 0 <= k <= |events| ==> TracksUpTo(w, v, events, k) {
      forall k | 0 <= k <= |events[1..]| ensures TracksUpTo(w1, v1, events[1..], k) {
        assert TracksUpTo(w, v, events, k + 1);
      }
    }
  }

  /** On every clear run the window of sequence numbers tracks the window of positions and
      sends the same payloads. */
  lemma {:induction false} RunRefines(w: Window, v: Ideal, events: seq<Event>)
    requires Represents(w, v) && Valid(v) && RunClear(v, events)
    ensures Represents(WindowRun(w, events).0, Run(v, events).0)
    ensures SamePayloads(WindowRun(w, events).1, Run(v, events).1)
    decreases |events|
  {
    if events != [] {
      var (w1, v1) := (WindowStep(w, events[0]).0, Step(v, events[0]).0);
      ExactStepTracks(w, v, events[0]);
      StepKeepsValid(v, events[0]);
      RunRefines(w1, v1, events[1..]);
      SamePayloadsConcat(WindowStep(w, events[0]).1, Step(v, events[0]).1,
                         WindowRun(w1, events[1..]).1, Run(v1, events[1..]).1);
    }
  }

  // ---- The theorems about the code's window

  /** On a clear run the code's window is the ideal one, and shares its safety. */
  lemma {:induction false} ClearRunIsSafe(stream: int -> Byte, events: seq<Event>)
    requires EventsCutFrom(stream, events) && RunClear(EMPTY, events)
    ensures var (w, sent) := WindowRun(EMPTY_WINDOW, events);
            var (v, chunks) := Run(EMPTY, events);
            && Represents(w, v) && Valid(v)
            && SamePayloads(sent, chunks) && AllCutFrom(stream, chunks) && InOrder(chunks, None, v.next)
  {
    RunRefines(EMPTY_WINDOW, EMPTY, events);
    RunIsSafe(stream, EMPTY, events);
  }

  /** Gap-free completeness of `confirm`. */
  lemma {:induction false} ConfirmDeliversUpToFurthestEnd(stream: int -> Byte, w: Window, v: Ideal, ack: int)
    requires Represents(w, v) && Valid(v) && AllCutFrom(stream, v.held) && v.next.Some?
    requires AckNear(v.held, v.next, ack) && AckExact(v.held, v.next, ack) && GapFree(v.held, v.next, ack)
    ensures var (w', sent) := Confirm(w, Wrap(ack));
            var e := Furthest(v.held, v.next, ack).value;
            w'.expectBegin == Wrap(e) && v.next.value <= e && Bytes(sent) == Cut(stream, v.next.value, e)
  {
    ExactAckTracks(w.segments, v.held, v.next, ack);
    GapFreeCompleteness(stream, v.held, v.next.value, ack);
    TextOfSamePayloads(Confirm(w, Wrap(ack)).1, Drain(v.held, v.next, ack).sent);
  }

  /** Over a whole clear run that never finds a gap, all the bytes sent are one uninterrupted
      stretch of the stream. */
  lemma {:induction false} GapFreeRunIsOneStretch(stream: int -> Byte, events: seq<Event>)
    requires EventsCutFrom(stream, events) && RunClear(EMPTY, events) && RunGapFree(EMPTY, events)
    requires Run(EMPTY, events).1 != []
    ensures var (w, sent) := WindowRun(EMPTY_WINDOW, events);
            var (v, chunks) := Run(EMPTY, events);
            && v.next.Some? && chunks[0].pos <= v.next.value
            && Bytes(sent) == Cut(stream, chunks[0].pos, v.next.value)
            && w.expectBegin == Wrap(v.next.value)
  {
    ClearRunIsSafe(stream, events);
    RunGapFreeExactly(stream, EMPTY, events);
    var (w, sent) := WindowRun(EMPTY_WINDOW, events);
    var (v, chunks) := Run(EMPTY, events);
    TextOfSamePayloads(sent, chunks);
    var from := Some(chunks[0].pos);
    assert InOrder(chunks, from, v.next) by {
      forall i | 0 <= i < |chunks| ensures from.value <= chunks[i].pos {
        if i > 0 {
          assert chunks[0].End() <= chunks[i].pos;
        }
      }
    }
    SeamlessText(stream, chunks, chunks[0].pos, v.next.value);
  }

  lemma {:induction false} ComparableScan(held: seq<Placed>, p: Placed)
    requires forall i :: 0 <= i < |held| ==> Comparable(held[i].pos, p.pos)
    ensures ScanNear(held, p) && ScanExact(held, p)
  {
    if held != [] {
      ComparableScan(held[..|held| - 1], p);
    }
  }

  lemma {:induction false} ComparableArrival(v: Ideal, p: Placed)
    requires v.next.Some? ==> Comparable(v.next.value, p.End())
    requires forall h :: h in v.held ==> Comparable(h.pos, p.pos)
    ensures ArrivalNear(v, p) && ArrivalExact(v, p)
  {
    ComparableScan(v.held, p);
  }

  // ---- Acknowledgement batching, on the numbers themselves

  /** What the first delivery removes also compares before the second acknowledgement. */
  predicate RemovedBefore(segments: seq<Segment>, expectBegin: Uint32, a1: Uint32, a2: Uint32) {
    AllBefore(segments, |segments| - |Deliver(segments, expectBegin, a1).rest|, a2)
  }

  predicate AllBefore(segments: seq<Segment>, n: int, ack: Uint32)
    requires n <= |segments|
  {
    forall i :: 0 <= i < n ==> CompareTCPSeq(segments[i].seqNo, ack) < 0
  }

  /** Two deliveries in a row come to the delivery for the second acknowledgement alone. */
  predicate Batches(segments: seq<Segment>, expectBegin: Uint32, a1: Uint32, a2: Uint32) {
    var d1 := Deliver(segments, expectBegin, a1);
    var d2 := Deliver(d1.rest, d1.expectBegin, a2);
    Deliver(segments, expectBegin, a2) == Delivery(d1.sent + d2.sent, d2.rest, d2.expectBegin)
  }

  lemma {:induction false} DeliverLeavesSuffix(segments: seq<Segment>, expectBegin: Uint32, ack: Uint32)
    ensures var d := Deliver(segments, expectBegin, ack);
            |d.rest| <= |segments| && d.rest == segments[|segments| - |d.rest|..]
  {
    if segments != [] {
      match TakeTurn(segments[0], expectBegin, ack)
      case Stop =>
      case Skip => DeliverLeavesSuffix(segments[1..], expectBegin, ack);
      case Send(_, e) => DeliverLeavesSuffix(segments[1..], e, ack);
    }
  }

  /** For any numbers at all, deliveries batch if and only if whatever the first one removes
      also compares before the second acknowledgement. */
  lemma {:induction false} DeliverBatchesExactly(segments: seq<Segment>, expectBegin: Uint32, a1: Uint32, a2: Uint32)
    ensures Batches(segments, expectBegin, a1, a2) <==> RemovedBefore(segments, expectBegin, a1, a2)
  {
    var d := Deliver(segments, expectBegin, a2);
    if segments == [] || CompareTCPSeq(segments[0].seqNo, a1) >= 0 {
      assert [] + d.sent == d.sent;
    } else if CompareTCPSeq(segments[0].seqNo, a2) >= 0 {
      FirstStaysBehind(segments, expectBegin, a1, a2);
    } else {
      var turn := TakeTurn(segments[0], expectBegin, a1);
      assert turn == TakeTurn(segments[0], expectBegin, a2);
      var e := if turn.Send? then turn.expectBegin else expectBegin;
      DeliverBatchesExactly(segments[1..], e, a1, a2);
      RemovedTail(segments, expectBegin, e, a1, a2);
      BatchesTail(segments, expectBegin, e, a1, a2);
    }
  }

  lemma {:induction false} FirstStaysBehind(segments: seq<Segment>, expectBegin: Uint32, a1: Uint32, a2: Uint32)
    requires segments != [] && CompareTCPSeq(segments[0].seqNo, a1) < 0 && CompareTCPSeq(segments[0].seqNo, a2) >= 0
    ensures !Batches(segments, expectBegin, a1, a2) && !RemovedBefore(segments, expectBegin, a1, a2)
  {
    var d1 := Deliver(segments, expectBegin, a1);
    match TakeTurn(segments[0], expectBegin, a1) {
      case Skip => DeliverLeavesSuffix(segments[1..], expectBegin, a1);
      case Send(_, e) => DeliverLeavesSuffix(segments[1..], e, a1);
    }
    DeliverLeavesSuffix(d1.rest, d1.expectBegin, a2);
    assert |d1.rest| < |segments|;
  }

  lemma {:induction false} RemovedTail(segments: seq<Segment>, expectBegin: Uint32, e: Uint32, a1: Uint32, a2: Uint32)
    requires segments != [] && CompareTCPSeq(segments[0].seqNo, a2) < 0
    requires match TakeTurn(segments[0], expectBegin, a1)
             case Stop => false
             case Skip => e == expectBegin
             case Send(_, x) => e == x
    ensures RemovedBefore(segments, expectBegin, a1, a2) <==> RemovedBefore(segments[1..], e, a1, a2)
  {
    DeliverLeavesSuffix(segments[1..], e, a1);
    assert Deliver(segments, expectBegin, a1).rest == Deliver(segments[1..], e, a1).rest;
    AllBeforeTail(segments, |segments| - |Deliver(segments, expectBegin, a1).rest|, a2);
    hide Deliver, TakeTurn, AllBefore;
  }

  lemma {:induction false} AllBeforeTail(segments: seq<Segment>, n: nat, ack: Uint32)
    requires 0 < n <= |segments| && CompareTCPSeq(segments[0].seqNo, ack) < 0
    ensures AllBefore(segments, n, ack) <==> AllBefore(segments[1..], n - 1, ack)
  {
    hide CompareTCPSeq;
    if AllBefore(segments, n, ack) {
      forall i | 0 <= i < n - 1 ensures CompareTCPSeq(segments[1..][i].seqNo, ack) < 0 {
        assert segments[1..][i] == segments[i + 1];
      }
    }
  }

  lemma {:induction false} BatchesTail(segments: seq<Segment>, expectBegin: Uint32, e: Uint32, a1: Uint32, a2: Uint32)
    requires segments != [] && TakeTurn(segments[0], expectBegin, a1) == TakeTurn(segments[0], expectBegin, a2)
    requires match TakeTurn(segments[0], expectBegin, a1)
             case Stop => false
             case Skip => e == expectBegin
             case Send(_, x) => e == x
    ensures Batches(segments, expectBegin, a1, a2) <==> Batches(segments[1..], e, a1, a2)
  {
    match TakeTurn(segments[0], expectBegin, a1)
    case Skip =>
    case Send(s, _) =>
      hide TakeTurn;
      var d1 := Deliver(segments[1..], e, a1);
      var d2 := Deliver(d1.rest, d1.expectBegin, a2);
      var d := Deliver(segments[1..], e, a2);
      assert Deliver(segments, expectBegin, a1) == Delivery([s] + d1.sent, d1.rest, d1.expectBegin);
      assert Deliver(segments, expectBegin, a2) == Delivery([s] + d.sent, d.rest, d.expectBegin);
      Regroup([s], d1.sent, d2.sent);
      assert ([s] + d.sent)[1..] == d.sent && ([s] + (d1.sent + d2.sent))[1..] == d1.sent + d2.sent;
  }

  /** The acknowledgement replaces the one on record. */
  predicate Recorded(lastAck: Uint32, ack: Uint32) {
    CompareTCPSeq(lastAck, ack) < 0 || lastAck == 0
  }

  /** Recording one acknowledgement and then another comes to recording the second. */
  predicate RecordBatches(lastAck: Uint32, a1: Uint32, a2: Uint32) {
    !Recorded(lastAck, a1) || a1 == a2 || (Recorded(a1, a2) && (Recorded(lastAck, a2) || a2 == lastAck))
  }

  lemma {:induction false} RecordBatchesExactly(lastAck: Uint32, a1: Uint32, a2: Uint32)
    ensures LaterAck(LaterAck(lastAck, a1), a2) == LaterAck(lastAck, a2) <==> RecordBatches(lastAck, a1, a2)
  {
    assert CompareTCPSeq(a1, a1) == 0;
    hide CompareTCPSeq;
  }

  /** For any window and any numbers, `confirm(a1)` and then `confirm(a2)` send the same packets
      and reach the same window as `confirm(a2)` alone, if and only if whatever the first one
      removes also compares before `a2` and the records come to the same. */
  lemma {:induction false} ConfirmBatchesExactly(w: Window, a1: Uint32, a2: Uint32)
    ensures var (w1, sent1) := Confirm(w, a1);
            var (w2, sent2) := Confirm(w1, a2);
            Confirm(w, a2) == (w2, sent1 + sent2) <==>
            RemovedBefore(w.segments, w.expectBegin, a1, a2) && RecordBatches(w.lastAck, a1, a2)
  {
    DeliverBatchesExactly(w.segments, w.expectBegin, a1, a2);
    RecordBatchesExactly(w.lastAck, a1, a2);
    hide Deliver, LaterAck, RemovedBefore, RecordBatches;
  }

  /** The last acknowledgement stands for a position that compares rightly with the new one,
      unless it is the number 0 that means "none yet". */
  predicate RecordComparable(lastAck: Uint32, last: int, ack: int) {
    lastAck != 0 ==> lastAck == Wrap(last) && Comparable(last, ack)
  }

  lemma {:induction false} LaterOfBoth(lastAck: Uint32, last: int, a1: int, a2: int)
    requires RecordComparable(lastAck, last, a1) && RecordComparable(lastAck, last, a2)
    requires a1 <= a2 && Comparable(a1, a2)
    ensures RecordBatches(lastAck, Wrap(a1), Wrap(a2))
  {
    if lastAck != 0 {
      OrderOfPositions(last, a1);
      OrderOfPositions(last, a2);
    }
    OrderOfPositions(a1, a2);
    hide Wrap, Misordered, CompareTCPSeq;
  }

  /** At true positions: with `a1` not later than `a2` and what `confirm(a1)` removes near both,
      acknowledgements batch if and only if nothing removed goes astray from `a2`: data just
      before the wrap is held back by an acknowledgement just after it. */
  lemma {:induction false} ConfirmBatches(w: Window, held: seq<Placed>, last: int, a1: int, a2: int)
    requires SegmentsOf(w.segments, held) && a1 <= a2 && Comparable(a1, a2)
    requires RecordComparable(w.lastAck, last, a1) && RecordComparable(w.lastAck, last, a2)
    requires forall i :: 0 <= i < |held| - |Confirm(w, Wrap(a1)).0.segments| ==>
               Near(held[i].pos, a1) && Near(held[i].pos, a2)
    ensures var (w1, sent1) := Confirm(w, Wrap(a1));
            var (w2, sent2) := Confirm(w1, Wrap(a2));
            Confirm(w, Wrap(a2)) == (w2, sent1 + sent2) <==>
            forall i :: 0 <= i < |held| - |w1.segments| ==> !Astray(held[i].pos, a2)
  {
    ConfirmBatchesExactly(w, Wrap(a1), Wrap(a2));
    LaterOfBoth(w.lastAck, last, a1, a2);
    RemovedComparesBefore(w.segments, w.expectBegin, Wrap(a1));
    forall i | 0 <= i < |held| - |Confirm(w, Wrap(a1)).0.segments|
      ensures CompareTCPSeq(w.segments[i].seqNo, Wrap(a2)) < 0 <==> !Astray(held[i].pos, a2)
    {
      CompareOutcome(held[i].pos, a1);
      CompareOutcome(held[i].pos, a2);
    }
    hide Deliver, CompareTCPSeq, RecordBatches, InSecondWrap, Wrap;
  }

  lemma {:induction false} RemovedComparesBefore(segments: seq<Segment>, expectBegin: Uint32, ack: Uint32)
    ensures forall i :: 0 <= i < |segments| - |Deliver(segments, expectBegin, ack).rest| ==>
              CompareTCPSeq(segments[i].seqNo, ack) < 0
  {
    if segments != [] && CompareTCPSeq(segments[0].seqNo, ack) < 0 {
      var turn := TakeTurn(segments[0], expectBegin, ack);
      var e := if turn.Send? then turn.expectBegin else expectBegin;
      RemovedComparesBefore(segments[1..], e, ack);
      assert forall i :: 0 < i < |segments| ==> segments[i] == segments[1..][i - 1];
    }
  }

  /** For any window and any number, an acknowledgement sends and changes nothing if and only if
      the first segment, if there is one, does not compare before it, and it does not replace
      the one on record. */
  lemma {:induction false} ConfirmIsSilentExactly(w: Window, ack: Uint32)
    ensures Confirm(w, ack) == (w, []) <==>
            && (w.segments == [] || CompareTCPSeq(w.segments[0].seqNo, ack) >= 0)
            && (!Recorded(w.lastAck, ack) || ack == w.lastAck)
  {
    if w.segments != [] && CompareTCPSeq(w.segments[0].seqNo, ack) < 0 {
      match TakeTurn(w.segments[0], w.expectBegin, ack) {
        case Skip => DeliverLeavesSuffix(w.segments[1..], w.expectBegin, ack);
        case Send(_, e) => DeliverLeavesSuffix(w.segments[1..], e, ack);
      }
      assert |Confirm(w, ack).0.segments| < |w.segments|;
    }
  }

  /** After an acknowledgement the record is not before an older one, or is number 0. */
  lemma {:induction false} LaterThanOlder(lastAck: Uint32, last: int, older: int, ack: int)
    requires RecordComparable(lastAck, last, ack) && RecordComparable(lastAck, last, older)
    requires older <= ack && Comparable(ack, older)
    ensures var recorded := LaterAck(lastAck, Wrap(ack));
            !Recorded(recorded, Wrap(older)) || Wrap(older) == recorded <==> recorded != 0 || Wrap(older) == 0
  {
    if lastAck != 0 {
      OrderOfPositions(last, ack);
      OrderOfPositions(last, older);
    }
    OrderOfPositions(ack, older);
    hide Wrap, Misordered, CompareTCPSeq;
  }

  /** Repeating an acknowledgement, or an older one: it sends and changes nothing if and only if
      the first segment left, if there is one, does not start before it or goes astray from it,
      and the acknowledgement on record is not the number 0, which the code takes for "none
      yet", or the repeated one is that number itself. */
  lemma {:induction false} OlderConfirmIsSilent(w: Window, held: seq<Placed>, last: int, older: int, ack: int)
    requires SegmentsOf(Confirm(w, Wrap(ack)).0.segments, held) && (held != [] ==> Near(held[0].pos, older))
    requires RecordComparable(w.lastAck, last, older) && RecordComparable(w.lastAck, last, ack)
    requires older <= ack && Comparable(ack, older)
    ensures var w1 := Confirm(w, Wrap(ack)).0;
            Confirm(w1, Wrap(older)) == (w1, []) <==>
            && (held == [] || older <= held[0].pos || Astray(held[0].pos, older))
            && (w1.lastAck != 0 || Wrap(older) == 0)
  {
    var w1 := Confirm(w, Wrap(ack)).0;
    ConfirmIsSilentExactly(w1, Wrap(older));
    LaterThanOlder(w.lastAck, last, older, ack);
    if held != [] {
      CompareOutcome(held[0].pos, older);
    }
    hide Deliver, CompareTCPSeq, InSecondWrap, Wrap, Recorded;
  }

  /** Batching fails across the wrap: with data 16 bytes before it, an acknowledgement 8 bytes
      before it sends that data, and one 16 bytes after it sends nothing. */
  lemma {:induction false} BatchingFailsAcrossTheWrap()
    ensures var w := Window([Segment(0xFFFF_FFF0, [7])], 0, 0);
            Confirm(w, 0xFFFF_FFF8).1 == w.segments && Confirm(w, 0x10) == (w.(lastAck := 0x10), [])
  {
    var s := Segment(0xFFFF_FFF0, [7]);
    assert [s][1..] == [];
    assert TakeTurn(s, 0, 0xFFFF_FFF8) == Send(s, 0xFFFF_FFF1);
    assert TakeTurn(s, 0, 0x10) == Stop;
  }

  // ---- A simple sufficient condition: one lap of the sequence space

  predicate WithinLap(lap: int, low: int, x: int) {
    lap * MODULUS < x < (lap + 1) * MODULUS && low <= x < low + HALF
  }

  predicate EventWithinLap(lap: int, low: int, e: Event) {
    match e
    case Arrival(p) => WithinLap(lap, low, p.pos) && WithinLap(lap, low, p.End())
    case Ack(a) => WithinLap(lap, low, a)
  }

  predicate StateWithinLap(lap: int, low: int, v: Ideal) {
    && (v.next.Some? ==> WithinLap(lap, low, v.next.value))
    && forall i :: 0 <= i < |v.held| ==> WithinLap(lap, low, v.held[i].pos) && WithinLap(lap, low, v.held[i].End())
  }

  lemma {:induction false} LapComparable(lap: int, low: int, x: int, y: int)
    requires WithinLap(lap, low, x) && WithinLap(lap, low, y)
    ensures Comparable(x, y) && Wrap(x) != 0
  {
    OneLapIsComparable(lap, x, y);
  }

  lemma {:induction false} LapAckClear(lap: int, low: int, held: seq<Placed>, next: Option<int>, ack: int)
    requires StateWithinLap(lap, low, Ideal(held, next)) && WithinLap(lap, low, ack)
    ensures AckNear(held, next, ack) && AckExact(held, next, ack)
    ensures StateWithinLap(lap, low, Acknowledge(Ideal(held, next), ack).0)
  {
    if next.Some? {
      LapComparable(lap, low, next.value, ack);
    }
    if held != [] {
      LapComparable(lap, low, held[0].pos, ack);
      LapComparable(lap, low, held[0].End(), ack);
      if next.Some? {
        LapComparable(lap, low, next.value, held[0].pos);
      }
      LapAckClear(lap, low, held[1..], After(held[0], next), ack);
    }
  }

  /** A run whose positions all lie in one half-space interval of one lap is clear. */
  lemma {:induction false} OneLapRunIsClear(lap: int, low: int, v: Ideal, events: seq<Event>)
    requires Valid(v) && StateWithinLap(lap, low, v)
    requires forall i :: 0 <= i < |events| ==> EventWithinLap(lap, low, events[i])
    ensures RunClear(v, events)
    decreases |events|
  {
    if events != [] {
      var v1 := Step(v, events[0]).0;
      match events[0] {
        case Arrival(p) =>
          if v.next.Some? {
            LapComparable(lap, low, v.next.value, p.End());
          }
          forall h | h in v.held ensures Comparable(h.pos, p.pos) {
            LapComparable(lap, low, h.pos, p.pos);
          }
          ComparableArrival(v, p);
          PlaceIsSortedInsertion(v.held, p);
          forall i | 0 <= i < |v1.held|
            ensures WithinLap(lap, low, v1.held[i].pos) && WithinLap(lap, low, v1.held[i].End())
          {
            assert v1.held[i] in v1.held;
          }
        case Ack(a) =>
          LapAckClear(lap, low, v.held, v.next, a);
      }
      StepKeepsValid(v, events[0]);
      OneLapRunIsClear(lap, low, v1, events[1..]);
    }
  }
}
