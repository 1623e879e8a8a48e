/** Every comparison the receive window makes on 32-bit numbers, against the decision true
    positions call for: exactly when an arrival, a turn and an acknowledgement come out right. */
module WindowDecisions {
  import opened Basics
  import opened TcpSequence
  import opened Reassembly
  import opened TrueStream
  import opened StreamTheorems

  function Wrapped(p: Placed): Segment {
    Segment(Wrap(p.pos), p.payload)
  }

  predicate SegmentsOf(segments: seq<Segment>, held: seq<Placed>) {
    |segments| == |held| && forall i :: 0 <= i < |held| ==> segments[i] == Wrapped(held[i])
  }

  /** The number that stands for the next position, or 0 for "none yet". */
  function NumberOf(next: Option<int>): Uint32 {
    if next.None? then 0 else Wrap(next.value)
  }

  /** A next position whose number is not mistaken for "none yet". */
  predicate Visible(next: Option<int>) {
    next.Some? ==> Wrap(next.value) != 0
  }

  predicate ExpectOf(expectBegin: Uint32, next: Option<int>) {
    expectBegin == NumberOf(next) && Visible(next)
  }

  predicate Represents(w: Window, v: Ideal) {
    SegmentsOf(w.segments, v.held) && ExpectOf(w.expectBegin, v.next)
  }

  predicate SamePayloads(sent: seq<Segment>, chunks: seq<Placed>) {
    |sent| == |chunks| && forall i :: 0 <= i < |sent| ==> sent[i].payload == chunks[i].payload
  }

  /** Less than half the sequence space apart: what 32-bit numbers can order at all. */
  predicate Near(x: int, y: int) {
    -HALF < x - y < HALF
  }

  /** The pair of positions falls in the branch of the comparison that always errs. */
  predicate Astray(x: int, y: int) {
    InSecondWrap(Wrap(x), Wrap(y))
  }

  /** What the comparison of two near positions comes out as. */
  lemma {:induction false} CompareOutcome(x: int, y: int)
    requires Near(x, y)
    ensures var order := CompareTCPSeq(Wrap(x), Wrap(y));
            if Astray(x, y) then x < y && order >= 0
            else if Wrap(x) == 0 && Wrap(y) == MAX_TCP_SEQ then x == y + 1 && order == 0
            else (order < 0 <==> x < y) && (order == 0 <==> x == y)
  {
    OrderOfPositions(x, y);
    WrapOfDifference(x, y);
  }

  // ---- Single decisions

  /** `insert` drops a segment as already delivered exactly when a number other than 0 is
      expected and the segment is covered or its end compares across the second wrap branch;
      so its answer is right unless the expected number 0 hides a covered segment or that
      branch catches one that is not covered. */
  lemma {:induction false} DropExactly(n: int, p: Placed)
    requires Near(n, p.End())
    ensures AlreadyDelivered(Wrap(n), Wrapped(p)) <==>
            Wrap(n) != 0 && (Covered(p, Some(n)) || Astray(n, p.End()))
    ensures (AlreadyDelivered(Wrap(n), Wrapped(p)) <==> Covered(p, Some(n))) <==>
            if Covered(p, Some(n)) then Wrap(n) != 0 else Wrap(n) == 0 || !Astray(n, p.End())
  {
    WrapOfSum(p.pos, |p.payload|);
    OrderOfPositions(n, p.End());
  }

  /** `confirm` stops before a segment exactly when it does not start before the
      acknowledgement or the pair falls in the second wrap branch. */
  lemma {:induction false} StopExactly(p: Placed, expectBegin: Uint32, ack: int)
    requires Near(p.pos, ack)
    ensures TakeTurn(Wrapped(p), expectBegin, Wrap(ack)).Stop? <==> ack <= p.pos || Astray(p.pos, ack)
  {
    OrderOfPositions(p.pos, ack);
  }

  /** The true overlap with the next position shows in the numbers. */
  predicate OverlapShows(n: int, p: Placed) {
    (Wrap(n) == 0 ==> n <= p.pos) && (Astray(n, p.pos) ==> n + 1 == p.pos)
  }

  /** A segment that starts before the acknowledgement is skipped or trimmed as its true
      overlap demands, if and only if the next byte's number is not 0 or there is no overlap,
      and the pair stays out of the second wrap branch or straddles the wrap by one. */
  lemma {:induction false} OverlapExactly(n: int, p: Placed)
    requires Near(n, p.pos)
    ensures var overlapSeen := Wrap(n) != 0 && CompareTCPSeq(Wrap(n), Wrap(p.pos)) > 0;
            (overlapSeen <==> p.pos < n) <==> OverlapShows(n, p)
  {
    OrderOfPositions(n, p.pos);
    if Astray(n, p.pos) {
      WrapOfDifference(n, p.pos);
    }
  }

  lemma {:induction false} DuplicatedSize(expectBegin: Uint32, n: int, pos: int)
    requires expectBegin == Wrap(n)
    ensures pos <= n < pos + MODULUS ==> Wrap(expectBegin - Wrap(pos)) == n - pos
    ensures n < pos <= n + MODULUS ==> Wrap(expectBegin - Wrap(pos)) == n - pos + MODULUS
  {
    WrapOfDifference(n, pos);
  }

  // ---- Insertion

  predicate Taken(held: seq<Placed>, p: Placed) {
    exists i :: 0 <= i < |held| && held[i].pos == p.pos
  }

  /** The segments the scan compares with, from the right down to the slot, are near. */
  predicate ScanNear(held: seq<Placed>, p: Placed) {
    held == [] ||
    (var last := |held| - 1;
     Near(held[last].pos, p.pos) && (p.pos < held[last].pos ==> ScanNear(held[..last], p)))
  }

  /** The scan passes no pair of the second wrap branch, and if it takes number 0 for a
      duplicate of the last number, the position is indeed taken. */
  predicate ScanExact(held: seq<Placed>, p: Placed) {
    held == [] ||
    (var last := |held| - 1;
     && !Astray(held[last].pos, p.pos)
     && (p.pos < held[last].pos ==>
           if Wrap(held[last].pos) == 0 && Wrap(p.pos) == MAX_TCP_SEQ then Taken(held, p)
           else ScanExact(held[..last], p)))
  }

  /** The window's segments after the scan. */
  function Inserted(segments: seq<Segment>, s: Segment): seq<Segment> {
    match FindSlot(segments, s.seqNo)
    case None => segments
    case Some(slot) => segments[..slot] + [s] + segments[slot..]
  }

  lemma {:induction false} PlaceAt(held: seq<Placed>, p: Placed, slot: nat)
    requires slot <= |held|
    requires forall i :: 0 <= i < slot ==> held[i].pos < p.pos
    requires slot < |held| ==> p.pos < held[slot].pos
    ensures Place(held, p) == held[..slot] + [p] + held[slot..]
  {
    if slot > 0 {
      PlaceAt(held[1..], p, slot - 1);
      assert held[..slot] == [held[0]] + held[1..][..slot - 1];
      assert held[1..][slot - 1..] == held[slot..];
    }
  }

  lemma {:induction false} PlaceOccupied(held: seq<Placed>, p: Placed, i: nat)
    requires Increasing(held) && i < |held| && held[i].pos == p.pos
    ensures Place(held, p) == held
  {
    if i > 0 {
      assert held[0].pos < held[i].pos;
      PlaceOccupied(held[1..], p, i - 1);
      assert [held[0]] + held[1..] == held;
    }
  }

  lemma {:induction false} PlaceGrows(held: seq<Placed>, p: Placed)
    requires !Taken(held, p)
    ensures |Place(held, p)| == |held| + 1
  {
    if held != [] && held[0].pos < p.pos {
      forall i | 0 <= i < |held[1..]| ensures held[1..][i].pos != p.pos {
        assert held[1..][i] == held[i + 1];
      }
      PlaceGrows(held[1..], p);
    } else {
      assert held != [] ==> held[0].pos != p.pos;
    }
  }

  /** Insertion before the last segment is insertion into the others. */
  lemma {:induction false} PlaceBeforeLast(held: seq<Placed>, p: Placed)
    requires Increasing(held) && held != [] && p.pos < held[|held| - 1].pos
    ensures Place(held, p) == Place(held[..|held| - 1], p) + held[|held| - 1..]
  {
    var last := |held| - 1;
    if held[0].pos < p.pos {
      PlaceBeforeLast(held[1..], p);
      assert held[1..][..last - 1] == held[..last][1..];
      assert held[1..][last - 1..] == held[last..];
    } else {
      assert held == held[..last] + held[last..];
      assert last > 0 ==> held[..last][0] == held[0];
    }
  }

  /** The scan puts a segment where its position belongs, or finds the position taken, if and
      only if no comparison it makes goes astray. */
  lemma {:induction false} ScanExactly(segments: seq<Segment>, held: seq<Placed>, p: Placed)
    requires SegmentsOf(segments, held) && Increasing(held) && ScanNear(held, p)
    ensures SegmentsOf(Inserted(segments, Wrapped(p)), Place(held, p)) <==> ScanExact(held, p)
  {
    if held == [] {
      assert Inserted(segments, Wrapped(p)) == [Wrapped(p)] && Place(held, p) == [p];
    } else {
      var last := |held| - 1;
      CompareOutcome(held[last].pos, p.pos);
      if Astray(held[last].pos, p.pos) {
        ScanAstray(segments, held, p);
      } else if p.pos < held[last].pos {
        if Wrap(held[last].pos) == 0 && Wrap(p.pos) == MAX_TCP_SEQ {
          assert Inserted(segments, Wrapped(p)) == segments;
          TakenExactly(segments, held, p);
        } else {
          ScanExactly(segments[..last], held[..last], p);
          BeforeLast(segments, held, p);
        }
        hide Inserted, Place, SegmentsOf, Taken, CompareTCPSeq, Wrap;
      } else {
        PlaceAtLast(held, p);
        hide Place, CompareTCPSeq, Wrap;
      }
    }
  }

  lemma {:induction false} BeforeLast(segments: seq<Segment>, held: seq<Placed>, p: Placed)
    requires SegmentsOf(segments, held) && Increasing(held) && held != [] && p.pos < held[|held| - 1].pos
    requires CompareTCPSeq(segments[|held| - 1].seqNo, Wrap(p.pos)) > 0
    ensures var last := |held| - 1;
            SegmentsOf(Inserted(segments, Wrapped(p)), Place(held, p)) <==>
            SegmentsOf(Inserted(segments[..last], Wrapped(p)), Place(held[..last], p))
  {
    hide Inserted, Place;
    var last := |held| - 1;
    InsertedBeforeLast(segments, Wrapped(p));
    PlaceBeforeLast(held, p);
    assert segments[last..] == [Wrapped(held[last])] && held[last..] == [held[last]];
    SegmentsAppend(Inserted(segments[..last], Wrapped(p)), Place(held[..last], p), held[last]);
  }

  lemma {:induction false} SegmentsAppend(segments: seq<Segment>, held: seq<Placed>, last: Placed)
    ensures SegmentsOf(segments + [Wrapped(last)], held + [last]) <==> SegmentsOf(segments, held)
  {
    var s, h := segments + [Wrapped(last)], held + [last];
    if SegmentsOf(s, h) {
      forall i | 0 <= i < |held| ensures segments[i] == Wrapped(held[i]) {
        assert s[i] == Wrapped(h[i]);
      }
    }
  }

  lemma {:induction false} PlaceAtLast(held: seq<Placed>, p: Placed)
    requires Increasing(held) && held != []
    ensures var last := held[|held| - 1];
            && (p.pos == last.pos ==> Place(held, p) == held)
            && (last.pos < p.pos ==> Place(held, p) == held + [p])
  {
    if p.pos == held[|held| - 1].pos {
      PlaceOccupied(held, p, |held| - 1);
    } else if held[|held| - 1].pos < p.pos {
      PlaceAt(held, p, |held|);
    }
  }

  lemma {:induction false} TakenExactly(segments: seq<Segment>, held: seq<Placed>, p: Placed)
    requires SegmentsOf(segments, held) && Increasing(held)
    ensures SegmentsOf(segments, Place(held, p)) <==> Taken(held, p)
  {
    if Taken(held, p) {
      var i :| 0 <= i < |held| && held[i].pos == p.pos;
      PlaceOccupied(held, p, i);
    } else {
      PlaceGrows(held, p);
    }
  }

  lemma {:induction false} InsertedBeforeLast(segments: seq<Segment>, s: Segment)
    requires segments != [] && CompareTCPSeq(segments[|segments| - 1].seqNo, s.seqNo) > 0
    ensures Inserted(segments, s) == Inserted(segments[..|segments| - 1], s) + segments[|segments| - 1..]
  {
    var last := |segments| - 1;
    assert segments == segments[..last] + segments[last..];
  }

  /** A pair astray at the right end: the segment belongs after the last one, and ends up
      before it or nowhere. */
  lemma {:induction false} ScanAstray(segments: seq<Segment>, held: seq<Placed>, p: Placed)
    requires SegmentsOf(segments, held) && Increasing(held) && held != []
    requires Near(held[|held| - 1].pos, p.pos) && Astray(held[|held| - 1].pos, p.pos)
    ensures !SegmentsOf(Inserted(segments, Wrapped(p)), Place(held, p))
  {
    var last := |held| - 1;
    CompareOutcome(held[last].pos, p.pos);
    PlaceAt(held, p, |held|);
    assert Place(held, p)[last + 1] == p;
    var inserted := Inserted(segments, Wrapped(p));
    if |inserted| == |held| + 1 {
      InsertedBeforeLast(segments, Wrapped(p));
      assert inserted[last + 1] == segments[last];
    }
  }

  /** The code drops the segment although it is not covered. */
  predicate WronglyDropped(next: Option<int>, p: Placed) {
    next.Some? && Astray(next.value, p.End())
  }

  predicate ArrivalNear(v: Ideal, p: Placed) {
    p.payload != [] ==>
      && (v.next.Some? ==> Near(v.next.value, p.End()))
      && (!Covered(p, v.next) && !WronglyDropped(v.next, p) ==> ScanNear(v.held, p))
  }

  /** Nothing to insert, or a wrong drop of a segment whose position is taken anyway, or a
      scan that goes right. */
  predicate ArrivalExact(v: Ideal, p: Placed) {
    p.payload == [] || Covered(p, v.next) ||
    if WronglyDropped(v.next, p) then Taken(v.held, p) else ScanExact(v.held, p)
  }

  /** Insertion by numbers is insertion by positions, if and only if the arrival is exact. */
  lemma {:induction false} ArrivalExactly(w: Window, v: Ideal, p: Placed)
    requires Represents(w, v) && Increasing(v.held) && ArrivalNear(v, p)
    ensures Represents(Insert(w, Wrapped(p)), Arrive(v, p)) <==> ArrivalExact(v, p)
  {
    if p.payload != [] {
      if v.next.Some? {
        DropExactly(v.next.value, p);
      }
      if !Covered(p, v.next) {
        if WronglyDropped(v.next, p) {
          TakenExactly(w.segments, v.held, p);
        } else {
          ScanExactly(w.segments, v.held, p);
        }
      }
    }
  }

  // ---- One turn of the delivery loop

  predicate TurnNear(p: Placed, next: Option<int>, ack: int) {
    && Near(p.pos, ack)
    && (p.pos < ack && !Astray(p.pos, ack) ==>
          |p.payload| < MODULUS && (next.Some? ==> Near(next.value, p.pos)))
  }

  /** The turn stops, skips or sends as the true positions call for. */
  predicate TurnAgrees(turn: Turn, p: Placed, next: Option<int>, ack: int) {
    match turn
    case Stop => ack <= p.pos
    case Skip => p.pos < ack && Covered(p, next)
    case Send(t, e) =>
      p.pos < ack && !Covered(p, next) && t.payload == Trim(p, next).payload && e == Wrap(p.End())
  }

  predicate TurnExact(p: Placed, next: Option<int>, ack: int) {
    ack <= p.pos || (!Astray(p.pos, ack) && (next.Some? ==> OverlapShows(next.value, p)))
  }

  /** A turn of the loop is right if and only if it is exact. */
  lemma {:induction false} TurnExactly(p: Placed, next: Option<int>, ack: int)
    requires p.payload != [] && TurnNear(p, next, ack)
    ensures TurnAgrees(TakeTurn(Wrapped(p), NumberOf(next), Wrap(ack)), p, next, ack) <==> TurnExact(p, next, ack)
  {
    StopExactly(p, NumberOf(next), ack);
    if p.pos < ack && !Astray(p.pos, ack) {
      WrapOfSum(p.pos, |p.payload|);
      if next.Some? {
        var seen := Wrap(next.value) != 0 && CompareTCPSeq(Wrap(next.value), Wrap(p.pos)) > 0;
        OverlapExactly(next.value, p);
        TurnOnOverlap(p, next.value, ack, seen);
      }
    }
  }

  /** Past the stop, the turn is right if and only if it sees an overlap where there is one. */
  lemma {:induction false} TurnOnOverlap(p: Placed, n: int, ack: int, seen: bool)
    requires p.payload != [] && |p.payload| < MODULUS && Near(n, p.pos) && p.pos < ack
    requires CompareTCPSeq(Wrap(p.pos), Wrap(ack)) < 0 && Wrap(p.pos + |p.payload|) == Wrap(Wrap(p.pos) + |p.payload|)
    requires seen == (Wrap(n) != 0 && CompareTCPSeq(Wrap(n), Wrap(p.pos)) > 0)
    ensures TurnAgrees(TakeTurn(Wrapped(p), Wrap(n), Wrap(ack)), p, Some(n), ack) <==> (seen <==> p.pos < n)
  {
    DuplicatedSize(Wrap(n), n, p.pos);
    CompareOutcome(n, p.pos);
    assert Wrap(|p.payload|) == |p.payload|;
    var duplicated := Wrap(Wrap(n) - Wrap(p.pos));
    hide CompareTCPSeq, Wrap;
    if p.pos < n {
      assert duplicated == n - p.pos;
      assert seen && n < p.End() ==> p.payload[duplicated..] == Trim(p, Some(n)).payload;
      assert !seen && n < p.End() ==> |Trim(p, Some(n)).payload| < |p.payload|;
    } else {
      assert Trim(p, Some(n)) == p;
      assert seen && duplicated < |p.payload| ==> |p.payload[duplicated..]| < |p.payload|;
    }
  }

  // ---- One acknowledgement

  predicate AckNear(held: seq<Placed>, next: Option<int>, ack: int) {
    held == [] ||
    (&& TurnNear(held[0], next, ack)
     && (held[0].pos < ack && !Astray(held[0].pos, ack) ==> AckNear(held[1..], After(held[0], next), ack)))
  }

  /** The next position after a segment has been dealt with. */
  function After(p: Placed, next: Option<int>): Option<int> {
    if Covered(p, next) then next else Some(p.End())
  }

  /** Every turn is exact, and the position reached is not mistaken for "none yet". */
  predicate AckExact(held: seq<Placed>, next: Option<int>, ack: int) {
    if held == [] || ack <= held[0].pos then Visible(next)
    else TurnExact(held[0], next, ack) && AckExact(held[1..], After(held[0], next), ack)
  }

  /** The loop takes the right decision at every turn and ends in a window that represents
      what the positions call for. */
  predicate EveryTurnAgrees(segments: seq<Segment>, held: seq<Placed>, expectBegin: Uint32, next: Option<int>, ack: int)
    requires |segments| == |held|
  {
    if held == [] then ExpectOf(expectBegin, next)
    else
      var turn := TakeTurn(segments[0], expectBegin, Wrap(ack));
      && TurnAgrees(turn, held[0], next, ack)
      && match turn
         case Stop => ExpectOf(expectBegin, next)
         case Skip => EveryTurnAgrees(segments[1..], held[1..], expectBegin, next, ack)
         case Send(_, e) => EveryTurnAgrees(segments[1..], held[1..], e, Some(held[0].End()), ack)
  }

  /** Turn by turn, an acknowledgement is dealt with rightly if and only if it is exact. */
  lemma {:induction false} EveryTurnAgreesExactly(segments: seq<Segment>, held: seq<Placed>, next: Option<int>,
                                                  ack: int)
    requires SegmentsOf(segments, held) && NonEmpty(held) && AckNear(held, next, ack)
    ensures EveryTurnAgrees(segments, held, NumberOf(next), next, ack) <==> AckExact(held, next, ack)
  {
    if held != [] {
      var p := held[0];
      TurnExactly(p, next, ack);
      if p.pos < ack && TurnExact(p, next, ack) {
        EveryTurnAgreesExactly(segments[1..], held[1..], After(p, next), ack);
      }
    }
  }

  predicate AckTracks(segments: seq<Segment>, held: seq<Placed>, expectBegin: Uint32, next: Option<int>, ack: int) {
    var d, r := Deliver(segments, expectBegin, Wrap(ack)), Drain(held, next, ack);
    SegmentsOf(d.rest, r.rest) && ExpectOf(d.expectBegin, r.next) && SamePayloads(d.sent, r.sent)
  }

  /** An exact acknowledgement sends the payloads the positions call for and leaves a window
      that represents what they call for. */
  lemma {:induction false} ExactAckTracks(segments: seq<Segment>, held: seq<Placed>, next: Option<int>, ack: int)
    requires SegmentsOf(segments, held) && NonEmpty(held) && AckNear(held, next, ack)
    requires AckExact(held, next, ack)
    ensures AckTracks(segments, held, NumberOf(next), next, ack)
  {
    if held != [] {
      var p := held[0];
      TurnExactly(p, next, ack);
      if p.pos < ack {
        ExactAckTracks(segments[1..], held[1..], After(p, next), ack);
      }
    }
  }

  // ---- The outcome of an acknowledgement tells whether it was exact

  /** No position of number 0, be it the next one or the end of a held segment, lies within a
      later segment that starts before the acknowledgement. */
  predicate ZeroClear(held: seq<Placed>, next: Option<int>, ack: int) {
    && (next.Some? && Wrap(next.value) == 0 ==>
          forall j :: 0 <= j < |held| && held[j].pos < ack ==> next.value <= held[j].pos)
    && (forall i, j :: 0 <= i < j < |held| && held[j].pos < ack && held[j].pos < held[i].End() ==>
          Wrap(held[i].End()) != 0)
  }

  lemma {:induction false} ZeroClearTail(held: seq<Placed>, next: Option<int>, ack: int)
    requires held != [] && ZeroClear(held, next, ack)
    ensures ZeroClear(held[1..], next, ack) && ZeroClear(held[1..], Some(held[0].End()), ack)
  {
    var tail := held[1..];
    forall i, j | 0 <= i < j < |tail| && tail[j].pos < ack && tail[j].pos < tail[i].End()
      ensures Wrap(tail[i].End()) != 0
    {
      assert tail[i] == held[i + 1] && tail[j] == held[j + 1];
    }
    forall j | 0 <= j < |tail| && tail[j].pos < ack && tail[j].pos < held[0].End()
      ensures Wrap(held[0].End()) != 0
    {
      assert tail[j] == held[j + 1];
    }
  }

  lemma {:induction false} TextOfSamePayloads(sent: seq<Segment>, chunks: seq<Placed>)
    requires SamePayloads(sent, chunks)
    ensures Bytes(sent) == Text(chunks)
  {
    if sent != [] {
      assert sent[0].payload == chunks[0].payload;
      TextOfSamePayloads(sent[1..], chunks[1..]);
    }
  }

  /** With `c` delivered and no position of number 0 in the way, a turn never sends a byte
      before `c`. */
  lemma {:induction false} TurnIsBounded(p: Placed, c: int, e: int, ack: int)
    requires c <= e && Near(e, p.pos) && |p.payload| < MODULUS && (Wrap(c) == 0 ==> c <= p.pos)
    ensures match TakeTurn(Wrapped(p), Wrap(c), Wrap(ack))
            case Send(t, x) =>
              x == Wrap(p.End()) && |t.payload| <= |p.payload| && (p.pos < c ==> |t.payload| <= p.End() - c)
            case _ => true
  {
    WrapOfSum(p.pos, |p.payload|);
    if p.pos < c {
      CompareOutcome(c, p.pos);
      DuplicatedSize(Wrap(c), c, p.pos);
    }
  }

  /** Having delivered no further than `e`, and nothing after `lo` yet, the code's loop sends
      at most the bytes that are to be delivered after `e` and those from `lo` to `e`. */
  lemma {:induction false} DeliverIsBounded(segments: seq<Segment>, held: seq<Placed>, c: int, e: int, lo: int,
                                            ack: int)
    requires SegmentsOf(segments, held) && Increasing(held)
    requires AckNear(held, Some(e), ack) && ZeroClear(held, Some(c), ack) && c <= e && lo <= e
    requires lo <= c || forall i :: 0 <= i < |held| ==> lo <= held[i].pos
    ensures |Bytes(Deliver(segments, Wrap(c), Wrap(ack)).sent)| <= |Text(Drain(held, Some(e), ack).sent)| + e - lo
  {
    if held != [] {
      var p := held[0];
      StopExactly(p, Wrap(c), ack);
      if p.pos < ack && !Astray(p.pos, ack) {
        TurnIsBounded(p, c, e, ack);
        ZeroClearTail(held, Some(c), ack);
        var e' := if Covered(p, Some(e)) then e else p.End();
        match TakeTurn(segments[0], Wrap(c), Wrap(ack))
        case Skip => DeliverIsBounded(segments[1..], held[1..], c, e', if e < p.pos then p.pos else lo, ack);
        case Send(t, x) => DeliverIsBounded(segments[1..], held[1..], p.End(), e', p.End(), ack);
      }
    }
  }

  /** A segment skipped for an overlap that is not there cannot be made up for: fewer bytes
      are sent than the positions call for. */
  lemma {:induction false} WrongSkipShows(segments: seq<Segment>, held: seq<Placed>, n: int, ack: int)
    requires SegmentsOf(segments, held) && Increasing(held) && held != []
    requires n < held[0].pos < ack && held[0].payload != [] && Wrap(n) != 0
    requires AckNear(held[1..], Some(held[0].End()), ack) && ZeroClear(held[1..], Some(n), ack)
    ensures !SamePayloads(Deliver(segments[1..], Wrap(n), Wrap(ack)).sent, Drain(held, Some(n), ack).sent)
  {
    var p := held[0];
    var d, r := Deliver(segments[1..], Wrap(n), Wrap(ack)), Drain(held, Some(n), ack);
    DeliverIsBounded(segments[1..], held[1..], n, p.End(), p.pos + 1, ack);
    assert r.sent == [p] + Drain(held[1..], Some(p.End()), ack).sent;
    assert |Bytes(d.sent)| < |Text(r.sent)|;
    if SamePayloads(d.sent, r.sent) {
      TextOfSamePayloads(d.sent, r.sent);
    }
  }

  /** An acknowledgement sends the payloads the positions call for, and leaves a window that
      represents what they call for, if and only if it is exact. */
  lemma {:induction false} AckTracksExactly(segments: seq<Segment>, held: seq<Placed>, next: Option<int>, ack: int)
    requires SegmentsOf(segments, held) && Increasing(held) && NonEmpty(held)
    requires AckNear(held, next, ack) && ZeroClear(held, next, ack)
    ensures AckTracks(segments, held, NumberOf(next), next, ack) <==> AckExact(held, next, ack)
  {
    if held == [] || ack <= held[0].pos {
      NothingToDeliver(segments, held, next, ack);
    } else {
      var p := held[0];
      hide AckTracks, SegmentsOf, OverlapShows, Wrap;
      TurnExactly(p, next, ack);
      HeadAndTail(segments, held, next, ack);
      if TurnExact(p, next, ack) {
        AckTracksExactly(segments[1..], held[1..], After(p, next), ack);
        AgreedTurn(segments, held, next, ack);
      } else if Astray(p.pos, ack) {
        WrongStop(segments, held, next, ack);
      } else {
        WrongTurn(segments, held, next.value, ack);
      }
    }
  }

  lemma {:induction false} NothingToDeliver(segments: seq<Segment>, held: seq<Placed>, next: Option<int>, ack: int)
    requires SegmentsOf(segments, held) && AckNear(held, next, ack) && (held == [] || ack <= held[0].pos)
    ensures AckTracks(segments, held, NumberOf(next), next, ack) <==> Visible(next)
  {
    if held != [] {
      StopExactly(held[0], NumberOf(next), ack);
    }
  }

  lemma {:induction false} HeadAndTail(segments: seq<Segment>, held: seq<Placed>, next: Option<int>, ack: int)
    requires SegmentsOf(segments, held) && Increasing(held) && NonEmpty(held) && held != []
    requires ZeroClear(held, next, ack)
    ensures segments != [] && segments[0] == Wrapped(held[0]) && held[0].payload != []
    ensures SegmentsOf(segments[1..], held[1..]) && Increasing(held[1..]) && NonEmpty(held[1..])
    ensures ZeroClear(held[1..], After(held[0], next), ack)
  {
    ZeroClearTail(held, next, ack);
  }

  lemma {:induction false} WrongStop(segments: seq<Segment>, held: seq<Placed>, next: Option<int>, ack: int)
    requires SegmentsOf(segments, held) && held != [] && held[0].pos < ack
    requires Near(held[0].pos, ack) && Astray(held[0].pos, ack)
    ensures !AckTracks(segments, held, NumberOf(next), next, ack)
  {
    StopExactly(held[0], NumberOf(next), ack);
    DrainLeavesSuffix(held[1..], After(held[0], next), ack);
  }

  /** After a turn that went right the rest decides. */
  lemma {:induction false} AgreedTurn(segments: seq<Segment>, held: seq<Placed>, next: Option<int>, ack: int)
    requires SegmentsOf(segments, held) && held != [] && held[0].pos < ack
    requires TurnAgrees(TakeTurn(segments[0], NumberOf(next), Wrap(ack)), held[0], next, ack)
    ensures AckTracks(segments, held, NumberOf(next), next, ack) <==>
            AckTracks(segments[1..], held[1..], NumberOf(After(held[0], next)), After(held[0], next), ack)
  {
    var p := held[0];
    if !Covered(p, next) {
      var d := Deliver(segments[1..], Wrap(p.End()), Wrap(ack)).sent;
      var r := Drain(held[1..], Some(p.End()), ack).sent;
      var t := TakeTurn(segments[0], NumberOf(next), Wrap(ack)).segment;
      hide TakeTurn;
      SamePayloadsCons(t, Trim(p, next), d, r);
    }
  }

  lemma {:induction false} SamePayloadsCons(s: Segment, chunk: Placed, sent: seq<Segment>, chunks: seq<Placed>)
    requires s.payload == chunk.payload
    ensures SamePayloads([s] + sent, [chunk] + chunks) <==> SamePayloads(sent, chunks)
  {
    if SamePayloads([s] + sent, [chunk] + chunks) {
      forall i | 0 <= i < |sent| ensures sent[i].payload == chunks[i].payload {
        assert ([s] + sent)[i + 1].payload == ([chunk] + chunks)[i + 1].payload;
      }
    }
  }

  lemma {:induction false} WrongTurn(segments: seq<Segment>, held: seq<Placed>, n: int, ack: int)
    requires SegmentsOf(segments, held) && Increasing(held) && held != [] && held[0].payload != []
    requires AckNear(held, Some(n), ack) && ZeroClear(held, Some(n), ack)
    requires held[0].pos < ack && !Astray(held[0].pos, ack) && !OverlapShows(n, held[0])
    ensures !AckTracks(segments, held, Wrap(n), Some(n), ack)
  {
    var p := held[0];
    hide CompareTCPSeq, OverlapShows;
    WrongOverlap(p, n, ack);
    ZeroClearTail(held, Some(n), ack);
    var r := Drain(held, Some(n), ack);
    assert r.sent[0] == p;
    match TakeTurn(segments[0], Wrap(n), Wrap(ack))
    case Skip => WrongSkipShows(segments, held, n, ack);
    case Send(t, e) =>
      var d := Deliver(segments, Wrap(n), Wrap(ack));
      assert d.sent[0] == t;
  }

  /** A wrongly seen overlap: the segment is skipped or loses bytes. */
  lemma {:induction false} WrongOverlap(p: Placed, n: int, ack: int)
    requires Near(n, p.pos) && Near(p.pos, ack) && p.payload != []
    requires p.pos < ack && !Astray(p.pos, ack) && !OverlapShows(n, p) && (Wrap(n) == 0 ==> n <= p.pos)
    ensures n < p.pos && Wrap(n) != 0 && Trim(p, Some(n)) == p
    ensures match TakeTurn(Wrapped(p), Wrap(n), Wrap(ack))
            case Stop => false
            case Skip => true
            case Send(t, _) => |t.payload| < |p.payload|
  {
    StopExactly(p, Wrap(n), ack);
    OverlapExactly(n, p);
    DuplicatedSize(Wrap(n), n, p.pos);
  }

  // ---- Right by coincidence

  const FIRST := Placed(MODULUS - 3, [1, 7, 1])
  const TWICE := Placed(MODULUS - 2, [7])
  const LOST := Placed(MODULUS + 5, [7])
  const LATER := Placed(MODULUS + 0x1_0000, [9])

  /** Without that condition the outcome can be right by coincidence: a segment sent twice over
      has the payload of one that is lost, and both windows meet again after them. */
  lemma {:induction false} RightByCoincidence(segments: seq<Segment>)
    requires segments == [Wrapped(FIRST), Wrapped(TWICE), Wrapped(LOST), Wrapped(LATER)]
    ensures var held, ack := [FIRST, TWICE, LOST, LATER], MODULUS + 0x2_0000;
            && SegmentsOf(segments, held) && AckNear(held, None, ack)
            && AckTracks(segments, held, 0, None, ack) && !AckExact(held, None, ack)
  {
    CodeSends(Wrapped(FIRST), Wrapped(TWICE), Wrapped(LOST), Wrapped(LATER));
    PositionsCallFor(FIRST, TWICE, LOST, LATER, MODULUS + 0x2_0000);
    assert Wrap(MODULUS + 0x2_0000) == 0x2_0000 && Wrap(MODULUS + 0x1_0001) == 0x1_0001;
    hide Deliver, Drain, AckExact, AckNear;
  }

  lemma {:induction false} CodeSends(a: Segment, b: Segment, c: Segment, d: Segment)
    requires a == Wrapped(FIRST) && b == Wrapped(TWICE) && c == Wrapped(LOST) && d == Wrapped(LATER)
    ensures Deliver([a, b, c, d], 0, 0x2_0000) == Delivery([a, b, d], [], 0x1_0001)
  {
    assert [a, b, c, d][1..] == [b, c, d] && [b, c, d][1..] == [c, d] && [c, d][1..] == [d] && [d][1..] == [];
    CodeTurns(a, b, c, d);
    hide TakeTurn, Wrapped;
    assert Deliver([d], MAX_TCP_SEQ, 0x2_0000) == Delivery([d], [], 0x1_0001);
    assert Deliver([c, d], MAX_TCP_SEQ, 0x2_0000) == Delivery([d], [], 0x1_0001);
    assert Deliver([b, c, d], 0, 0x2_0000) == Delivery([b] + [d], [], 0x1_0001);
    assert Deliver([a, b, c, d], 0, 0x2_0000) == Delivery([a] + ([b] + [d]), [], 0x1_0001);
  }

  lemma {:induction false} CodeTurns(a: Segment, b: Segment, c: Segment, d: Segment)
    requires a == Wrapped(FIRST) && b == Wrapped(TWICE) && c == Wrapped(LOST) && d == Wrapped(LATER)
    ensures TakeTurn(a, 0, 0x2_0000) == Send(a, 0)
    ensures TakeTurn(b, 0, 0x2_0000) == Send(b, MAX_TCP_SEQ)
    ensures TakeTurn(c, MAX_TCP_SEQ, 0x2_0000) == Skip
    ensures TakeTurn(d, MAX_TCP_SEQ, 0x2_0000) == Send(d, 0x1_0001)
  {
    assert a.End() == 0 && b.End() == MAX_TCP_SEQ && d.End() == 0x1_0001;
    CompareLiterals();
    assert Wrap(MAX_TCP_SEQ - 5) >= Wrap(|c.payload|);
    hide CompareTCPSeq, Wrap;
  }

  lemma {:induction false} CompareLiterals()
    ensures CompareTCPSeq(0xFFFF_FFFD, 0x2_0000) < 0 && CompareTCPSeq(0xFFFF_FFFE, 0x2_0000) < 0
    ensures CompareTCPSeq(5, 0x2_0000) < 0 && CompareTCPSeq(0x1_0000, 0x2_0000) < 0
    ensures CompareTCPSeq(MAX_TCP_SEQ, 5) > 0 && CompareTCPSeq(MAX_TCP_SEQ, 0x1_0000) < 0
  {
  }

  lemma {:induction false} PositionsCallFor(g: Placed, h: Placed, k: Placed, l: Placed, ack: int)
    requires g == FIRST && h == TWICE && k == LOST && l == LATER && ack == MODULUS + 0x2_0000
    ensures Drain([g, h, k, l], None, ack) == Release([g, k, l], [], Some(MODULUS + 0x1_0001))
    ensures AckNear([g, h, k, l], None, ack) && !AckExact([g, h, k, l], None, ack)
  {
    assert [g, h, k, l][1..] == [h, k, l] && [h, k, l][1..] == [k, l] && [k, l][1..] == [l] && [l][1..] == [];
    assert Drain([l], Some(LOST.End()), ack) == Release([l], [], Some(LATER.End()));
    assert Drain([k, l], Some(MODULUS), ack) == Release([k] + [l], [], Some(LATER.End()));
    assert Drain([h, k, l], Some(MODULUS), ack) == Release([k] + [l], [], Some(LATER.End()));
    assert Drain([g, h, k, l], None, ack) == Release([g] + ([k] + [l]), [], Some(LATER.End()));
    assert AckNear([l], Some(LOST.End()), ack) && AckNear([k, l], Some(MODULUS), ack);
    assert AckNear([h, k, l], Some(MODULUS), ack);
    assert !OverlapShows(MODULUS, h);
    assert !AckExact([h, k, l], Some(MODULUS), ack);
  }
}
