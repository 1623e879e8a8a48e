/** Reassembly against the stream the segments were cut from: positions are unwrapped
    integers and comparisons are those of the integers. */
module TrueStream {
  import opened Basics

  datatype Placed = Placed(pos: int, payload: seq<Byte>) {
    function End(): int {
      pos + |payload|
    }
  }

  /** The window with true positions; `next` is the position after the last delivered byte. */
  datatype Ideal = Ideal(held: seq<Placed>, next: Option<int>)

  const EMPTY := Ideal([], None)

  predicate Increasing(held: seq<Placed>) {
    forall i, j :: 0 <= i < j < |held| ==> held[i].pos < held[j].pos
  }

  predicate NonEmpty(held: seq<Placed>) {
    forall i :: 0 <= i < |held| ==> held[i].payload != []
  }

  /** Sorted insertion; a position already taken keeps its first occupant. */
  function Place(held: seq<Placed>, p: Placed): seq<Placed> {
    if held == [] then [p]
    else if held[0].pos == p.pos then held
    else if p.pos < held[0].pos then [p] + held
    else [held[0]] + Place(held[1..], p)
  }

  function Arrive(w: Ideal, p: Placed): Ideal {
    if p.payload == [] || Covered(p, w.next) then w
    else w.(held := Place(w.held, p))
  }

  /** True when the segment holds nothing past the delivered prefix. */
  predicate Covered(p: Placed, next: Option<int>) {
    next.Some? && p.End() <= next.value
  }

  /** The part of the segment past the delivered prefix. */
  function Trim(p: Placed, next: Option<int>): (chunk: Placed)
    requires !Covered(p, next)
    ensures chunk.End() == p.End()
  {
    if next.Some? && p.pos < next.value then Placed(next.value, p.payload[next.value - p.pos..]) else p
  }

  datatype Release = Release(sent: seq<Placed>, rest: seq<Placed>, next: Option<int>)

  /** Deliver the segments that start before `ack`, each cut at the front where it overlaps
      what was delivered before it. */
  function Drain(held: seq<Placed>, next: Option<int>, ack: int): (r: Release)
  {
    if held == [] || ack <= held[0].pos then Release([], held, next)
    else
      var first := held[0];
      if Covered(first, next) then Drain(held[1..], next, ack)
      else
        var r := Drain(held[1..], Some(first.End()), ack);
        Release([Trim(first, next)] + r.sent, r.rest, r.next)
  }

  function Acknowledge(w: Ideal, ack: int): (r: (Ideal, seq<Placed>)) {
    var r := Drain(w.held, w.next, ack);
    (Ideal(r.rest, r.next), r.sent)
  }

  datatype Event = Arrival(segment: Placed) | Ack(pos: int)

  function Step(w: Ideal, e: Event): (Ideal, seq<Placed>) {
    match e
    case Arrival(p) => (Arrive(w, p), [])
    case Ack(a) => Acknowledge(w, a)
  }

  function Run(w: Ideal, events: seq<Event>): (r: (Ideal, seq<Placed>))
    decreases |events|
  {
    if events == [] then (w, []) else
      var (w1, sent) := Step(w, events[0]);
      var (w2, more) := Run(w1, events[1..]);
      (w2, sent + more)
  }

  // ---- What every reachable window satisfies

  ghost predicate Valid(w: Ideal) {
    Increasing(w.held) && NonEmpty(w.held)
  }

  lemma {:induction false} PlaceIsSortedInsertion(held: seq<Placed>, p: Placed)
    requires Increasing(held)
    ensures Increasing(Place(held, p))
    ensures forall q :: q in Place(held, p) <==>
              q in held || (q == p && forall h :: h in held ==> h.pos != p.pos)
  {
    if held == [] || p.pos < held[0].pos || held[0].pos == p.pos {
    } else {
      var tail := Place(held[1..], p);
      PlaceIsSortedInsertion(held[1..], p);
      assert held == [held[0]] + held[1..];
      forall i | 0 <= i < |tail| ensures held[0].pos < tail[i].pos {
        assert tail[i] in tail;
      }
    }
  }

  lemma {:induction false} ArriveKeepsValid(w: Ideal, p: Placed)
    requires Valid(w)
    ensures Valid(Arrive(w, p))
  {
    PlaceIsSortedInsertion(w.held, p);
    forall i | 0 <= i < |Place(w.held, p)| && p.payload != []
      ensures Place(w.held, p)[i].payload != []
    {
      assert Place(w.held, p)[i] in Place(w.held, p);
    }
  }

  lemma {:induction false} DrainLeavesSuffix(held: seq<Placed>, next: Option<int>, ack: int)
    ensures var r := Drain(held, next, ack); |r.rest| <= |held| && r.rest == held[|held| - |r.rest|..]
  {
    if held != [] && held[0].pos < ack {
      DrainLeavesSuffix(held[1..], if Covered(held[0], next) then next else Some(held[0].End()), ack);
    }
  }

  lemma {:induction false} StepKeepsValid(w: Ideal, e: Event)
    requires Valid(w)
    ensures Valid(Step(w, e).0)
  {
    match e
    case Arrival(p) => ArriveKeepsValid(w, p);
    case Ack(a) => DrainLeavesSuffix(w.held, w.next, a);
  }

  // ---- Safety: what is delivered is the stream, each byte at most once and in order

  /** The segment's payload is what the stream holds at its position. */
  ghost predicate CutFrom(stream: int -> Byte, p: Placed) {
    forall i :: 0 <= i < |p.payload| ==> p.payload[i] == stream(p.pos + i)
  }

  ghost predicate AllCutFrom(stream: int -> Byte, ps: seq<Placed>) {
    forall i :: 0 <= i < |ps| ==> CutFrom(stream, ps[i])
  }

  ghost predicate EventsCutFrom(stream: int -> Byte, events: seq<Event>) {
    forall i :: 0 <= i < |events| && events[i].Arrival? ==> CutFrom(stream, events[i].segment)
  }

  /** Non-empty chunks, each starting no earlier than the end of the one before it, the
      first of them no earlier than `from`; they end at `to`. */
  ghost predicate InOrder(chunks: seq<Placed>, from: Option<int>, to: Option<int>) {
    && NonEmpty(chunks)
    && (forall i, j :: 0 <= i < j < |chunks| ==> chunks[i].End() <= chunks[j].pos)
    && (from.Some? ==> forall i :: 0 <= i < |chunks| ==> from.value <= chunks[i].pos)
    && to == if chunks == [] then from else Some(chunks[|chunks| - 1].End())
  }

  lemma {:induction false} InOrderConcat(a: seq<Placed>, b: seq<Placed>, from: Option<int>, mid: Option<int>,
                                         to: Option<int>)
    requires InOrder(a, from, mid) && InOrder(b, mid, to)
    ensures InOrder(a + b, from, to)
  {
    if a == [] {
      assert a + b == b;
    } else if b == [] {
      assert a + b == a;
    } else {
      EndsBefore(a, b, from, mid, to);
    }
  }

  lemma {:induction false} EndsBefore(a: seq<Placed>, b: seq<Placed>, from: Option<int>, mid: Option<int>,
                                      to: Option<int>)
    requires InOrder(a, from, mid) && InOrder(b, mid, to) && a != [] && b != []
    ensures InOrder(a + b, from, to)
  {
    var c := a + b;
    assert c[|c| - 1] == b[|b| - 1];
    assert forall i :: 0 <= i < |a| ==> a[i].End() <= mid.value;
    assert forall i :: 0 <= i < |b| ==> mid.value <= b[i].pos;
    assert forall i, j :: 0 <= i < j < |c| ==> c[i].End() <= c[j].pos;
    assert a[0].pos <= mid.value;
  }

  lemma {:induction false} TrimIsCut(stream: int -> Byte, p: Placed, next: Option<int>)
    requires CutFrom(stream, p) && p.payload != [] && !Covered(p, next)
    ensures CutFrom(stream, Trim(p, next))
  {
  }

  lemma {:induction false} AllCutCons(stream: int -> Byte, p: Placed, ps: seq<Placed>)
    requires CutFrom(stream, p) && AllCutFrom(stream, ps)
    ensures AllCutFrom(stream, [p] + ps)
  {
  }

  lemma {:induction false} AllCutTail(stream: int -> Byte, ps: seq<Placed>)
    requires ps != [] && AllCutFrom(stream, ps)
    ensures CutFrom(stream, ps[0]) && AllCutFrom(stream, ps[1..])
  {
  }

  lemma {:induction false} DrainIsCut(stream: int -> Byte, held: seq<Placed>, next: Option<int>, ack: int)
    requires NonEmpty(held) && AllCutFrom(stream, held)
    ensures AllCutFrom(stream, Drain(held, next, ack).sent)
  {
    if held != [] && held[0].pos < ack {
      if Covered(held[0], next) {
        AllCutTail(stream, held);
        DrainIsCut(stream, held[1..], next, ack);
      } else {
        AllCutTail(stream, held);
        TrimIsCut(stream, held[0], next);
        DrainIsCut(stream, held[1..], Some(held[0].End()), ack);
        AllCutCons(stream, Trim(held[0], next), Drain(held[1..], Some(held[0].End()), ack).sent);
      }
    }
  }

  lemma {:induction false} DrainIsInOrder(held: seq<Placed>, next: Option<int>, ack: int)
    requires NonEmpty(held)
    ensures var r := Drain(held, next, ack); InOrder(r.sent, next, r.next)
  {
    if held != [] && held[0].pos < ack {
      if Covered(held[0], next) {
        DrainIsInOrder(held[1..], next, ack);
      } else {
        var end := Some(held[0].End());
        var r := Drain(held[1..], end, ack);
        DrainIsInOrder(held[1..], end, ack);
        assert InOrder([Trim(held[0], next)], next, end);
        InOrderConcat([Trim(held[0], next)], r.sent, next, end, r.next);
      }
    }
  }

  lemma {:induction false} StepIsSafe(stream: int -> Byte, w: Ideal, e: Event)
    requires Valid(w) && AllCutFrom(stream, w.held)
    requires e.Arrival? ==> CutFrom(stream, e.segment)
    ensures var (w', sent) := Step(w, e);
            && Valid(w') && AllCutFrom(stream, w'.held)
            && AllCutFrom(stream, sent) && InOrder(sent, w.next, w'.next)
  {
    StepKeepsValid(w, e);
    var w' := Step(w, e).0;
    match e
    case Arrival(p) =>
      PlaceIsSortedInsertion(w.held, p);
      forall i | 0 <= i < |w'.held| ensures CutFrom(stream, w'.held[i]) {
        assert w'.held[i] in w'.held;
      }
    case Ack(a) =>
      DrainLeavesSuffix(w.held, w.next, a);
      DrainIsCut(stream, w.held, w.next, a);
      DrainIsInOrder(w.held, w.next, a);
  }

  /** Over every run from any window of stream segments: each delivered chunk is the
      stream's bytes at its position, chunks never overlap and their positions increase. */
  lemma {:induction false} RunIsSafe(stream: int -> Byte, w: Ideal, events: seq<Event>)
    requires Valid(w) && AllCutFrom(stream, w.held) && EventsCutFrom(stream, events)
    ensures var (w', sent) := Run(w, events);
            && Valid(w') && AllCutFrom(stream, w'.held)
            && AllCutFrom(stream, sent) && InOrder(sent, w.next, w'.next)
    decreases |events|
  {
    if events != [] {
      var (w1, sent) := Step(w, events[0]);
      StepIsSafe(stream, w, events[0]);
      RunIsSafe(stream, w1, events[1..]);
      var (w2, more) := Run(w1, events[1..]);
      InOrderConcat(sent, more, w.next, w1.next, w2.next);
    }
  }
}
