/** The order in which segments arrive, between two acknowledgements: exactly when it shows. */
module ArrivalOrder {
  import opened Basics
  import opened TcpSequence
  import opened Reassembly
  import opened TrueStream
  import opened StreamTheorems
  import opened WindowDecisions
  import opened WindowRefinement
  import opened WindowSafety

  function Arrivals(ps: seq<Placed>): (events: seq<Event>)
    ensures |events| == |ps| && forall i :: 0 <= i < |ps| ==> events[i] == Arrival(ps[i])
  {
    seq(|ps|, i requires 0 <= i < |ps| => Arrival(ps[i]))
  }

  function CodeArriveAll(v: Ideal, ps: seq<Placed>): Ideal
    decreases |ps|
  {
    if ps == [] then v else CodeArriveAll(CodeArrive(v, ps[0]), ps[1..])
  }

  /** The segment gets as far as the scan: it has data and is not dropped as delivered. */
  predicate Scanned(v: Ideal, p: Placed) {
    p.payload != [] && !AlreadyDelivered(NumberOf(v.next), Wrapped(p))
  }

  /** Near, and not astray whichever is compared with the other. */
  predicate Ordered(x: int, y: int) {
    Near(x, y) && !Astray(x, y) && !Astray(y, x)
  }

  /** Those that get scanned compare rightly with what is held, and are near each other. */
  predicate Fresh(v: Ideal, ps: seq<Placed>) {
    && (forall h, p :: h in v.held && p in ps && Scanned(v, p) ==> Ordered(h.pos, p.pos))
    && (forall p, q :: p in ps && q in ps && Scanned(v, p) && Scanned(v, q) ==> Near(p.pos, q.pos))
  }

  predicate NoneAstray(v: Ideal, ps: seq<Placed>) {
    forall p, q :: p in ps && q in ps && Scanned(v, p) && Scanned(v, q) ==> !Astray(p.pos, q.pos)
  }

  /** Any two orders of the segments leave the same window. */
  ghost predicate OrderIsInvisible(w: Window, ps: seq<Placed>) {
    forall xs, ys :: multiset(xs) == multiset(ps) && multiset(ys) == multiset(ps) ==>
      WindowRun(w, Arrivals(xs)).0 == WindowRun(w, Arrivals(ys)).0
  }

  lemma {:induction false} ArrivalsTrace(w: Window, v: Ideal, ps: seq<Placed>)
    requires Traces(w, v)
    ensures Traces(WindowRun(w, Arrivals(ps)).0, CodeArriveAll(v, ps))
    ensures WindowRun(w, Arrivals(ps)).0.lastAck == w.lastAck && CodeArriveAll(v, ps).next == v.next
    decreases |ps|
  {
    if ps != [] {
      StepTraces(w, v, Arrival(ps[0]));
      ArrivalsTrace(Insert(w, Wrapped(ps[0])), CodeArrive(v, ps[0]), ps[1..]);
      assert Arrivals(ps)[1..] == Arrivals(ps[1..]);
    }
  }

  // ---- With no pair astray the order does not show

  lemma {:induction false} OrderedIsComparable(x: int, y: int)
    requires Ordered(x, y)
    ensures Comparable(x, y) && Comparable(y, x)
  {
    CompareOutcome(x, y);
    CompareOutcome(y, x);
    OrderOfPositions(x, y);
    OrderOfPositions(y, x);
  }

  /** The slot where sorted insertion puts the segment; none when its position is taken. */
  predicate IsSortedSlot(held: seq<Placed>, p: Placed, slot: Option<nat>) {
    match slot
    case None => Taken(held, p)
    case Some(k) =>
      && k <= |held| && (forall i :: 0 <= i < k ==> held[i].pos < p.pos)
      && (forall i :: k <= i < |held| ==> p.pos < held[i].pos)
  }

  /** Among comparable positions the scan finds the sorted slot, or the position taken. */
  lemma {:induction false} FindSlotIsSorted(held: seq<Placed>, p: Placed)
    requires Increasing(held) && forall i :: 0 <= i < |held| ==> Comparable(held[i].pos, p.pos)
    ensures IsSortedSlot(held, p, FindSlot(WrappedAll(held), Wrap(p.pos)))
  {
    if held != [] {
      var last := |held| - 1;
      OrderOfPositions(held[last].pos, p.pos);
      FindSlotStep(held, p);
      if p.pos < held[last].pos {
        FindSlotIsSorted(held[..last], p);
        SlotBeforeLast(held, p, FindSlot(WrappedAll(held[..last]), Wrap(p.pos)));
      } else {
        SlotAtLast(held, p);
      }
      hide IsSortedSlot, CompareTCPSeq, Wrap, Misordered, FindSlot, WrappedAll;
    }
  }

  lemma {:induction false} SlotBeforeLast(held: seq<Placed>, p: Placed, slot: Option<nat>)
    requires held != [] && p.pos < held[|held| - 1].pos && IsSortedSlot(held[..|held| - 1], p, slot)
    ensures IsSortedSlot(held, p, slot)
  {
    if slot.None? {
      var i :| 0 <= i < |held| - 1 && held[..|held| - 1][i].pos == p.pos;
      assert held[i].pos == p.pos;
    }
  }

  lemma {:induction false} SlotAtLast(held: seq<Placed>, p: Placed)
    requires Increasing(held) && held != [] && held[|held| - 1].pos <= p.pos
    ensures IsSortedSlot(held, p, if held[|held| - 1].pos == p.pos then None else Some(|held|))
  {
  }

  lemma {:induction false} FindSlotStep(held: seq<Placed>, p: Placed)
    requires held != []
    ensures var last := |held| - 1;
            var order := CompareTCPSeq(Wrap(held[last].pos), Wrap(p.pos));
            FindSlot(WrappedAll(held), Wrap(p.pos)) ==
            if order == 0 then None
            else if order < 0 then Some(|held|)
            else FindSlot(WrappedAll(held[..last]), Wrap(p.pos))
  {
    assert WrappedAll(held)[..|held| - 1] == WrappedAll(held[..|held| - 1]);
  }

  lemma {:induction false} ArrivesInPlace(v: Ideal, p: Placed)
    requires Increasing(v.held) && (Scanned(v, p) ==> forall h :: h in v.held ==> Ordered(h.pos, p.pos))
    ensures CodeArrive(v, p) == if Scanned(v, p) then v.(held := Place(v.held, p)) else v
  {
    if Scanned(v, p) {
      forall i | 0 <= i < |v.held| ensures Comparable(v.held[i].pos, p.pos) {
        OrderedIsComparable(v.held[i].pos, p.pos);
      }
      FindSlotIsSorted(v.held, p);
      match FindSlot(WrappedAll(v.held), Wrap(p.pos))
      case None =>
        var i :| 0 <= i < |v.held| && v.held[i].pos == p.pos;
        PlaceOccupied(v.held, p, i);
      case Some(slot) => PlaceAt(v.held, p, slot);
    }
  }

  /** `after` holds what `before` held, and those of the segments scanned at a free position. */
  ghost predicate Gains(before: Ideal, after: Ideal, ps: seq<Placed>) {
    && after.next == before.next
    && forall q :: q in after.held <==> q in before.held || (q in ps && Scanned(before, q) && !Taken(before.held, q))
  }

  lemma {:induction false} ContentsWithNoneAstray(v: Ideal, ps: seq<Placed>)
    requires Increasing(v.held) && DistinctPositions(ps) && Fresh(v, ps) && NoneAstray(v, ps)
    ensures Increasing(CodeArriveAll(v, ps).held) && Gains(v, CodeArriveAll(v, ps), ps)
    decreases |ps|
  {
    if ps != [] {
      var v1 := CodeArrive(v, ps[0]);
      FirstArrives(v, ps);
      ContentsWithNoneAstray(v1, ps[1..]);
      GainsAdd(v, v1, CodeArriveAll(v1, ps[1..]), ps);
      hide CodeArrive, Gains, Fresh, NoneAstray;
    }
  }

  lemma {:induction false} FirstArrives(v: Ideal, ps: seq<Placed>)
    requires ps != [] && Increasing(v.held) && Fresh(v, ps) && NoneAstray(v, ps)
    ensures var v1 := CodeArrive(v, ps[0]);
            && Increasing(v1.held) && Gains(v, v1, [ps[0]])
            && Fresh(v1, ps[1..]) && NoneAstray(v1, ps[1..])
  {
    var p, v1 := ps[0], CodeArrive(v, ps[0]);
    assert p in ps;
    ArrivesInPlace(v, p);
    PlaceIsSortedInsertion(v.held, p);
    TakenIsHeld(v.held);
    hide Place, CodeArrive, AlreadyDelivered, Ordered;
    FreshTail(v, v1, ps);
  }

  lemma {:induction false} GainsAdd(v: Ideal, v1: Ideal, v2: Ideal, ps: seq<Placed>)
    requires ps != [] && DistinctPositions(ps) && Gains(v, v1, [ps[0]]) && Gains(v1, v2, ps[1..])
    ensures Gains(v, v2, ps)
  {
    var p := ps[0];
    TakenIsHeld(v.held);
    TakenIsHeld(v1.held);
    hide Taken, AlreadyDelivered;
    forall q ensures q in v2.held <==> q in v.held || (q in ps && Scanned(v, q) && !Taken(v.held, q)) {
      assert q in ps <==> q == p || q in ps[1..];
      assert q in ps[1..] ==> q.pos != p.pos;
      assert Scanned(v1, q) == Scanned(v, q);
    }
  }

  lemma {:induction false} TakenIsHeld(held: seq<Placed>)
    ensures forall q :: Taken(held, q) <==> exists h :: h in held && h.pos == q.pos
  {
    forall q: Placed | exists h :: h in held && h.pos == q.pos ensures Taken(held, q) {
      var h :| h in held && h.pos == q.pos;
      var i :| 0 <= i < |held| && held[i] == h;
    }
  }

  lemma {:induction false} FreshTail(v: Ideal, v1: Ideal, ps: seq<Placed>)
    requires ps != [] && Fresh(v, ps) && NoneAstray(v, ps) && v1.next == v.next
    requires forall h :: h in v1.held ==> h in v.held || (h == ps[0] && Scanned(v, ps[0]))
    ensures Fresh(v1, ps[1..]) && NoneAstray(v1, ps[1..])
  {
    assert ps[0] in ps && forall q :: q in ps[1..] ==> q in ps;
    hide AlreadyDelivered, NumberOf, Astray, Near, Wrapped;
  }

  lemma {:induction false} SameElements(xs: seq<Placed>, ps: seq<Placed>)
    requires multiset(xs) == multiset(ps)
    ensures forall q :: q in xs <==> q in ps
  {
    assert forall q :: q in xs <==> q in multiset(xs);
    assert forall q :: q in ps <==> q in multiset(ps);
  }

  lemma {:induction false} SameInEveryOrder(v: Ideal, xs: seq<Placed>, ys: seq<Placed>)
    requires Increasing(v.held) && DistinctPositions(xs) && multiset(xs) == multiset(ys)
    requires Fresh(v, xs) && NoneAstray(v, xs)
    ensures CodeArriveAll(v, xs) == CodeArriveAll(v, ys)
  {
    SameElements(xs, ys);
    PermutationKeepsDistinct(xs, ys);
    ContentsWithNoneAstray(v, xs);
    ContentsWithNoneAstray(v, ys);
    IncreasingIsCanonical(CodeArriveAll(v, xs).held, CodeArriveAll(v, ys).held);
  }

  // ---- With a pair astray it does

  /** Of the numbers held, in the window's order, those that are `m` or `n`. */
  function Only(held: seq<Placed>, m: Uint32, n: Uint32): seq<Uint32> {
    if held == [] then []
    else
      var number := Wrap(held[0].pos);
      (if number == m || number == n then [number] else []) + Only(held[1..], m, n)
  }

  predicate IsOther(p: Placed, m: Uint32, n: Uint32) {
    Wrap(p.pos) != m && Wrap(p.pos) != n
  }

  lemma {:induction false} OnlyConcat(x: seq<Placed>, y: seq<Placed>, m: Uint32, n: Uint32)
    ensures Only(x + y, m, n) == Only(x, m, n) + Only(y, m, n)
  {
    hide Wrap;
    if x == [] {
      assert x + y == y;
    } else {
      assert (x + y)[1..] == x[1..] + y;
      OnlyConcat(x[1..], y, m, n);
      var number := Wrap(x[0].pos);
      Regroup(if number == m || number == n then [number] else [], Only(x[1..], m, n), Only(y, m, n));
    }
  }

  lemma {:induction false} OnlyOfOthers(x: seq<Placed>, m: Uint32, n: Uint32)
    requires forall p :: p in x ==> IsOther(p, m, n)
    ensures Only(x, m, n) == []
  {
    if x != [] {
      assert IsOther(x[0], m, n) && forall p :: p in x[1..] ==> p in x;
      OnlyOfOthers(x[1..], m, n);
    }
  }

  lemma {:induction false} OnlyOfOne(x: Placed, m: Uint32, n: Uint32)
    requires !IsOther(x, m, n)
    ensures Only([x], m, n) == [Wrap(x.pos)]
  {
    assert [x][1..] == [] && Only([], m, n) == [];
  }

  /** A segment of another number leaves the two where they are. */
  lemma {:induction false} OtherArrives(v: Ideal, c: Placed, m: Uint32, n: Uint32)
    requires Scanned(v, c) ==> IsOther(c, m, n)
    ensures Only(CodeArrive(v, c).held, m, n) == Only(v.held, m, n) && CodeArrive(v, c).next == v.next
  {
    if Scanned(v, c) {
      match FindSlot(WrappedAll(v.held), Wrap(c.pos))
      case None =>
      case Some(slot) =>
        var x, y := v.held[..slot], v.held[slot..];
        assert v.held == x + y;
        OnlySpliced(x, c, y, m, n);
        hide Only, FindSlot, Wrap, IsOther;
    }
  }

  lemma {:induction false} OnlySpliced(x: seq<Placed>, c: Placed, y: seq<Placed>, m: Uint32, n: Uint32)
    requires IsOther(c, m, n)
    ensures Only(x + [c] + y, m, n) == Only(x + y, m, n)
  {
    assert x + [c] + y == x + ([c] + y);
    OnlyConcat(x, y, m, n);
    OnlyConcat(x, [c] + y, m, n);
    OnlyConcat([c], y, m, n);
    OnlyOfOthers([c], m, n);
  }

  lemma {:induction false} OthersArrive(v: Ideal, ps: seq<Placed>, m: Uint32, n: Uint32)
    requires forall c :: c in ps && Scanned(v, c) ==> IsOther(c, m, n)
    ensures Only(CodeArriveAll(v, ps).held, m, n) == Only(v.held, m, n)
    decreases |ps|
  {
    if ps != [] {
      OtherArrives(v, ps[0], m, n);
      OthersArrive(CodeArrive(v, ps[0]), ps[1..], m, n);
    }
  }

  lemma {:induction false} OnlyOfSegments(segments: seq<Segment>, x: seq<Placed>, y: seq<Placed>, m: Uint32, n: Uint32)
    requires SegmentsOf(segments, x) && SegmentsOf(segments, y)
    ensures Only(x, m, n) == Only(y, m, n)
  {
    if x != [] {
      assert Wrapped(x[0]) == Wrapped(y[0]);
      OnlyOfSegments(segments[1..], x[1..], y[1..], m, n);
    }
  }

  /** A scan that passes everything after `x`, and does not stop behind `x`, puts the segment
      before `x` or nowhere. */
  lemma {:induction false} ScanPasses(l: seq<Placed>, x: Placed, r: seq<Placed>, p: Placed)
    requires CompareTCPSeq(Wrap(x.pos), Wrap(p.pos)) >= 0
    requires forall i :: 0 <= i < |r| ==> CompareTCPSeq(Wrap(r[i].pos), Wrap(p.pos)) > 0
    ensures var slot := FindSlot(WrappedAll(l + [x] + r), Wrap(p.pos)); slot.None? || slot.value <= |l|
    decreases |r|
  {
    var held := l + [x] + r;
    var last := |held| - 1;
    if r == [] {
      assert WrappedAll(held)[..last] == WrappedAll(l);
      assert held[last] == x;
    } else {
      var k := |r| - 1;
      assert held[last] == r[k] && held[..last] == l + [x] + r[..k];
      assert WrappedAll(held)[..last] == WrappedAll(held[..last]);
      ScanPasses(l, x, r[..k], p);
    }
  }

  /** `x` arrives first and `y` second: if the scan for `y` does not stop behind `x`, `y` ends up
      before `x` or nowhere. */
  lemma {:induction false} SecondBeforeFirst(v: Ideal, x: Placed, y: Placed)
    requires Increasing(v.held) && Scanned(v, x) && Scanned(v, y) && Wrap(x.pos) != Wrap(y.pos)
    requires !Taken(v.held, x) && forall h :: h in v.held ==> IsOther(h, Wrap(x.pos), Wrap(y.pos))
    requires forall h :: h in v.held ==> Ordered(h.pos, x.pos) && Ordered(h.pos, y.pos)
    requires CompareTCPSeq(Wrap(x.pos), Wrap(y.pos)) >= 0
    requires forall h :: h in v.held && x.pos < h.pos ==> y.pos < h.pos
    ensures var m, n := Wrap(x.pos), Wrap(y.pos);
            var both := Only(CodeArrive(CodeArrive(v, x), y).held, m, n); both == [m] || both == [n, m]
  {
    var k := FirstSplits(v, x);
    var l, r := v.held[..k], v.held[k..];
    var v1 := v.(held := l + [x] + r);
    assert v.held == l + r;
    PassesLater(r, y);
    ScanPasses(l, x, r, y);
    hide Ordered, FindSlot, WrappedAll, CompareTCPSeq, Wrap, AlreadyDelivered, Only, IsOther, Taken;
    OnlyTwo(l, r, x, y);
    match FindSlot(WrappedAll(v1.held), Wrap(y.pos))
    case None =>
    case Some(slot) => OnlyWithSecond(l, r, x, y, slot);
  }

  lemma {:induction false} FirstSplits(v: Ideal, x: Placed) returns (k: nat)
    requires Increasing(v.held) && Scanned(v, x) && !Taken(v.held, x)
    requires forall h :: h in v.held ==> Ordered(h.pos, x.pos)
    ensures k <= |v.held| && CodeArrive(v, x) == v.(held := v.held[..k] + [x] + v.held[k..])
    ensures forall i :: k <= i < |v.held| ==> x.pos < v.held[i].pos
  {
    forall i | 0 <= i < |v.held| ensures Comparable(v.held[i].pos, x.pos) {
      OrderedIsComparable(v.held[i].pos, x.pos);
    }
    FindSlotIsSorted(v.held, x);
    k := FindSlot(WrappedAll(v.held), Wrap(x.pos)).value;
  }

  lemma {:induction false} PassesLater(r: seq<Placed>, y: Placed)
    requires forall i :: 0 <= i < |r| ==> Ordered(r[i].pos, y.pos) && y.pos < r[i].pos
    ensures forall i :: 0 <= i < |r| ==> CompareTCPSeq(Wrap(r[i].pos), Wrap(y.pos)) > 0
  {
    forall i | 0 <= i < |r| ensures CompareTCPSeq(Wrap(r[i].pos), Wrap(y.pos)) > 0 {
      OrderedIsComparable(r[i].pos, y.pos);
      OrderOfPositions(r[i].pos, y.pos);
    }
  }

  lemma {:induction false} OnlyTwo(l: seq<Placed>, r: seq<Placed>, x: Placed, y: Placed)
    requires forall h :: h in l + r ==> IsOther(h, Wrap(x.pos), Wrap(y.pos))
    ensures Only(l + [x] + r, Wrap(x.pos), Wrap(y.pos)) == [Wrap(x.pos)]
  {
    var m, n := Wrap(x.pos), Wrap(y.pos);
    OnlyConcat(l + [x], r, m, n);
    OnlyConcat(l, [x], m, n);
    OnlyOfOthers(l, m, n);
    OnlyOfOthers(r, m, n);
    OnlyOfOne(x, m, n);
  }

  lemma {:induction false} OnlyWithSecond(l: seq<Placed>, r: seq<Placed>, x: Placed, y: Placed, slot: nat)
    requires slot <= |l| && forall h :: h in l + r ==> IsOther(h, Wrap(x.pos), Wrap(y.pos))
    ensures var held := l + [x] + r;
            Only(held[..slot] + [y] + held[slot..], Wrap(x.pos), Wrap(y.pos)) == [Wrap(y.pos), Wrap(x.pos)]
  {
    var m, n := Wrap(x.pos), Wrap(y.pos);
    var held := l + [x] + r;
    var l1, l2 := l[..slot], l[slot..];
    assert held[..slot] == l1 && held[slot..] == l2 + [x] + r && l == l1 + l2;
    OnlyConcat(l1 + [y], l2 + [x] + r, m, n);
    OnlyConcat(l1, [y], m, n);
    OnlyOfOthers(l1, m, n);
    OnlyTwo(l2, r, x, y);
    OnlyOfOne(y, m, n);
  }

  /** Nothing that compares rightly with both of a pair astray lies between them. */
  lemma {:induction false} NothingBetween(a: int, b: int, h: int)
    requires Near(a, b) && Astray(a, b) && Ordered(h, a) && Ordered(h, b)
    ensures !(a < h < b)
  {
    if a < h < b {
      CompareOutcome(a, b);
      WrapOfDifference(a, b);
      WrapOfDifference(h, a);
      WrapOfDifference(b, h);
    }
  }

  lemma {:induction false} OnlySwaps(held: seq<Placed>, m: Uint32, n: Uint32)
    ensures Only(held, m, n) == Only(held, n, m)
  {
    if held != [] {
      OnlySwaps(held[1..], m, n);
    }
  }

  lemma {:induction false} NearNumbersDiffer(x: int, y: int)
    requires Near(x, y) && x != y
    ensures Wrap(x) != Wrap(y)
  {
    WrapOfDifference(x, y);
  }

  /** Two orders of the same segments, `a` and `b` first, that leave different windows. */
  lemma {:induction false} PairShows(v: Ideal, a: Placed, b: Placed, others: seq<Placed>)
    requires Increasing(v.held) && Scanned(v, a) && Scanned(v, b) && Near(a.pos, b.pos) && Astray(a.pos, b.pos)
    requires forall h :: h in v.held ==> Ordered(h.pos, a.pos) && Ordered(h.pos, b.pos)
    requires forall c :: c in others && Scanned(v, c) ==> IsOther(c, Wrap(a.pos), Wrap(b.pos))
    ensures Only(CodeArriveAll(v, [a, b] + others).held, Wrap(a.pos), Wrap(b.pos)) !=
            Only(CodeArriveAll(v, [b, a] + others).held, Wrap(a.pos), Wrap(b.pos))
  {
    var m, n := Wrap(a.pos), Wrap(b.pos);
    CompareOutcome(a.pos, b.pos);
    CompareOutcome(b.pos, a.pos);
    AroundAPair(v, a, b);
    SecondBeforeFirst(v, a, b);
    SecondBeforeFirst(v, b, a);
    var x, y := CodeArrive(CodeArrive(v, a), b), CodeArrive(CodeArrive(v, b), a);
    OnlySwaps(y.held, m, n);
    TwoFirst(v, a, b, others);
    TwoFirst(v, b, a, others);
    hide CodeArrive, Only, Ordered, CodeArriveAll, Wrap, AlreadyDelivered;
    NextStays(v, a, b);
    NextStays(v, b, a);
    OthersArrive(x, others, m, n);
    OthersArrive(y, others, m, n);
  }

  lemma {:induction false} NextStays(v: Ideal, a: Placed, b: Placed)
    ensures CodeArrive(CodeArrive(v, a), b).next == v.next
  {
  }

  lemma {:induction false} TwoFirst(v: Ideal, a: Placed, b: Placed, others: seq<Placed>)
    ensures CodeArriveAll(v, [a, b] + others) == CodeArriveAll(CodeArrive(CodeArrive(v, a), b), others)
  {
    assert ([a, b] + others)[1..] == [b] + others && ([b] + others)[1..] == others;
  }

  lemma {:induction false} AroundAPair(v: Ideal, a: Placed, b: Placed)
    requires Near(a.pos, b.pos) && Astray(a.pos, b.pos)
    requires forall h :: h in v.held ==> Ordered(h.pos, a.pos) && Ordered(h.pos, b.pos)
    ensures !Taken(v.held, a) && !Taken(v.held, b) && Wrap(a.pos) != Wrap(b.pos)
    ensures forall h :: h in v.held ==> IsOther(h, Wrap(a.pos), Wrap(b.pos)) && !(a.pos < h.pos < b.pos)
    ensures forall h :: h in v.held ==> h.pos != a.pos && h.pos != b.pos
  {
    TakenIsHeld(v.held);
    forall h | h in v.held
      ensures IsOther(h, Wrap(a.pos), Wrap(b.pos)) && !(a.pos < h.pos < b.pos) && h.pos != a.pos && h.pos != b.pos
    {
      NothingBetween(a.pos, b.pos, h.pos);
      NearNumbersDiffer(h.pos, a.pos);
      NearNumbersDiffer(h.pos, b.pos);
    }
  }

  lemma {:induction false} BringForward(ps: seq<Placed>, i: nat, j: nat) returns (others: seq<Placed>)
    requires i < |ps| && j < |ps| && i != j && DistinctPositions(ps)
    ensures multiset([ps[i], ps[j]] + others) == multiset(ps) && multiset([ps[j], ps[i]] + others) == multiset(ps)
    ensures forall c :: c in others ==> c in ps && c.pos != ps[i].pos && c.pos != ps[j].pos
  {
    var m, n := if i < j then i else j, if i < j then j else i;
    others := WithoutTwo(ps, m, n);
    TwoAndOthers(ps, m, n);
    PairAndOthers(ps[m], ps[n], others);
    PairAndOthers(ps[n], ps[m], others);
    OthersAreElsewhere(ps, m, n);
    hide WithoutTwo, DistinctPositions;
  }

  lemma {:induction false} PairAndOthers(a: Placed, b: Placed, others: seq<Placed>)
    ensures multiset([a, b] + others) == multiset([a]) + multiset([b]) + multiset(others)
  {
    assert [a, b] + others == [a] + ([b] + others);
  }

  function WithoutTwo(ps: seq<Placed>, m: nat, n: nat): seq<Placed>
    requires m < n < |ps|
  {
    ps[..m] + ps[m + 1..n] + ps[n + 1..]
  }

  lemma {:induction false} TwoAndOthers(ps: seq<Placed>, m: nat, n: nat)
    requires m < n < |ps|
    ensures multiset(ps) == multiset([ps[m]]) + multiset([ps[n]]) + multiset(WithoutTwo(ps, m, n))
  {
    assert ps == ps[..m] + [ps[m]] + ps[m + 1..n] + [ps[n]] + ps[n + 1..];
  }

  lemma {:induction false} OthersAreElsewhere(ps: seq<Placed>, m: nat, n: nat)
    requires m < n < |ps| && DistinctPositions(ps)
    ensures forall c :: c in WithoutTwo(ps, m, n) ==> c in ps && c.pos != ps[m].pos && c.pos != ps[n].pos
  {
    forall c | c in WithoutTwo(ps, m, n) ensures c in ps && c.pos != ps[m].pos && c.pos != ps[n].pos {
      if c in ps[..m] {
        var k :| 0 <= k < m && ps[k] == c;
      } else if c in ps[m + 1..n] {
        var k :| m < k < n && ps[k] == c;
      } else {
        var k :| n < k < |ps| && ps[k] == c;
      }
    }
  }

  // ---- The theorem

  /** Arrival-order independence: with what gets scanned comparable with what is held, near each
      other and at distinct positions, every order of arrival leaves the same window if and only
      if no two of the segments scanned go astray from each other. */
  lemma {:induction false} ArrivalOrderExactly(w: Window, v: Ideal, ps: seq<Placed>)
    requires Traces(w, v) && Increasing(v.held) && DistinctPositions(ps) && Fresh(v, ps)
    ensures OrderIsInvisible(w, ps) <==> NoneAstray(v, ps)
  {
    if NoneAstray(v, ps) {
      forall xs, ys | multiset(xs) == multiset(ps) && multiset(ys) == multiset(ps)
        ensures WindowRun(w, Arrivals(xs)).0 == WindowRun(w, Arrivals(ys)).0
      {
        SameElements(xs, ps);
        PermutationKeepsDistinct(ps, xs);
        SameInEveryOrder(v, xs, ys);
        SameWindows(w, v, xs, ys);
      }
    } else {
      AstrayShows(w, v, ps);
    }
  }

  lemma {:induction false} AstrayShows(w: Window, v: Ideal, ps: seq<Placed>)
    requires Traces(w, v) && Increasing(v.held) && DistinctPositions(ps) && Fresh(v, ps) && !NoneAstray(v, ps)
    ensures !OrderIsInvisible(w, ps)
  {
    var a, b :| a in ps && b in ps && Scanned(v, a) && Scanned(v, b) && Astray(a.pos, b.pos);
    var i :| 0 <= i < |ps| && ps[i] == a;
    var j :| 0 <= j < |ps| && ps[j] == b;
    var others := BringForward(ps, i, j);
    OthersHaveOtherNumbers(v, ps, a, b, others);
    hide *;
    TwoOrders(w, v, ps, a, b, others);
  }

  lemma {:induction false} TwoOrders(w: Window, v: Ideal, ps: seq<Placed>, a: Placed, b: Placed, others: seq<Placed>)
    requires Traces(w, v) && Increasing(v.held) && Fresh(v, ps) && a in ps && b in ps
    requires Scanned(v, a) && Scanned(v, b) && Astray(a.pos, b.pos)
    requires forall c :: c in others && Scanned(v, c) ==> IsOther(c, Wrap(a.pos), Wrap(b.pos))
    requires multiset([a, b] + others) == multiset(ps) && multiset([b, a] + others) == multiset(ps)
    ensures !OrderIsInvisible(w, ps)
  {
    assert Near(a.pos, b.pos) && forall h :: h in v.held ==> Ordered(h.pos, a.pos) && Ordered(h.pos, b.pos);
    hide Fresh, IsOther, CodeArriveAll, Only, Scanned, Ordered, Near, Astray;
    PairShows(v, a, b, others);
    DifferentWindows(w, v, [a, b] + others, [b, a] + others, Wrap(a.pos), Wrap(b.pos));
    hide WindowRun, Arrivals, Traces, Increasing, Wrap;
  }

  lemma {:induction false} OthersHaveOtherNumbers(v: Ideal, ps: seq<Placed>, a: Placed, b: Placed, others: seq<Placed>)
    requires Fresh(v, ps) && a in ps && b in ps && Scanned(v, a) && Scanned(v, b)
    requires forall c :: c in others ==> c in ps && c.pos != a.pos && c.pos != b.pos
    ensures forall c :: c in others && Scanned(v, c) ==> IsOther(c, Wrap(a.pos), Wrap(b.pos))
  {
    forall c | c in others && Scanned(v, c) ensures IsOther(c, Wrap(a.pos), Wrap(b.pos)) {
      NearNumbersDiffer(c.pos, a.pos);
      NearNumbersDiffer(c.pos, b.pos);
    }
  }

  lemma {:induction false} SameWindows(w: Window, v: Ideal, xs: seq<Placed>, ys: seq<Placed>)
    requires Traces(w, v) && CodeArriveAll(v, xs) == CodeArriveAll(v, ys)
    ensures WindowRun(w, Arrivals(xs)).0 == WindowRun(w, Arrivals(ys)).0
  {
    ArrivalsTrace(w, v, xs);
    ArrivalsTrace(w, v, ys);
    var x, y := WindowRun(w, Arrivals(xs)).0, WindowRun(w, Arrivals(ys)).0;
    assert x.segments == y.segments;
  }

  lemma {:induction false} DifferentWindows(w: Window, v: Ideal, xs: seq<Placed>, ys: seq<Placed>, m: Uint32, n: Uint32)
    requires Traces(w, v) && Only(CodeArriveAll(v, xs).held, m, n) != Only(CodeArriveAll(v, ys).held, m, n)
    ensures WindowRun(w, Arrivals(xs)).0 != WindowRun(w, Arrivals(ys)).0
  {
    ArrivalsTrace(w, v, xs);
    ArrivalsTrace(w, v, ys);
    var x, y := WindowRun(w, Arrivals(xs)).0, WindowRun(w, Arrivals(ys)).0;
    if x == y {
      OnlyOfSegments(x.segments, CodeArriveAll(v, xs).held, CodeArriveAll(v, ys).held, m, n);
    }
  }

  /** Across the wrap the order shows: 16 bytes before it and 16 bytes after it, either segment
      ends up in front of the one that arrived first. */
  lemma {:induction false} OrderShowsAcrossTheWrap()
    ensures var a, b := Placed(0xFFFF_FFF0, [1]), Placed(MODULUS + 0x10, [2]);
            && WindowRun(EMPTY_WINDOW, Arrivals([a, b])).0.segments == [Wrapped(b), Wrapped(a)]
            && WindowRun(EMPTY_WINDOW, Arrivals([b, a])).0.segments == [Wrapped(a), Wrapped(b)]
  {
    var a, b := Placed(0xFFFF_FFF0, [1]), Placed(MODULUS + 0x10, [2]);
    TwoArrive(a, b);
    TwoArrive(b, a);
  }

  lemma {:induction false} TwoArrive(x: Placed, y: Placed)
    requires x.payload != [] && y.payload != [] && CompareTCPSeq(Wrap(x.pos), Wrap(y.pos)) > 0
    ensures WindowRun(EMPTY_WINDOW, Arrivals([x, y])).0.segments == [Wrapped(y), Wrapped(x)]
  {
    var w1 := EMPTY_WINDOW.(segments := [Wrapped(x)]);
    assert FindSlot([], Wrap(x.pos)) == Some(0) && [][..0] + [Wrapped(x)] + [][0..] == [Wrapped(x)];
    assert Insert(EMPTY_WINDOW, Wrapped(x)) == w1;
    assert [Wrapped(x)][..0] == [] && FindSlot([Wrapped(x)], Wrap(y.pos)) == Some(0);
    assert [] + [Wrapped(y)] + [Wrapped(x)][0..] == [Wrapped(y), Wrapped(x)];
    assert Insert(w1, Wrapped(y)).segments == [Wrapped(y), Wrapped(x)];
    hide Insert, FindSlot, CompareTCPSeq;
    assert Arrivals([x, y])[1..] == Arrivals([y]) && Arrivals([y])[1..] == [];
    assert WindowRun(Insert(w1, Wrapped(y)), []).0 == Insert(w1, Wrapped(y));
    assert WindowRun(w1, Arrivals([y])).0 == Insert(w1, Wrapped(y));
  }
}
