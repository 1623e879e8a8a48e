/** Completeness, acknowledgement batching and arrival order, on true positions. */
module StreamTheorems {
  import opened Basics
  import opened TrueStream

  // ---- Completeness: without gaps, exactly the stream up to the furthest end

  /** Every held segment that starts before `ack` begins no later than the furthest end
      reached before it; with nothing delivered yet the first one sets the start. */
  predicate GapFree(held: seq<Placed>, next: Option<int>, ack: int) {
    held == [] || ack <= held[0].pos ||
    ((next.Some? ==> held[0].pos <= next.value) && GapFree(held[1..], Furthest(held[..1], next, ack), ack))
  }

  /** The furthest end among `next` and the held segments that start before `ack`. */
  function Furthest(held: seq<Placed>, next: Option<int>, ack: int): (e: Option<int>)
    ensures next.Some? ==> e.Some? && next.value <= e.value
  {
    if held == [] || ack <= held[0].pos then next
    else if Covered(held[0], next) then Furthest(held[1..], next, ack)
    else Furthest(held[1..], Some(held[0].End()), ack)
  }

  /** `Furthest` is the maximum: an upper bound that is attained. */
  lemma {:induction false} FurthestIsMaximum(held: seq<Placed>, next: Option<int>, ack: int)
    requires Increasing(held)
    ensures var e := Furthest(held, next, ack);
            && (forall i :: 0 <= i < |held| && held[i].pos < ack ==> e.Some? && held[i].End() <= e.value)
            && (e == next || exists i :: 0 <= i < |held| && held[i].pos < ack && e == Some(held[i].End()))
  {
    if held != [] && held[0].pos < ack {
      var start := if Covered(held[0], next) then next else Some(held[0].End());
      var e := Furthest(held, next, ack);
      FurthestIsMaximum(held[1..], start, ack);
      forall i | 0 <= i < |held| && held[i].pos < ack ensures e.Some? && held[i].End() <= e.value {
        if i > 0 {
          assert held[1..][i - 1] == held[i];
        }
      }
      if e != start {
        var i :| 0 <= i < |held[1..]| && held[1..][i].pos < ack && e == Some(held[1..][i].End());
        assert held[i + 1] == held[1..][i];
      } else if e != next {
        assert e == Some(held[0].End());
      }
    } else if held != [] {
      assert forall i :: 0 <= i < |held| ==> held[0].pos <= held[i].pos;
    }
  }

  /** The chunks continue one another without a hole, the first of them from `from`. */
  predicate Seamless(chunks: seq<Placed>, from: Option<int>) {
    && (from.Some? && chunks != [] ==> chunks[0].pos == from.value)
    && forall i :: 0 < i < |chunks| ==> chunks[i].pos == chunks[i - 1].End()
  }

  lemma {:induction false} SeamlessConcat(a: seq<Placed>, b: seq<Placed>, from: Option<int>, mid: Option<int>,
                                          to: Option<int>)
    requires InOrder(a, from, mid) && InOrder(b, mid, to)
    ensures Seamless(a + b, from) <==> Seamless(a, from) && Seamless(b, mid)
  {
    var c := a + b;
    if Seamless(c, from) {
      forall i | 0 < i < |a| ensures a[i].pos == a[i - 1].End() {
        assert c[i].pos == c[i - 1].End();
      }
      forall i | 0 < i < |b| ensures b[i].pos == b[i - 1].End() {
        assert c[|a| + i].pos == c[|a| + i - 1].End();
      }
      if b != [] && a != [] {
        assert c[|a|].pos == c[|a| - 1].End();
      }
    }
  }

  /** One acknowledgement delivers up to the furthest end, and does so seamlessly exactly
      when the window has no gap before the acknowledgement. */
  lemma {:induction false} GapFreeExactly(held: seq<Placed>, next: Option<int>, ack: int)
    requires NonEmpty(held)
    ensures var r := Drain(held, next, ack);
            && r.next == Furthest(held, next, ack)
            && (Seamless(r.sent, next) <==> GapFree(held, next, ack))
  {
    if held != [] && held[0].pos < ack {
      assert Furthest(held[..1], next, ack) == if Covered(held[0], next) then next else Some(held[0].End()) by {
        assert held[..1] == [held[0]];
        assert held[..1][1..] == [];
      }
      if Covered(held[0], next) {
        GapFreeExactly(held[1..], next, ack);
      } else {
        var end := Some(held[0].End());
        var chunk := Trim(held[0], next);
        GapFreeExactly(held[1..], end, ack);
        DrainIsInOrder(held[1..], end, ack);
        var r := Drain(held[1..], end, ack);
        assert InOrder([chunk], next, end);
        SeamlessConcat([chunk], r.sent, next, end, r.next);
      }
    }
  }

  function Text(chunks: seq<Placed>): seq<Byte> {
    if chunks == [] then [] else chunks[0].payload + Text(chunks[1..])
  }

  ghost function Cut(stream: int -> Byte, from: int, to: int): seq<Byte>
    requires from <= to
  {
    seq(to - from, i requires 0 <= i < to - from => stream(from + i))
  }

  /** Seamless chunks of the stream spell out one uninterrupted stretch of it. */
  lemma {:induction false} SeamlessText(stream: int -> Byte, chunks: seq<Placed>, from: int, to: int)
    requires AllCutFrom(stream, chunks) && Seamless(chunks, Some(from)) && InOrder(chunks, Some(from), Some(to))
    ensures from <= to && Text(chunks) == Cut(stream, from, to)
    decreases |chunks|
  {
    if chunks != [] {
      var first, rest := chunks[0], chunks[1..];
      AllCutTail(stream, chunks);
      assert first.payload == Cut(stream, from, first.End());
      assert Seamless(rest, Some(first.End())) by {
        if rest != [] {
          assert chunks[1].pos == chunks[0].End();
        }
        forall i | 0 < i < |rest| ensures rest[i].pos == rest[i - 1].End() {
          assert chunks[i + 1].pos == chunks[i].End();
        }
      }
      assert InOrder(rest, Some(first.End()), Some(to)) by {
        forall i | 0 <= i < |rest| ensures first.End() <= rest[i].pos {
          assert chunks[0].End() <= chunks[i + 1].pos;
        }
      }
      SeamlessText(stream, rest, first.End(), to);
      assert Cut(stream, from, first.End()) + Cut(stream, first.End(), to) == Cut(stream, from, to);
    }
  }

  /** Gap-free completeness: with no gap before `ack`, the acknowledgement delivers exactly the
      stream from `next` to the furthest end of the segments that start before it. */
  lemma {:induction false} GapFreeCompleteness(stream: int -> Byte, held: seq<Placed>, next: int, ack: int)
    requires Increasing(held) && NonEmpty(held) && AllCutFrom(stream, held)
    requires GapFree(held, Some(next), ack)
    ensures var r := Drain(held, Some(next), ack);
            var e := Furthest(held, Some(next), ack).value;
            r.next == Some(e) && next <= e && Text(r.sent) == Cut(stream, next, e)
  {
    var r := Drain(held, Some(next), ack);
    GapFreeExactly(held, Some(next), ack);
    DrainIsInOrder(held, Some(next), ack);
    DrainIsCut(stream, held, Some(next), ack);
    SeamlessText(stream, r.sent, next, Furthest(held, Some(next), ack).value);
  }

  /** No acknowledgement of the run finds a gap. */
  predicate RunGapFree(w: Ideal, events: seq<Event>)
    decreases |events|
  {
    events == [] ||
    ((events[0].Ack? ==> GapFree(w.held, w.next, events[0].pos)) && RunGapFree(Step(w, events[0]).0, events[1..]))
  }

  /** Over a whole run: everything delivered forms one uninterrupted stretch exactly when no
      acknowledgement found a gap. */
  lemma {:induction false} RunGapFreeExactly(stream: int -> Byte, w: Ideal, events: seq<Event>)
    requires Valid(w) && AllCutFrom(stream, w.held) && EventsCutFrom(stream, events)
    ensures Seamless(Run(w, events).1, w.next) <==> RunGapFree(w, events)
    decreases |events|
  {
    if events != [] {
      var (w1, sent) := Step(w, events[0]);
      var (w2, more) := Run(w1, events[1..]);
      assert EventsCutFrom(stream, events[..1]) && EventsCutFrom(stream, events[1..]);
      StepIsSafe(stream, w, events[0]);
      RunIsSafe(stream, w1, events[1..]);
      RunGapFreeExactly(stream, w1, events[1..]);
      if events[0].Ack? {
        GapFreeExactly(w.held, w.next, events[0].pos);
      }
      SeamlessConcat(sent, more, w.next, w1.next, w2.next);
    }
  }

  // ---- Acknowledgements batch

  /** Acknowledging `a1` and then a later `a2` delivers what `a2` alone delivers and leaves
      the same window. */
  lemma {:induction false} DrainBatches(held: seq<Placed>, next: Option<int>, a1: int, a2: int)
    requires a1 <= a2
    ensures var r1 := Drain(held, next, a1);
            var r2 := Drain(r1.rest, r1.next, a2);
            Drain(held, next, a2) == Release(r1.sent + r2.sent, r2.rest, r2.next)
  {
    if held != [] && held[0].pos < a1 {
      if Covered(held[0], next) {
        DrainBatches(held[1..], next, a1, a2);
      } else {
        var end := Some(held[0].End());
        DrainBatches(held[1..], end, a1, a2);
        var r1 := Drain(held[1..], end, a1);
        var r2 := Drain(r1.rest, r1.next, a2);
        var chunk := Trim(held[0], next);
        assert Drain(held, next, a1) == Release([chunk] + r1.sent, r1.rest, r1.next);
        Regroup([chunk], r1.sent, r2.sent);
        hide Trim, Covered;
      }
    }
  }

  /** Repeating an older acknowledgement delivers nothing and changes nothing. */
  lemma {:induction false} OlderAckIsSilent(held: seq<Placed>, next: Option<int>, older: int, ack: int)
    requires older <= ack
    ensures var r := Drain(held, next, ack);
            Drain(r.rest, r.next, older) == Release([], r.rest, r.next)
  {
    if held != [] && held[0].pos < ack {
      OlderAckIsSilent(held[1..], if Covered(held[0], next) then next else Some(held[0].End()), older, ack);
    }
  }

  // ---- Arrival order does not matter

  function ArriveAll(w: Ideal, ps: seq<Placed>): Ideal
    decreases |ps|
  {
    if ps == [] then w else ArriveAll(Arrive(w, ps[0]), ps[1..])
  }

  predicate DistinctPositions(ps: seq<Placed>) {
    forall i, j :: 0 <= i < j < |ps| ==> ps[i].pos != ps[j].pos
  }

  predicate Accepts(w: Ideal, p: Placed) {
    p.payload != [] && !Covered(p, w.next) && forall h :: h in w.held ==> h.pos != p.pos
  }

  /** After any arrivals at distinct positions the window holds what it held plus exactly the
      arrivals it would have accepted first. */
  lemma {:induction false} ArriveAllContents(w: Ideal, ps: seq<Placed>)
    requires Valid(w) && DistinctPositions(ps)
    ensures var w' := ArriveAll(w, ps);
            && Valid(w') && w'.next == w.next
            && forall q :: q in w'.held <==> q in w.held || (q in ps && Accepts(w, q))
    decreases |ps|
  {
    if ps != [] {
      var w1 := Arrive(w, ps[0]);
      ArriveKeepsValid(w, ps[0]);
      PlaceIsSortedInsertion(w.held, ps[0]);
      ArriveAllContents(w1, ps[1..]);
      forall q | q in ps[1..] ensures Accepts(w1, q) == Accepts(w, q) {
        assert q.pos != ps[0].pos;
      }
      assert forall q :: q in w1.held <==> q in w.held || (q == ps[0] && Accepts(w, q));
      assert forall q :: q in ps <==> q == ps[0] || q in ps[1..];
    }
  }

  /** A strictly increasing sequence is determined by its elements. */
  lemma {:induction false} IncreasingIsCanonical(a: seq<Placed>, b: seq<Placed>)
    requires Increasing(a) && Increasing(b)
    requires forall q :: q in a <==> q in b
    ensures a == b
  {
    assert a == [] || a[0] in a;
    assert b == [] || b[0] in b;
    if a != [] && b != [] {
      assert a[0] in b && b[0] in a;
      assert a[0] == b[0];
      forall q ensures q in a[1..] <==> q in b[1..] {
        assert q in a[1..] ==> q in a && q.pos > a[0].pos;
        assert q in b[1..] ==> q in b && q.pos > b[0].pos;
        assert a == [a[0]] + a[1..] && b == [b[0]] + b[1..];
      }
      IncreasingIsCanonical(a[1..], b[1..]);
    }
  }

  lemma {:induction false} DistinctOccurOnce(ps: seq<Placed>, q: Placed)
    requires DistinctPositions(ps)
    ensures multiset(ps)[q] <= 1
  {
    if q in ps {
      var k :| 0 <= k < |ps| && ps[k] == q;
      assert ps == ps[..k] + [q] + ps[k + 1..];
      assert q !in ps[..k] && q !in ps[k + 1..];
    }
  }

  lemma {:induction false} PermutationKeepsDistinct(xs: seq<Placed>, ys: seq<Placed>)
    requires multiset(xs) == multiset(ys) && DistinctPositions(xs)
    ensures DistinctPositions(ys)
  {
    forall i, j | 0 <= i < j < |ys| ensures ys[i].pos != ys[j].pos {
      var q, r := ys[i], ys[j];
      assert ys == ys[..j] + ys[j..];
      assert q in ys[..j] && r in ys[j..];
      assert multiset(ys)[q] == multiset(ys[..j])[q] + multiset(ys[j..])[q];
      DistinctOccurOnce(xs, q);
      assert q in multiset(xs) && r in multiset(xs);
      assert q in xs && r in xs;
    }
  }

  /** Any two arrival orders of the same segments (at distinct positions) leave the same
      window, and therefore the same future deliveries. */
  lemma {:induction false} ArrivalOrderIrrelevant(w: Ideal, xs: seq<Placed>, ys: seq<Placed>)
    requires Valid(w) && multiset(xs) == multiset(ys) && DistinctPositions(xs)
    ensures ArriveAll(w, xs) == ArriveAll(w, ys)
  {
    PermutationKeepsDistinct(xs, ys);
    ArriveAllContents(w, xs);
    ArriveAllContents(w, ys);
    forall q ensures q in xs <==> q in ys {
      assert q in xs <==> q in multiset(xs);
      assert q in ys <==> q in multiset(ys);
    }
    IncreasingIsCanonical(ArriveAll(w, xs).held, ArriveAll(w, ys).held);
  }
}
