/** Batching log events for CloudWatch by count and by size (core/log/cloud_watch_hook.go). */
module LogBatching {
  import opened Basics

  const MAX_BATCH_BYTES := 1048576
  const MAX_BATCH_EVENTS := 10000
  const EVENT_OVERHEAD := 26

  datatype LogEvent = LogEvent(message: seq<Byte>) {
    function Size(): nat {
      |message| + EVENT_OVERHEAD
    }
  }

  datatype Input = Message(event: LogEvent) | Tick

  function Size(batch: seq<LogEvent>): nat {
    if batch == [] then 0 else Size(batch[..|batch| - 1]) + batch[|batch| - 1].Size()
  }

  function Messages(inputs: seq<Input>): seq<LogEvent> {
    if inputs == [] then []
    else
      var last := inputs[|inputs| - 1];
      Messages(inputs[..|inputs| - 1]) + (if last.Message? then [last.event] else [])
  }

  function Flatten(batches: seq<seq<LogEvent>>): seq<LogEvent> {
    if batches == [] then [] else Flatten(batches[..|batches| - 1]) + batches[|batches| - 1]
  }

  /** Within both limits, unless it is a single event that alone exceeds the size limit. */
  predicate Fits(batch: seq<LogEvent>) {
    |batch| <= MAX_BATCH_EVENTS && (Size(batch) < MAX_BATCH_BYTES || |batch| == 1)
  }

  /** The event no longer goes into the batch: it would reach the size limit, or the batch
      already has all the events it may have. */
  predicate Overflows(batch: seq<LogEvent>, e: LogEvent) {
    Size(batch) + e.Size() >= MAX_BATCH_BYTES || |batch| == MAX_BATCH_EVENTS
  }

  /** The input sends the batch off: a tick, or an event that does not fit. */
  predicate SendsOff(batch: seq<LogEvent>, input: Input) {
    match input
    case Message(e) => Overflows(batch, e)
    case Tick => true
  }

  /** Where the batch that ends at the `i`-th cut, or the one that is left, begins. */
  function Begin(cuts: seq<nat>, i: nat): nat
    requires i <= |cuts|
  {
    if i == 0 then 0 else cuts[i - 1]
  }

  /** The cuts are positions in the inputs, one after another. */
  predicate Ascending(cuts: seq<nat>, n: nat) {
    && (forall i :: 0 <= i < |cuts| ==> cuts[i] < n)
    && (forall i, j :: 0 <= i < j < |cuts| ==> cuts[i] < cuts[j])
  }

  /** What has gathered from a batch's beginning up to an input. */
  function Gathered(inputs: seq<Input>, cuts: seq<nat>, i: nat, k: nat): seq<LogEvent>
    requires i <= |cuts| && Begin(cuts, i) <= k <= |inputs|
  {
    Messages(inputs[Begin(cuts, i)..k])
  }

  /** No input strictly inside a batch, nor the very first one, sends off what has gathered. */
  predicate NoneSendsOff(inputs: seq<Input>, cuts: seq<nat>, i: nat, end: nat)
    requires i <= |cuts| && end <= |inputs|
  {
    forall k :: Begin(cuts, i) <= k < end && (i == 0 || Begin(cuts, i) < k) ==>
      !SendsOff(Gathered(inputs, cuts, i, k), inputs[k])
  }

  /** The `i`-th batch is what gathered from its beginning to its cut; the input there sent it
      off, and none before did. */
  predicate CutHolds(inputs: seq<Input>, dispatched: seq<seq<LogEvent>>, cuts: seq<nat>, i: nat)
    requires i < |cuts| == |dispatched| && Ascending(cuts, |inputs|)
  {
    && dispatched[i] == Gathered(inputs, cuts, i, cuts[i])
    && SendsOff(dispatched[i], inputs[cuts[i]]) && NoneSendsOff(inputs, cuts, i, cuts[i])
  }

  predicate CutsHold(inputs: seq<Input>, dispatched: seq<seq<LogEvent>>, cuts: seq<nat>) {
    && |cuts| == |dispatched| && Ascending(cuts, |inputs|)
    && forall i :: 0 <= i < |cuts| ==> CutHolds(inputs, dispatched, cuts, i)
  }

  /** The batches lie end to end in the inputs, each cut where it was called for, and nothing
      since the last cut calls for another. */
  predicate CutAsCalledFor(inputs: seq<Input>, dispatched: seq<seq<LogEvent>>, batch: seq<LogEvent>, cuts: seq<nat>) {
    && CutsHold(inputs, dispatched, cuts)
    && batch == Gathered(inputs, cuts, |cuts|, |inputs|) && NoneSendsOff(inputs, cuts, |cuts|, |inputs|)
  }

  lemma {:induction false} FlattenLast(batches: seq<seq<LogEvent>>, batch: seq<LogEvent>)
    ensures Flatten(batches + [batch]) == Flatten(batches) + batch
  {
    assert (batches + [batch])[..|batches|] == batches;
  }

  lemma {:induction false} MessagesStep(inputs: seq<Input>, i: nat)
    requires i < |inputs|
    ensures Messages(inputs[..i + 1]) ==
            Messages(inputs[..i]) + (if inputs[i].Message? then [inputs[i].event] else [])
  {
    assert inputs[..i + 1][..i] == inputs[..i];
  }

  lemma {:induction false} SizeLast(batch: seq<LogEvent>, e: LogEvent)
    ensures Size(batch + [e]) == Size(batch) + e.Size()
  {
    assert (batch + [e])[..|batch|] == batch;
  }

  lemma {:induction false} GatheredLast(inputs: seq<Input>, cuts: seq<nat>, i: nat, k: nat)
    requires i <= |cuts| && Begin(cuts, i) <= k < |inputs|
    ensures Gathered(inputs, cuts, i, k + 1) ==
            Gathered(inputs, cuts, i, k) + (if inputs[k].Message? then [inputs[k].event] else [])
  {
    var b := Begin(cuts, i);
    assert inputs[b..k + 1][..k - b] == inputs[b..k];
  }

  /** Inputs to come change nothing about the cuts so far. */
  lemma {:induction false} NoneSendsOffPrefix(inputs: seq<Input>, more: seq<Input>, cuts: seq<nat>, i: nat, end: nat)
    requires i <= |cuts| && end <= |inputs| <= |more| && inputs == more[..|inputs|]
    ensures NoneSendsOff(inputs, cuts, i, end) <==> NoneSendsOff(more, cuts, i, end)
  {
    forall k | Begin(cuts, i) <= k < end
      ensures Gathered(inputs, cuts, i, k) == Gathered(more, cuts, i, k) && inputs[k] == more[k]
    {
      assert inputs[Begin(cuts, i)..k] == more[Begin(cuts, i)..k];
    }
  }

  lemma {:induction false} NoneSendsOffLast(inputs: seq<Input>, cuts: seq<nat>, i: nat, end: nat)
    requires i <= |cuts| && Begin(cuts, i) <= end < |inputs| && NoneSendsOff(inputs, cuts, i, end)
    requires !SendsOff(Gathered(inputs, cuts, i, end), inputs[end])
    ensures NoneSendsOff(inputs, cuts, i, end + 1)
  {
  }

  lemma {:induction false} NoneAt(inputs: seq<Input>, cuts: seq<nat>, i: nat, end: nat, k: nat)
    requires i <= |cuts| && end <= |inputs| && NoneSendsOff(inputs, cuts, i, end)
    requires Begin(cuts, i) <= k < end && (i == 0 || Begin(cuts, i) < k)
    ensures !SendsOff(Gathered(inputs, cuts, i, k), inputs[k])
  {
  }

  lemma {:induction false} CutStays(now: seq<Input>, more: seq<Input>, dispatched: seq<seq<LogEvent>>, cuts: seq<nat>,
                                    i: nat)
    requires i < |cuts| == |dispatched| && Ascending(cuts, |now|) && CutHolds(now, dispatched, cuts, i)
    requires |now| <= |more| && now == more[..|now|]
    ensures Ascending(cuts, |more|) && CutHolds(more, dispatched, cuts, i)
  {
    assert Begin(cuts, i) <= cuts[i];
    SliceOfPrefix(more, |now|, Begin(cuts, i), cuts[i]);
    assert now[cuts[i]] == more[cuts[i]];
    NoneSendsOffPrefix(now, more, cuts, i, cuts[i]);
    hide NoneSendsOff, SendsOff, Messages;
  }

  lemma {:induction false} CutsStay(now: seq<Input>, more: seq<Input>, dispatched: seq<seq<LogEvent>>,
                                    batch: seq<LogEvent>, cuts: seq<nat>)
    requires CutAsCalledFor(now, dispatched, batch, cuts) && |now| <= |more| && now == more[..|now|]
    ensures CutsHold(more, dispatched, cuts) && batch == Gathered(more, cuts, |cuts|, |now|)
    ensures NoneSendsOff(more, cuts, |cuts|, |now|)
  {
    hide NoneSendsOff, CutHolds;
    forall i | 0 <= i < |cuts| ensures CutHolds(more, dispatched, cuts, i) {
      CutStays(now, more, dispatched, cuts, i);
    }
    assert now[Begin(cuts, |cuts|)..|now|] == more[Begin(cuts, |cuts|)..|now|];
    NoneSendsOffPrefix(now, more, cuts, |cuts|, |now|);
  }

  /** The input joins the batch. */
  lemma {:induction false} CutsGoOn(inputs: seq<Input>, n: nat, dispatched: seq<seq<LogEvent>>, batch: seq<LogEvent>,
                                    cuts: seq<nat>)
    requires n < |inputs| && CutAsCalledFor(inputs[..n], dispatched, batch, cuts) && inputs[n].Message?
    requires !SendsOff(batch, inputs[n])
    ensures CutAsCalledFor(inputs[..n + 1], dispatched, batch + [inputs[n].event], cuts)
  {
    var more := inputs[..n + 1];
    assert inputs[..n] == more[..n];
    CutsStay(inputs[..n], more, dispatched, batch, cuts);
    GatheredLast(more, cuts, |cuts|, n);
    NoneSendsOffLast(more, cuts, |cuts|, n);
    hide SendsOff, Gathered, CutHolds, NoneSendsOff;
  }

  lemma {:induction false} CutHoldsOn(inputs: seq<Input>, dispatched: seq<seq<LogEvent>>, cuts: seq<nat>,
                                      batch: seq<LogEvent>, n: nat, i: nat)
    requires |cuts| == |dispatched| && Ascending(cuts, |inputs|) && Ascending(cuts + [n], |inputs|)
    requires i <= |cuts| && Begin(cuts, |cuts|) <= n < |inputs|
    requires if i < |cuts| then CutHolds(inputs, dispatched, cuts, i)
             else && batch == Gathered(inputs, cuts, i, n) && NoneSendsOff(inputs, cuts, i, n)
                  && SendsOff(batch, inputs[n])
    ensures CutHolds(inputs, dispatched + [batch], cuts + [n], i)
  {
    assert Begin(cuts + [n], i) == Begin(cuts, i);
    hide SendsOff, Messages;
  }

  /** The input sends the batch off, and joins the next one if it is a message. */
  lemma {:induction false} CutsGrow(inputs: seq<Input>, n: nat, dispatched: seq<seq<LogEvent>>, batch: seq<LogEvent>,
                                    cuts: seq<nat>)
    requires n < |inputs| && CutAsCalledFor(inputs[..n], dispatched, batch, cuts) && SendsOff(batch, inputs[n])
    ensures CutAsCalledFor(inputs[..n + 1], dispatched + [batch],
                           if inputs[n].Message? then [inputs[n].event] else [], cuts + [n])
  {
    var more, cuts' := inputs[..n + 1], cuts + [n];
    assert inputs[..n] == more[..n];
    CutsStay(inputs[..n], more, dispatched, batch, cuts);
    assert Ascending(cuts', n + 1);
    assert more[n..n] == [] && Gathered(more, cuts', |cuts'|, n) == [];
    GatheredLast(more, cuts', |cuts'|, n);
    assert NoneSendsOff(more, cuts', |cuts'|, n + 1);
    hide SendsOff, Gathered, CutHolds, NoneSendsOff;
    forall i | 0 <= i < |cuts'| ensures CutHolds(more, dispatched + [batch], cuts', i) {
      CutHoldsOn(more, dispatched, cuts, batch, n, i);
    }
  }

  /** Where one list of cuts has the next cut, the other cannot do without. */
  lemma {:induction false} NextCutToo(inputs: seq<Input>,
                                      d1: seq<seq<LogEvent>>, b1: seq<LogEvent>, c1: seq<nat>,
                                      d2: seq<seq<LogEvent>>, b2: seq<LogEvent>, c2: seq<nat>, n: nat)
    requires CutAsCalledFor(inputs, d1, b1, c1) && CutAsCalledFor(inputs, d2, b2, c2)
    requires n < |c1| && n <= |c2| && Begin(c1, n) == Begin(c2, n)
    ensures n < |c2| && c2[n] <= c1[n]
  {
    var k := c1[n];
    assert n > 0 ==> c1[n - 1] < c1[n];
    assert CutHolds(inputs, d1, c1, n) && (n < |c2| ==> CutHolds(inputs, d2, c2, n));
    hide NoneSendsOff, SendsOff;
    if n == |c2| || k < c2[n] {
      NoneAt(inputs, c2, n, if n == |c2| then |inputs| else c2[n], k);
    }
  }

  lemma {:induction false} CutsAgree(inputs: seq<Input>,
                                     d1: seq<seq<LogEvent>>, b1: seq<LogEvent>, c1: seq<nat>,
                                     d2: seq<seq<LogEvent>>, b2: seq<LogEvent>, c2: seq<nat>, n: nat)
    requires CutAsCalledFor(inputs, d1, b1, c1) && CutAsCalledFor(inputs, d2, b2, c2) && n <= |c1| && n <= |c2|
    ensures forall i :: 0 <= i < n ==> c1[i] == c2[i]
  {
    hide CutAsCalledFor;
    if n > 0 {
      CutsAgree(inputs, d1, b1, c1, d2, b2, c2, n - 1);
      NextCutToo(inputs, d1, b1, c1, d2, b2, c2, n - 1);
      NextCutToo(inputs, d2, b2, c2, d1, b1, c1, n - 1);
    }
  }

  /** The inputs leave no choice: cuts, batches and what is left are determined by them. */
  lemma {:induction false} CutsAreDetermined(inputs: seq<Input>,
                                             d1: seq<seq<LogEvent>>, b1: seq<LogEvent>, c1: seq<nat>,
                                             d2: seq<seq<LogEvent>>, b2: seq<LogEvent>, c2: seq<nat>)
    requires CutAsCalledFor(inputs, d1, b1, c1) && CutAsCalledFor(inputs, d2, b2, c2)
    ensures d1 == d2 && b1 == b2 && c1 == c2
  {
    var n := if |c1| <= |c2| then |c1| else |c2|;
    CutsAgree(inputs, d1, b1, c1, d2, b2, c2, n);
    if |c1| < |c2| {
      NextCutToo(inputs, d2, b2, c2, d1, b1, c1, n);
    } else if |c2| < |c1| {
      NextCutToo(inputs, d1, b1, c1, d2, b2, c2, n);
    }
    hide Gathered, SendsOff, NoneSendsOff;
    assert c1 == c2;
    forall i | 0 <= i < |d1| ensures d1[i] == d2[i] {
      assert CutHolds(inputs, d1, c1, i) && CutHolds(inputs, d2, c2, i);
    }
  }

  // ---- The limits in bytes

  /** The bytes of the messages. */
  function Bytes(batch: seq<LogEvent>): nat {
    if batch == [] then 0 else Bytes(batch[..|batch| - 1]) + |batch[|batch| - 1].message|
  }

  lemma {:induction false} SizeInBytes(batch: seq<LogEvent>)
    ensures Size(batch) == Bytes(batch) + 26 * |batch|
  {
    if batch != [] {
      SizeInBytes(batch[..|batch| - 1]);
    }
  }

  /** At the `i`-th cut there is a tick, or a message that with the 26 bytes each message costs
      would bring the batch to a mebibyte, or the batch has 10000 messages. */
  lemma {:induction false} CutInBytes(inputs: seq<Input>, dispatched: seq<seq<LogEvent>>, batch: seq<LogEvent>,
                                      cuts: seq<nat>, i: nat)
    requires CutAsCalledFor(inputs, dispatched, batch, cuts) && i < |cuts|
    ensures cuts[i] < |inputs| && i < |dispatched|
    ensures match inputs[cuts[i]]
            case Message(e) =>
              || Bytes(dispatched[i]) + |e.message| + 26 * (|dispatched[i]| + 1) >= 1048576
              || |dispatched[i]| == 10000
            case Tick => true
  {
    assert CutHolds(inputs, dispatched, cuts, i);
    SizeInBytes(dispatched[i]);
    hide NoneSendsOff, Size, Bytes, Gathered;
  }

  /** Between the cuts there is no tick, and every message keeps what has gathered before it
      below both limits. */
  lemma {:induction false} NoCutInBytes(inputs: seq<Input>, dispatched: seq<seq<LogEvent>>, batch: seq<LogEvent>,
                                        cuts: seq<nat>, i: nat, k: nat)
    requires CutAsCalledFor(inputs, dispatched, batch, cuts) && i <= |cuts|
    requires (if i == 0 then 0 else cuts[i - 1] + 1) <= k < (if i == |cuts| then |inputs| else cuts[i])
    ensures k < |inputs| && inputs[k].Message?
    ensures var gathered := Messages(inputs[if i == 0 then 0 else cuts[i - 1]..k]);
            && Bytes(gathered) + |inputs[k].event.message| + 26 * (|gathered| + 1) < 1048576
            && |gathered| != 10000
  {
    assert i < |cuts| ==> CutHolds(inputs, dispatched, cuts, i);
    NoneAt(inputs, cuts, i, if i == |cuts| then |inputs| else cuts[i], k);
    SizeInBytes(Gathered(inputs, cuts, i, k));
    hide NoneSendsOff, Size, Bytes, Messages;
  }

  /** The books of the loop after some inputs. */
  predicate Kept(inputs: seq<Input>, dispatched: seq<seq<LogEvent>>, batch: seq<LogEvent>, cuts: seq<nat>) {
    && Flatten(dispatched) + batch == Messages(inputs)
    && Fits(batch) && (forall i :: 0 <= i < |dispatched| ==> Fits(dispatched[i]))
    && CutAsCalledFor(inputs, dispatched, batch, cuts)
  }

  lemma {:induction false} KeptGoingOn(inputs: seq<Input>, n: nat, dispatched: seq<seq<LogEvent>>,
                                       batch: seq<LogEvent>, cuts: seq<nat>)
    requires n < |inputs| && Kept(inputs[..n], dispatched, batch, cuts) && inputs[n].Message?
    requires !SendsOff(batch, inputs[n])
    ensures Kept(inputs[..n + 1], dispatched, batch + [inputs[n].event], cuts)
  {
    MessagesStep(inputs, n);
    SizeLast(batch, inputs[n].event);
    Regroup(Flatten(dispatched), batch, [inputs[n].event]);
    CutsGoOn(inputs, n, dispatched, batch, cuts);
    hide CutAsCalledFor, Messages, Flatten, Size;
  }

  lemma {:induction false} FitsNext(dispatched: seq<seq<LogEvent>>, batch: seq<LogEvent>, input: Input)
    requires Fits(batch) && forall i :: 0 <= i < |dispatched| ==> Fits(dispatched[i])
    ensures Fits(if input.Message? then [input.event] else [])
    ensures forall i :: 0 <= i < |dispatched + [batch]| ==> Fits((dispatched + [batch])[i])
  {
    assert Size([]) == 0;
  }

  lemma {:induction false} KeptSendingOff(inputs: seq<Input>, n: nat, dispatched: seq<seq<LogEvent>>,
                                          batch: seq<LogEvent>, cuts: seq<nat>)
    requires n < |inputs| && Kept(inputs[..n], dispatched, batch, cuts) && SendsOff(batch, inputs[n])
    ensures Kept(inputs[..n + 1], dispatched + [batch],
                 if inputs[n].Message? then [inputs[n].event] else [], cuts + [n])
  {
    MessagesStep(inputs, n);
    FlattenLast(dispatched, batch);
    CutsGrow(inputs, n, dispatched, batch, cuts);
    FitsNext(dispatched, batch, inputs[n]);
    hide *;
  }

  /** The batching loop over any finite stretch of events and ticks: nothing is lost, repeated
      or reordered, every batch keeps the limits, and each ends exactly where a tick or an event
      that does not fit sends it off. */
  method PutBatches(inputs: seq<Input>)
    returns (dispatched: seq<seq<LogEvent>>, batch: seq<LogEvent>, ghost cuts: seq<nat>)
    ensures Flatten(dispatched) + batch == Messages(inputs)
    ensures Fits(batch) && forall i :: 0 <= i < |dispatched| ==> Fits(dispatched[i])
    ensures forall i :: 0 <= i < |dispatched| ==>
              |dispatched[i]| <= 10000 &&
              (|dispatched[i]| == 1 || Bytes(dispatched[i]) + 26 * |dispatched[i]| < 1048576)
    ensures CutAsCalledFor(inputs, dispatched, batch, cuts)
  {
    dispatched, batch, cuts := [], [], [];
    var size := 0;
    var i := 0;
    StartsUncut(inputs);
    hide CutAsCalledFor;
    while i < |inputs|
      invariant 0 <= i <= |inputs| && size == Size(batch)
      invariant Kept(inputs[..i], dispatched, batch, cuts)
    {
      hide Kept;
      match inputs[i] {
        case Message(p) =>
          var messageSize := |p.message| + EVENT_OVERHEAD;
          if size + messageSize >= MAX_BATCH_BYTES || |batch| == MAX_BATCH_EVENTS {
            KeptSendingOff(inputs, i, dispatched, batch, cuts);
            dispatched, cuts := dispatched + [batch], cuts + [i];
            batch := [];
            size := 0;
          } else {
            KeptGoingOn(inputs, i, dispatched, batch, cuts);
          }
          SizeLast(batch, p);
          batch := batch + [p];
          size := size + messageSize;
        case Tick =>
          KeptSendingOff(inputs, i, dispatched, batch, cuts);
          dispatched, cuts := dispatched + [batch], cuts + [i];
          batch := [];
          size := 0;
      }
      i := i + 1;
    }
    assert inputs[..i] == inputs;
    forall j | 0 <= j < |dispatched| ensures Size(dispatched[j]) == Bytes(dispatched[j]) + 26 * |dispatched[j]| {
      SizeInBytes(dispatched[j]);
    }
  }

  lemma {:induction false} StartsUncut(inputs: seq<Input>)
    ensures Kept(inputs[..0], [], [], [])
  {
    assert inputs[..0][0..0] == [];
  }

  /** The batches that reach the service: sending skips an empty one. */
  function NonEmpty(batches: seq<seq<LogEvent>>): (sent: seq<seq<LogEvent>>)
    ensures Flatten(sent) == Flatten(batches)
    ensures forall i :: 0 <= i < |sent| ==> sent[i] != []
  {
    if batches == [] then [] else
      var rest, last := NonEmpty(batches[..|batches| - 1]), batches[|batches| - 1];
      FlattenLast(rest, last);
      if last == [] then rest else rest + [last]
  }
}
