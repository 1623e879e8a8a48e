/** What the receive window computes, on values: segments in window order, the next expected
    sequence number and the last acknowledgement (httpdump/receive_window.go). */
module Reassembly {
  import opened Basics
  import opened TcpSequence

  datatype Segment = Segment(seqNo: Uint32, payload: seq<Byte>) {
    function End(): Uint32 {
      Wrap(seqNo + |payload|)
    }
  }

  /** `expectBegin == 0` is the source's marker for "nothing delivered yet". */
  datatype Window = Window(segments: seq<Segment>, expectBegin: Uint32, lastAck: Uint32)

  const EMPTY_WINDOW := Window([], 0, 0)

  /** The slot for `seqNo`, searched from the right; none when that number is present. */
  function FindSlot(segments: seq<Segment>, seqNo: Uint32): (slot: Option<nat>)
    ensures slot.Some? ==> slot.value <= |segments|
  {
    if segments == [] then Some(0) else
      var last := |segments| - 1;
      var order := CompareTCPSeq(segments[last].seqNo, seqNo);
      if order == 0 then None
      else if order < 0 then Some(|segments|)
      else FindSlot(segments[..last], seqNo)
  }

  /** True when everything the segment carries lies before the next expected byte. */
  predicate AlreadyDelivered(expectBegin: Uint32, s: Segment) {
    expectBegin != 0 && CompareTCPSeq(expectBegin, s.End()) >= 0
  }

  function Insert(w: Window, s: Segment): Window {
    if AlreadyDelivered(w.expectBegin, s) || s.payload == [] then w
    else match FindSlot(w.segments, s.seqNo)
      case None => w
      case Some(slot) => w.(segments := w.segments[..slot] + [s] + w.segments[slot..])
  }

  datatype Delivery = Delivery(sent: seq<Segment>, rest: seq<Segment>, expectBegin: Uint32)

  /** One turn of the delivery loop on the first segment: stop, skip it, or send it (perhaps
      trimmed at the front). */
  datatype Turn = Stop | Skip | Send(segment: Segment, expectBegin: Uint32)

  function TakeTurn(first: Segment, expectBegin: Uint32, ack: Uint32): Turn {
    if CompareTCPSeq(first.seqNo, ack) >= 0 then Stop
    else if expectBegin != 0 && CompareTCPSeq(expectBegin, first.seqNo) > 0 then
      var duplicated := Wrap(expectBegin - first.seqNo);
      if duplicated >= Wrap(|first.payload|) then Skip
      else Send(Segment(first.seqNo, first.payload[duplicated..]), first.End())
    else Send(first, first.End())
  }

  /** The delivery loop: the prefix of segments that start before `ack`. */
  function Deliver(segments: seq<Segment>, expectBegin: Uint32, ack: Uint32): (d: Delivery)
  {
    if segments == [] then Delivery([], [], expectBegin)
    else match TakeTurn(segments[0], expectBegin, ack)
      case Stop => Delivery([], segments, expectBegin)
      case Skip => Deliver(segments[1..], expectBegin, ack)
      case Send(s, next) =>
        var d := Deliver(segments[1..], next, ack);
        Delivery([s] + d.sent, d.rest, d.expectBegin)
  }

  function LaterAck(lastAck: Uint32, ack: Uint32): Uint32 {
    if CompareTCPSeq(lastAck, ack) < 0 || lastAck == 0 then ack else lastAck
  }

  function Confirm(w: Window, ack: Uint32): (r: (Window, seq<Segment>)) {
    var d := Deliver(w.segments, w.expectBegin, ack);
    (Window(d.rest, d.expectBegin, LaterAck(w.lastAck, ack)), d.sent)
  }

  /** All payload bytes of a sequence of segments, in order. */
  function Bytes(segments: seq<Segment>): seq<Byte> {
    if segments == [] then [] else segments[0].payload + Bytes(segments[1..])
  }

  lemma {:induction false} BytesOfConcat(a: seq<Segment>, b: seq<Segment>)
    ensures Bytes(a + b) == Bytes(a) + Bytes(b)
  {
    if a == [] {
      assert a + b == b;
    } else {
      assert (a + b)[1..] == a[1..] + b;
      BytesOfConcat(a[1..], b);
    }
  }

  predicate NoEmptyPayload(segments: seq<Segment>) {
    forall i :: 0 <= i < |segments| ==> segments[i].payload != []
  }

  /** Neither operation ever lets an empty payload through, whatever the sequence numbers. */
  lemma {:induction false} InsertKeepsPayloads(w: Window, s: Segment)
    requires NoEmptyPayload(w.segments)
    ensures NoEmptyPayload(Insert(w, s).segments)
  {
  }

  lemma {:induction false} DeliverKeepsPayloads(segments: seq<Segment>, expectBegin: Uint32, ack: Uint32)
    requires NoEmptyPayload(segments)
    ensures NoEmptyPayload(Deliver(segments, expectBegin, ack).sent)
    ensures NoEmptyPayload(Deliver(segments, expectBegin, ack).rest)
  {
    if segments != [] {
      match TakeTurn(segments[0], expectBegin, ack)
      case Stop =>
      case Skip => DeliverKeepsPayloads(segments[1..], expectBegin, ack);
      case Send(s, next) => DeliverKeepsPayloads(segments[1..], next, ack);
    }
  }
}
