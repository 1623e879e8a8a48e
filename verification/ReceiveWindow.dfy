/** The ring buffer of `ReceiveWindow`, proved to compute the value-level window for every
    input, in sequence order or not (httpdump/receive_window.go). */
module ReceiveWindows {
  import opened Basics
  import opened TcpSequence
  import opened Reassembly
  import opened Packets

  // ---- Ring indices

  /** `(start + i) % length`, for an index once around the ring. */
  function Slot(start: nat, i: nat, length: nat): (slot: nat)
    requires start < length && i <= length
    ensures slot < length
  {
    if start + i < length then start + i else start + i - length
  }

  lemma {:induction false} AtLeastOnce(k: nat, length: nat)
    requires 0 < k
    ensures k * length >= length
  {
    if k > 1 {
      AtLeastOnce(k - 1, length);
      assert k * length == (k - 1) * length + length;
    }
  }

  lemma {:induction false} SlotIsModulo(start: nat, i: nat, length: nat)
    requires start < length && i <= length
    ensures (start + i) % length == Slot(start, i, length)
  {
    var x := start + i;
    var k := x / length - (if x < length then 0 else 1);
    assert k * length == Slot(start, i, length) - x % length;
    if k > 0 {
      AtLeastOnce(k, length);
    }
  }

  /** What the delivery loop ends with, given what it has sent so far. */
  ghost function Resume(sent: seq<Segment>, segments: seq<Segment>, expectBegin: Uint32, ack: Uint32): Delivery {
    var d := Deliver(segments, expectBegin, ack);
    d.(sent := sent + d.sent)
  }

  lemma {:induction false} ResumeTurn(sent: seq<Segment>, segments: seq<Segment>, idx: nat,
                                      expectBegin: Uint32, ack: Uint32)
    requires idx < |segments|
    ensures Resume(sent, segments[idx..], expectBegin, ack) ==
            match TakeTurn(segments[idx], expectBegin, ack)
            case Stop => Delivery(sent, segments[idx..], expectBegin)
            case Skip => Resume(sent, segments[idx + 1..], expectBegin, ack)
            case Send(s, e) => Resume(sent + [s], segments[idx + 1..], e, ack)
  {
    assert segments[idx..][1..] == segments[idx + 1..];
    match TakeTurn(segments[idx], expectBegin, ack)
    case Send(s, e) =>
      var d := Deliver(segments[idx + 1..], e, ack);
      Regroup(sent, [s], d.sent);
    case _ =>
  }

  lemma {:induction false} ResumeNothing(sent: seq<Segment>, expectBegin: Uint32, ack: Uint32)
    ensures Resume(sent, [], expectBegin, ack) == Delivery(sent, [], expectBegin)
  {
  }

  class ReceiveWindow {
    var size: nat
    var start: nat
    var buffer: array<Packet?>
    var lastAck: Uint32
    var expectBegin: Uint32
    /** The packets held, in window order. */
    ghost var live: seq<Packet>

    /** The slot of index `i` of the window, counted from `start` around the ring. */
    ghost function At(i: nat): Packet?
      requires start < buffer.Length && i < buffer.Length
      reads this`start, this`buffer, buffer
    {
      buffer[Slot(start, i, buffer.Length)]
    }

    /** Live slots hold the packets, dead slots are nil, no packet is held twice. */
    ghost predicate Valid()
      reads this`size, this`start, this`buffer, this`live, buffer
    {
      && start < buffer.Length
      && size == |live| <= buffer.Length
      && (forall i :: 0 <= i < buffer.Length ==> At(i) == if i < size then live[i] else null)
      && (forall i, j :: 0 <= i < j < size ==> live[i] != live[j])
    }

    /** The value the window stands for. */
    ghost function View(): Window
      reads this`live, this`expectBegin, this`lastAck, live
    {
      Window(Values(live), expectBegin, lastAck)
    }

    constructor (initialSize: nat)
      requires 0 < initialSize
      ensures Valid() && fresh(buffer) && live == [] && View() == EMPTY_WINDOW
    {
      size, start, lastAck, expectBegin, live := 0, 0, 0, 0, [];
      buffer := new Packet?[initialSize](_ => null);
      new;
      assert Values(live) == [];
    }

    /** The slot of index `i` of the window, read. */
    method Load(i: nat) returns (packet: Packet?)
      requires start < buffer.Length && i < buffer.Length
      ensures packet == At(i)
    {
      SlotIsModulo(start, i, buffer.Length);
      packet := buffer[(start + i) % buffer.Length];
    }

    /** The slot of index `i` of the window, written. */
    method Store(i: nat, packet: Packet?)
      requires start < buffer.Length && i < buffer.Length
      modifies buffer
      ensures forall k :: 0 <= k < buffer.Length ==> At(k) == if k == i then packet else old(At(k))
    {
      SlotIsModulo(start, i, buffer.Length);
      buffer[(start + i) % buffer.Length] := packet;
    }

    /** The scan from the right for the packet's place; none when its number is present. */
    method Scan(seqNo: Uint32) returns (slot: Option<nat>)
      requires Valid()
      ensures slot == FindSlot(Values(live), seqNo)
    {
      ghost var segments := Values(live);
      var idx := size;
      assert segments[..idx] == segments;
      while idx > 0
        invariant 0 <= idx <= size
        invariant FindSlot(segments, seqNo) == FindSlot(segments[..idx], seqNo)
      {
        var prev := Load(idx - 1);
        assert prev == live[idx - 1];
        var result := CompareTCPSeq(prev.seqNo, seqNo);
        assert segments[..idx][..idx - 1] == segments[..idx - 1];
        if result == 0 {
          return None;
        }
        if result < 0 {
          break;
        }
        idx := idx - 1;
      }
      return Some(idx);
    }

    method Insert(packet: Packet)
      requires Valid() && packet !in live
      modifies this`size, this`start, this`buffer, this`live, buffer
      ensures Valid() && (buffer == old(buffer) || fresh(buffer))
      ensures View() == old(Reassembly.Insert(View(), packet.Value()))
      ensures forall p :: p in live ==> p in old(live) || p == packet
    {
      ghost var s := packet.Value();
      if expectBegin != 0 && CompareTCPSeq(expectBegin, Wrap(packet.seqNo + |packet.payload|)) >= 0 {
        assert AlreadyDelivered(expectBegin, s);
        return;
      }
      assert !AlreadyDelivered(expectBegin, s);
      hide AlreadyDelivered, CompareTCPSeq, FindSlot, Values;
      if |packet.payload| == 0 {
        return;
      }
      var slot := Scan(packet.seqNo);
      if slot.Some? {
        Place(slot.value, packet);
      }
    }

    method Place(slot: nat, packet: Packet)
      requires Valid() && packet !in live && slot <= |live|
      modifies this`size, this`start, this`buffer, this`live, buffer
      ensures Valid() && (buffer == old(buffer) || fresh(buffer))
      ensures live == old(live)[..slot] + [packet] + old(live)[slot..]
      ensures Values(live) == old(Values(live)[..slot] + [packet.Value()] + Values(live)[slot..])
    {
      if size == buffer.Length {
        Expand();
      }
      PutAt(slot, packet);
    }

    /** Moves the packets of the window's indices `idx..size` up by one slot. */
    method ShiftUp(idx: nat)
      requires start < buffer.Length && idx < size < buffer.Length
      modifies buffer
      ensures forall k :: 0 <= k <= idx || size < k < buffer.Length ==> At(k) == old(At(k))
      ensures forall k :: idx <= k < size ==> At(k + 1) == old(At(k))
    {
      var i := size - 1;
      while i >= idx
        modifies buffer
        invariant idx - 1 <= i < size
        invariant forall k :: 0 <= k <= i + 1 || size < k < buffer.Length ==> At(k) == old(At(k))
        invariant forall k :: i < k < size ==> At(k + 1) == old(At(k))
      {
        var current := Load(i);
        Store(i + 1, current);
        i := i - 1;
      }
    }

    /** Insertion at a position of the window: append, or shift the tail by one slot. */
    method PutAt(idx: nat, packet: Packet)
      requires Valid() && idx <= size < buffer.Length && packet !in live
      modifies this`size, this`live, buffer
      ensures Valid()
      ensures live == old(live)[..idx] + [packet] + old(live)[idx..]
    {
      if idx < size {
        ShiftUp(idx);
      }
      Store(idx, packet);
      hide Slot;
      size := size + 1;
      live := live[..idx] + [packet] + live[idx..];
    }

    /** Doubling re-linearises the ring from any `start` and keeps what it represents. */
    method Expand()
      requires Valid()
      modifies this`start, this`buffer
      ensures Valid() && fresh(buffer) && start == 0
      ensures buffer.Length == 2 * old(buffer.Length)
    {
      var bigger := new Packet?[buffer.Length * 2](_ => null);
      var end := start + size;
      if end < buffer.Length {
        forall i | 0 <= i < size {
          bigger[i] := buffer[start + i];
        }
      } else {
        var head := buffer.Length - start;
        forall i | 0 <= i < head {
          bigger[i] := buffer[start + i];
        }
        forall i | 0 <= i < end - buffer.Length {
          bigger[head + i] := buffer[i];
        }
      }
      assert forall i :: 0 <= i < size ==> bigger[i] == At(i);
      start := 0;
      buffer := bigger;
    }

    /** One turn of the delivery loop, on the packet at index `idx`. */
    method TakeTurnAt(idx: nat, ack: Uint32, c: Channel) returns (stop: bool)
      requires start < buffer.Length && idx < |live| <= buffer.Length && At(idx) == live[idx]
      requires c.Valid() && !c.closed && live[idx] !in c.sent
      modifies this`expectBegin, buffer, live[idx], c`queue, c`claimed, c`sent
      ensures c.Valid()
      ensures var turn := old(TakeTurn(live[idx].Value(), expectBegin, ack));
              && stop == turn.Stop? && (stop ==> live[idx].payload == old(live[idx].payload))
              && (forall k :: 0 <= k < buffer.Length ==> At(k) == if k == idx && !stop then null else old(At(k)))
              && Values(c.queue) == old(Values(c.queue)) + (if turn.Send? then [turn.segment] else [])
              && c.sent == old(c.sent) + (if turn.Send? then {live[idx]} else {})
              && expectBegin == if turn.Send? then turn.expectBegin else old(expectBegin)
    {
      hide CompareTCPSeq, Values;
      var packet := Load(idx);
      var result := CompareTCPSeq(packet.seqNo, ack);
      if result >= 0 {
        return true;
      }
      Store(idx, null);
      SendTrimmed(packet, ack, c);
      return false;
    }

    /** The part of the turn that follows the decision to remove the packet: cut what was
        delivered before, and send the rest if there is any. */
    method SendTrimmed(packet: Packet, ghost ack: Uint32, c: Channel)
      requires c.Valid() && !c.closed && packet !in c.sent && CompareTCPSeq(packet.seqNo, ack) < 0
      modifies this`expectBegin, packet, c`queue, c`claimed, c`sent
      ensures c.Valid()
      ensures var turn := old(TakeTurn(packet.Value(), expectBegin, ack));
              && !turn.Stop?
              && Values(c.queue) == old(Values(c.queue)) + (if turn.Send? then [turn.segment] else [])
              && c.sent == old(c.sent) + (if turn.Send? then {packet} else {})
              && expectBegin == if turn.Send? then turn.expectBegin else old(expectBegin)
    {
      hide CompareTCPSeq, Values;
      var newExpect := Wrap(packet.seqNo + |packet.payload|);
      if expectBegin != 0 {
        var diff := CompareTCPSeq(expectBegin, packet.seqNo);
        if diff > 0 {
          var duplicatedSize := Wrap(expectBegin - packet.seqNo);
          if duplicatedSize >= Wrap(|packet.payload|) {
            return;
          }
          packet.payload := packet.payload[duplicatedSize..];
        }
      }
      c.Send(packet);
      expectBegin := newExpect;
    }

    /** A turn, as one step towards what the whole loop delivers. */
    method Turn(idx: nat, ack: Uint32, c: Channel, ghost segments: seq<Segment>) returns (stop: bool)
      requires start < buffer.Length && idx < |live| <= buffer.Length && At(idx) == live[idx]
      requires c.Valid() && !c.closed && live[idx] !in c.sent
      requires |segments| == |live| && live[idx].Value() == segments[idx]
      modifies this`expectBegin, buffer, live[idx], c`queue, c`claimed, c`sent
      ensures c.Valid() && old(c.sent) <= c.sent <= old(c.sent) + (if stop then {} else {live[idx]})
      ensures forall k :: 0 <= k < buffer.Length ==> At(k) == if k == idx && !stop then null else old(At(k))
      ensures stop ==> live[idx].payload == old(live[idx].payload)
      ensures old(Resume(Values(c.queue), segments[idx..], expectBegin, ack)) ==
              if stop then Delivery(Values(c.queue), segments[idx..], expectBegin)
              else Resume(Values(c.queue), segments[idx + 1..], expectBegin, ack)
    {
      ResumeTurn(Values(c.queue), segments, idx, expectBegin, ack);
      stop := TakeTurnAt(idx, ack, c);
    }

    /** The first `idx` slots have been cleared, the others hold their packets. */
    ghost predicate Cleared(idx: nat)
      reads this`size, this`start, this`buffer, this`live, buffer
    {
      && start < buffer.Length && idx <= size == |live| <= buffer.Length
      && (forall i :: 0 <= i < buffer.Length ==> At(i) == if idx <= i < size then live[i] else null)
      && (forall i, j :: 0 <= i < j < size ==> live[i] != live[j])
    }

    /** From `idx` on, the packets are those of the segments, and none has been sent. */
    ghost predicate Unsent(idx: nat, segments: seq<Segment>, c: Channel, own: set<Packet>)
      reads this`live, live, c`sent
    {
      |segments| == |live| &&
      forall i :: idx <= i < |live| ==> live[i] in own && live[i] !in c.sent && live[i].Value() == segments[i]
    }

    /** One turn that either stops or brings the loop one packet further. */
    method NextTurn(idx: nat, ack: Uint32, c: Channel, ghost own: set<Packet>, ghost segments: seq<Segment>)
      returns (stop: bool)
      requires idx < size && Cleared(idx) && Unsent(idx, segments, c, own) && c.Valid() && !c.closed && c.sent <= own
      modifies this`expectBegin, buffer, own, c`queue, c`claimed, c`sent
      ensures Cleared(if stop then idx else idx + 1) && Unsent(if stop then idx else idx + 1, segments, c, own)
      ensures c.Valid() && old(c.sent) <= c.sent <= own
      ensures old(Resume(Values(c.queue), segments[idx..], expectBegin, ack)) ==
              if stop then Delivery(Values(c.queue), segments[idx..], expectBegin)
              else Resume(Values(c.queue), segments[idx + 1..], expectBegin, ack)
    {
      hide Resume, Values;
      stop := Turn(idx, ack, c, segments);
    }

    /** The delivery loop: takes turns from the front until one stops it. */
    method DeliverLoop(ack: Uint32, c: Channel, ghost own: set<Packet>) returns (idx: nat)
      requires Valid() && c.Valid() && !c.closed
      requires c.sent <= own && forall i :: 0 <= i < size ==> live[i] in own && live[i] !in c.sent
      modifies this`expectBegin, buffer, own, c`queue, c`claimed, c`sent
      ensures c.Valid() && Cleared(idx) && Unsent(idx, old(Values(live)), c, own)
      ensures old(Resume(Values(c.queue), Values(live), expectBegin, ack)) ==
              Delivery(Values(c.queue), old(Values(live))[idx..], expectBegin)
      ensures old(c.sent) <= c.sent <= own
    {
      idx := 0;
      ghost var segments := Values(live);
      ghost var goal := Resume(Values(c.queue), segments, expectBegin, ack);
      assert segments[0..] == segments && Cleared(0) && Unsent(0, segments, c, own);
      hide Resume, Values, Cleared, Unsent;
      while idx < size
        invariant 0 <= idx <= size && Cleared(idx) && Unsent(idx, segments, c, own)
        invariant c.Valid() && old(c.sent) <= c.sent <= own
        invariant Resume(Values(c.queue), segments[idx..], expectBegin, ack) == goal
      {
        var stop := NextTurn(idx, ack, c, own, segments);
        if stop {
          return;
        }
        idx := idx + 1;
      }
      assert segments[idx..] == [];
      ResumeNothing(Values(c.queue), expectBegin, ack);
    }

    /** Drops the first `idx` packets, whose slots have been cleared. */
    method Advance(idx: nat)
      requires Cleared(idx)
      modifies this`size, this`start, this`live
      ensures Valid() && live == old(live)[idx..] && Values(live) == old(Values(live[idx..]))
    {
      SlotIsModulo(start, idx, buffer.Length);
      start := (start + idx) % buffer.Length;
      size := size - idx;
      live := live[idx..];
      forall i | 0 <= i < buffer.Length
        ensures At(i) == old(At(if idx + i < buffer.Length then idx + i else idx + i - buffer.Length))
      {
      }
    }

    method Confirm(ack: Uint32, c: Channel, ghost own: set<Packet>)
      requires Valid() && c.Valid() && !c.closed
      requires c.sent <= own && forall i :: 0 <= i < size ==> live[i] in own && live[i] !in c.sent
      modifies this`size, this`start, this`lastAck, this`expectBegin, this`live, buffer, own, c`queue, c`claimed, c`sent
      ensures Valid() && c.Valid()
      ensures View() == old(Reassembly.Confirm(View(), ack).0)
      ensures Values(c.queue) == old(Values(c.queue)) + old(Reassembly.Confirm(View(), ack).1)
      ensures forall p :: p in live ==> p in old(live) && p !in c.sent
      ensures old(c.sent) <= c.sent <= own
    {
      ghost var w := View();
      var idx := DeliverLoop(ack, c, own);
      assert Values(live[idx..]) == w.segments[idx..];
      Advance(idx);
      if CompareTCPSeq(lastAck, ack) < 0 || lastAck == 0 {
        lastAck := ack;
      }
      assert View() == Reassembly.Confirm(w, ack).0;
    }
  }
}
