/** Captured TCP packets and the bounded Go channel that carries them to a reader. */
module Packets {
  import opened Basics
  import opened TcpSequence
  import opened Reassembly
  import opened Endpoints

  /** A captured TCP packet. Only the payload changes: the window trims it in place. */
  class Packet {
    const seqNo: Uint32
    const ackNo: Uint32
    const syn: bool
    const ack: bool
    const fin: bool
    const rst: bool
    /** Who sent it: known from the network layer, kept here to state who owns a window. */
    ghost const sender: Endpoint
    var payload: seq<Byte>

    constructor (seqNo: Uint32, ackNo: Uint32, syn: bool, ack: bool, fin: bool, rst: bool,
                 ghost sender: Endpoint, payload: seq<Byte>)
      ensures this.seqNo == seqNo && this.ackNo == ackNo && this.syn == syn && this.ack == ack
      ensures this.fin == fin && this.rst == rst && this.sender == sender && this.payload == payload
    {
      this.seqNo, this.ackNo := seqNo, ackNo;
      this.syn, this.ack, this.fin, this.rst := syn, ack, fin, rst;
      this.sender, this.payload := sender, payload;
    }

    ghost function Value(): Segment
      reads this`payload
    {
      Segment(seqNo, payload)
    }
  }

  ghost function Values(packets: seq<Packet>): (s: seq<Segment>)
    reads packets
    ensures |s| == |packets| && forall i :: 0 <= i < |packets| ==> s[i] == packets[i].Value()
  {
    seq(|packets|, i requires 0 <= i < |packets| reads packets => packets[i].Value())
  }

  /** A buffered channel with its producer's view: `queue` holds every packet the reading
      code has not processed yet. The first `claimed` of them have already left the channel's
      buffer: the reader took them while a send or a wait was blocked. */
  class Channel {
    const capacity: nat
    var queue: seq<Packet>
    var claimed: nat
    var closed: bool
    /** Every packet ever sent. */
    ghost var sent: set<Packet>

    ghost predicate Valid()
      reads this`queue, this`claimed, this`sent
    {
      claimed <= |queue| && Len() <= capacity && forall i :: 0 <= i < |queue| ==> queue[i] in sent
    }

    function Len(): int
      reads this`queue, this`claimed
    {
      |queue| - claimed
    }

    constructor (capacity: nat)
      ensures Valid() && queue == [] && !closed && this.capacity == capacity && sent == {}
    {
      this.capacity := capacity;
      queue, claimed, closed, sent := [], 0, false, {};
    }

    /** Sending on a closed channel panics; on a full one it waits for the reader to take
        a packet. No packet is sent twice. */
    method Send(p: Packet)
      requires Valid() && !closed && p !in sent
      modifies this`queue, this`claimed, this`sent
      ensures Valid() && queue == old(queue) + [p] && sent == old(sent) + {p}
      ensures claimed == if old(Len()) < capacity then old(claimed) else old(claimed) + 1
    {
      queue, sent := queue + [p], sent + {p};
      if Len() > capacity {
        claimed := claimed + 1;
      }
    }

    /** The reading code's receive, for a channel with something in it. */
    method Receive() returns (p: Packet)
      requires Valid() && queue != []
      modifies this`queue, this`claimed
      ensures Valid() && [p] + queue == old(queue)
      ensures claimed == if old(claimed) == 0 then 0 else old(claimed) - 1
    {
      p := queue[0];
      queue := queue[1..];
      if claimed > 0 {
        claimed := claimed - 1;
      }
    }

    /** Time passes: the reader may take up to `taken` packets out of the buffer. */
    method Elapse(taken: nat)
      requires Valid()
      modifies this`claimed
      ensures Valid() && Len() == if taken <= old(Len()) then old(Len()) - taken else 0
    {
      claimed := if claimed + taken <= |queue| then claimed + taken else |queue|;
    }

    /** Closing twice panics. */
    method Close()
      requires Valid() && !closed
      modifies this`closed
      ensures Valid() && closed
    {
      closed := true;
    }
  }
}
