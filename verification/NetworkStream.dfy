/** One direction of a connection: a receive window, a bounded channel and a chunking
    reader (httpdump/network_stream.go). */
module NetworkStreams {
  import opened Basics
  import opened TcpSequence
  import opened Reassembly
  import opened Packets
  import opened ReceiveWindows
  import opened ConnectionModel

  /** How a read ends. `Waiting` stands for a read still in its loop when the given
      sequence of timer expiries is used up. */
  datatype Outcome = Data(n: nat) | EndOfFile | Waiting

  function Sum(ns: seq<nat>): nat {
    if ns == [] then 0 else ns[0] + Sum(ns[1..])
  }

  function Min(a: int, b: int): int {
    if a <= b then a else b
  }

  const WINDOW_SIZE := 64

  /** The books of one stream: bytes handed out, in hand and queued are the bytes sent. */
  ghost predicate Balanced(returned: seq<Byte>, remain: seq<Byte>, queued: seq<Segment>, sentBytes: seq<Byte>) {
    NoEmptyPayload(queued) && returned + remain + Bytes(queued) == sentBytes
  }

  lemma {:induction false} BalancedAfterSend(returned: seq<Byte>, remain: seq<Byte>, queued: seq<Segment>,
                                             sentBytes: seq<Byte>, sent: seq<Segment>)
    requires Balanced(returned, remain, queued, sentBytes) && NoEmptyPayload(sent)
    ensures Balanced(returned, remain, queued + sent, sentBytes + Bytes(sent))
  {
    BytesOfConcat(queued, sent);
    Regroup(returned + remain, Bytes(queued), Bytes(sent));
  }

  lemma {:induction false} BalancedAfterReceive(returned: seq<Byte>, queued: seq<Segment>, sentBytes: seq<Byte>)
    requires Balanced(returned, [], queued, sentBytes) && queued != []
    ensures Balanced(returned, queued[0].payload, queued[1..], sentBytes)
  {
    assert returned + [] == returned;
    Regroup(returned, queued[0].payload, Bytes(queued[1..]));
  }

  lemma {:induction false} BalancedAfterCopy(returned: seq<Byte>, remain: seq<Byte>, queued: seq<Segment>,
                                             sentBytes: seq<Byte>, n: nat)
    requires Balanced(returned, remain, queued, sentBytes) && n <= |remain|
    ensures Balanced(returned + remain[..n], remain[n..], queued, sentBytes)
  {
    assert remain == remain[..n] + remain[n..];
    Regroup(returned, remain[..n], remain[n..]);
  }

  class NetworkStream {
    const window: ReceiveWindow
    const c: Channel
    var remain: seq<Byte>
    var ignore: bool
    var closed: bool
    var eofSimulated: bool
    var opposite: NetworkStream?
    /** Every packet ever appended; every packet whose acknowledgement was ever taken for this
        stream; all the payload bytes `confirm` ever sent; all the bytes ever returned by
        `Read`. */
    ghost var seen: set<Packet>
    ghost var confirmedBy: set<Packet>
    ghost var Repr: set<object>
    ghost var sentBytes: seq<Byte>
    ghost var returned: seq<Byte>

    /** What the packet loop keeps: no packet is held after it was sent, none is empty. */
    ghost predicate WindowValid()
      reads this`seen, window, window.buffer, c`sent, seen
    {
      && window.Valid() && c.sent <= seen
      && (forall p :: p in window.live ==> p in seen && p !in c.sent)
      && NoEmptyPayload(window.View().segments)
    }

    /** What both ends keep: every byte sent is returned, remaining or queued, in order. */
    ghost predicate BytesValid()
      reads this`remain, this`returned, this`sentBytes, c, c.queue
    {
      c.Valid() && Balanced(returned, remain, Values(c.queue), sentBytes)
    }

    ghost predicate Valid()
      reads this, Repr
      ensures Valid() ==> this in Repr && c in Repr
    {
      && this in Repr && window in Repr && window.buffer in Repr && c in Repr && seen <= Repr
      && c.Valid() && WindowValid() && BytesValid()
    }

    ghost function View(): StreamView
      requires Valid()
      reads this, Repr
    {
      StreamView(window.View(), Values(c.queue), ignore, eofSimulated, closed)
    }

    ghost predicate ChannelClosed()
      requires Valid()
      reads this, Repr
    {
      c.closed
    }

    constructor (channelSize: nat)
      ensures Valid() && fresh(Repr) && seen == confirmedBy == {} && View() == NEW_STREAM && !ChannelClosed()
      ensures c.capacity == channelSize && opposite == null && returned == [] && sentBytes == []
      ensures c.Len() == 0
    {
      window := new ReceiveWindow(WINDOW_SIZE);
      c := new Channel(channelSize);
      remain, ignore, closed, eofSimulated, opposite := [], false, false, false, null;
      seen, confirmedBy, sentBytes, returned := {}, {}, [], [];
      new;
      Repr := {this, window, window.buffer, c};
      assert Values(c.queue) == [];
      hide ReceiveWindow.Valid, ReceiveWindow.View, Values;
      assert WindowValid() && BytesValid();
      hide WindowValid, BytesValid;
    }

    method AppendPacket(tcp: Packet)
      requires Valid() && tcp !in Repr
      modifies Repr
      ensures Valid() && seen == old(seen) + {tcp} && fresh(Repr - old(Repr) - {tcp})
      ensures View() == Append(old(View()), old(tcp.Value())) && ChannelClosed() == old(ChannelClosed())
      ensures window.View() == old(if ignore || eofSimulated then window.View()
                                   else Insert(window.View(), tcp.Value()))
      ensures opposite == old(opposite) && confirmedBy == old(confirmedBy)
    {
      hide ReceiveWindow.Valid, ReceiveWindow.View, Insert;
      seen, Repr := seen + {tcp}, Repr + {tcp};
      if ignore || eofSimulated {
        return;
      }
      InsertKeepsPayloads(window.View(), tcp.Value());
      window.Insert(tcp);
      Repr := Repr + {window.buffer};
      assert WindowValid();
    }

    /** Polls until the channel has room; `polls` is how many packets the reader takes during
        each sleep before the timeout. It succeeds exactly when the reader makes room in time
        and otherwise switches the stream off. */
    method WaitForChannelSpace(polls: seq<nat>) returns (ok: bool)
      requires Valid()
      modifies this`ignore, c`claimed
      ensures Valid()
      ensures ok <==> 0 < c.capacity && old(c.Len()) < c.capacity + Sum(polls)
      ensures ignore == (old(ignore) || !ok)
      ensures ok ==> c.Len() < c.capacity
    {
      var i := 0;
      while c.Len() >= c.capacity
        invariant 0 <= i <= |polls| && Valid() && ignore == old(ignore)
        invariant c.Len() == 0 || c.Len() + Sum(polls) == old(c.Len()) + Sum(polls[i..])
        invariant c.Len() == 0 ==> old(c.Len()) + Sum(polls[i..]) <= Sum(polls)
        invariant c.Len() <= old(c.Len())
        decreases |polls| - i
      {
        if i == |polls| {
          ignore := true;
          return false;
        }
        c.Elapse(polls[i]);
        i := i + 1;
      }
      return true;
    }

    /** Whether the reader makes room in time, were the stream to wait now. */
    ghost predicate FindsSpace(polls: seq<nat>)
      reads c`queue, c`claimed
    {
      0 < c.capacity && c.Len() < c.capacity + Sum(polls)
    }

    lemma {:induction false} EmptyFindsSpace(polls: seq<nat>)
      requires c.Len() == 0
      ensures FindsSpace(polls) <==> 0 < c.capacity
    {
    }

    method ConfirmPacket(ack: Uint32, polls: seq<nat>, ghost tcp: Packet)
      requires Valid() && !ChannelClosed() && tcp.ackNo == ack
      modifies Repr
      ensures Valid() && !ChannelClosed() && Repr == old(Repr) && seen == old(seen) && opposite == old(opposite)
      ensures old(ignore || eofSimulated || !FindsSpace(polls)) ==>
                window.View() == old(window.View()) && Values(c.queue) == old(Values(c.queue))
      ensures ignore == old(ignore || (!eofSimulated && !FindsSpace(polls))) && eofSimulated == old(eofSimulated)
      ensures confirmedBy == old(confirmedBy) + {tcp}
      ensures View() == Acknowledged(old(View()), ack, old(FindsSpace(polls)))
      ensures sentBytes == old(sentBytes) +
                (if old(View().Off() || !FindsSpace(polls)) then [] else Bytes(Confirm(old(View()).window, ack).1))
    {
      hide ReceiveWindow.Valid, ReceiveWindow.View, Confirm, WindowValid, BytesValid;
      confirmedBy := confirmedBy + {tcp};
      if ignore || eofSimulated {
        return;
      }
      var ok := WaitForChannelSpace(polls);
      if ok {
        SendConfirmed(ack);
      }
    }

    /** The window's `confirm` on this stream's channel, with the log of what it sends. */
    method SendConfirmed(ack: Uint32)
      requires Valid() && !c.closed
      modifies this`sentBytes, c`queue, c`claimed, c`sent, window, window.buffer, seen
      ensures Valid() && window.buffer == old(window.buffer)
      ensures window.View() == old(Confirm(window.View(), ack).0)
      ensures Values(c.queue) == old(Values(c.queue)) + old(Confirm(window.View(), ack).1)
      ensures sentBytes == old(sentBytes) + Bytes(old(Confirm(window.View(), ack).1))
      ensures forall p :: p in window.live ==> p in old(window.live)
    {
      ghost var queued, sent := Values(c.queue), Confirm(window.View(), ack).1;
      DeliverKeepsPayloads(window.View().segments, window.expectBegin, ack);
      BalancedAfterSend(returned, remain, queued, sentBytes, sent);
      ConfirmWindow(ack);
      sentBytes := sentBytes + Bytes(sent);
    }

    method ConfirmWindow(ack: Uint32)
      requires WindowValid() && c.Valid() && !c.closed
      requires NoEmptyPayload(Confirm(window.View(), ack).0.segments)
      modifies c`queue, c`claimed, c`sent, window, window.buffer, seen
      ensures WindowValid() && c.Valid() && window.buffer == old(window.buffer)
      ensures window.View() == old(Confirm(window.View(), ack).0)
      ensures Values(c.queue) == old(Values(c.queue)) + old(Confirm(window.View(), ack).1)
      ensures forall p :: p in window.live ==> p in old(window.live)
    {
      window.Confirm(ack, c, seen);
    }

    method SetOpposite(other: NetworkStream)
      requires Valid()
      modifies this`opposite
      ensures Valid() && opposite == other && View() == old(View()) && ChannelClosed() == old(ChannelClosed())
    {
      opposite := other;
    }

    /** The connection saw the sender of this direction finish or reset. */
    method MarkClosed()
      requires Valid()
      modifies this`closed
      ensures Valid() && View() == old(View()).(closed := true) && ChannelClosed() == old(ChannelClosed())
    {
      closed := true;
    }

    method Finish()
      requires Valid() && !ChannelClosed()
      modifies c`closed
      ensures Valid() && ChannelClosed() && View() == old(View())
    {
      c.Close();
    }

    /** The waiting loop of `Read`. `expiries` lists the timer expiries that `select` chooses
        before it looks at the channel, a packet being there or not: whether the stream has by
        then been inactive for too long. The loop ends on an expiry that gives up, with a
        packet, or on a closed and drained channel. */
    method Refill(expiries: seq<bool>) returns (r: Outcome)
      requires Valid() && opposite != null
      modifies this`remain, this`eofSimulated, c`queue, c`claimed
      ensures Valid()
      ensures old(remain == []) && expiries != [] && old(opposite.c.Len()) == opposite.c.capacity ==> r.EndOfFile?
      ensures old(remain == []) && true in expiries ==> r.EndOfFile?
      ensures old(remain == []) && (expiries == [] || old(opposite.c.Len()) != opposite.c.capacity) ==>
                (r.EndOfFile? <==> true in expiries || (old(c.queue) == [] && c.closed))
      ensures r.Data? <==> old(remain != []) || (old(c.queue != []) && !r.EndOfFile?)
      ensures old(remain != []) ==> !r.EndOfFile?
      ensures if old(remain == []) && r.Data?
              then remain == old(c.queue[0].payload) != [] && c.queue == old(c.queue[1..])
              else remain == old(remain) && c.queue == old(c.queue)
      ensures eofSimulated == (old(eofSimulated) || r.EndOfFile?)
    {
      var i := 0;
      while |remain| == 0
        invariant 0 <= i <= |expiries|
        invariant true !in expiries[..i] && (0 < i ==> opposite.c.Len() != opposite.c.capacity)
        invariant unchanged(this) && unchanged(c)
        decreases |expiries| - i
      {
        if i < |expiries| {
          if opposite.c.Len() == opposite.c.capacity || expiries[i] {
            eofSimulated := true;
            return EndOfFile;
          }
          i := i + 1;
        } else if |c.queue| > 0 {
          TakePacket();
          return Data(|remain|);
        } else if c.closed {
          eofSimulated := true;
          return EndOfFile;
        } else {
          return Waiting;
        }
      }
      return Data(|remain|);
    }

    /** The reader takes the first packet, which is never empty. */
    method TakePacket()
      requires Valid() && remain == [] && c.queue != []
      modifies this`remain, c`queue, c`claimed
      ensures Valid() && remain == old(c.queue[0].payload) != [] && c.queue == old(c.queue[1..])
    {
      BalancedAfterReceive(returned, Values(c.queue), sentBytes);
      assert Values(c.queue)[1..] == Values(c.queue[1..]);
      var packet := c.Receive();
      remain := packet.payload;
    }

    method Read(p: array<Byte>, expiries: seq<bool>) returns (r: Outcome)
      requires Valid() && opposite != null
      modifies this`remain, this`eofSimulated, this`returned, c`queue, c`claimed, p
      ensures Valid()
      ensures old(remain == []) && expiries != [] && old(opposite.c.Len()) == opposite.c.capacity ==> r.EndOfFile?
      ensures old(remain == []) && true in expiries ==> r.EndOfFile?
      ensures old(remain == []) && (expiries == [] || old(opposite.c.Len()) != opposite.c.capacity) ==>
                (r.EndOfFile? <==> true in expiries || (old(c.queue) == [] && c.closed))
      ensures r.Data? <==> old(remain != []) || (old(c.queue != []) && !r.EndOfFile?)
      ensures old(remain != []) ==> !r.EndOfFile?
      ensures r.Data? ==>
                var chunk := old(if remain != [] then remain else c.queue[0].payload);
                && r.n == Min(p.Length, |chunk|) && (0 < p.Length ==> 0 < r.n)
                && p[..r.n] == chunk[..r.n] && p[r.n..] == old(p[..])[r.n..] && remain == chunk[r.n..]
                && returned == old(returned) + p[..r.n]
                && c.queue == old(if remain != [] then c.queue else c.queue[1..])
      ensures !r.Data? ==> returned == old(returned) && remain == [] && c.queue == old(c.queue) && p[..] == old(p[..])
      ensures eofSimulated == (old(eofSimulated) || r.EndOfFile?)
    {
      r := Refill(expiries);
      if r.Data? {
        var n := CopyOut(p);
        r := Data(n);
      }
    }

    /** Hands out as much of `remain` as fits. */
    method CopyOut(p: array<Byte>) returns (n: nat)
      requires Valid()
      modifies this`remain, this`returned, p
      ensures Valid()
      ensures n == Min(p.Length, |old(remain)|)
      ensures p[..n] == old(remain)[..n] && p[n..] == old(p[..])[n..]
      ensures remain == old(remain)[n..] && returned == old(returned) + p[..n]
    {
      n := Min(p.Length, |remain|);
      forall k | 0 <= k < n {
        p[k] := remain[k];
      }
      BalancedAfterCopy(returned, remain, Values(c.queue), sentBytes, n);
      returned := returned + remain[..n];
      remain := remain[n..];
    }

    method Close()
      requires Valid()
      modifies this`ignore
      ensures Valid() && View() == old(View()).(ignore := true) && ChannelClosed() == old(ChannelClosed())
    {
      ignore := true;
    }
  }
}
