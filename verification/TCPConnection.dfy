/** A connection: two streams, told apart by who sent the first HTTP request
    (httpdump/tcp_connection.go). */
module TCPConnections {
  import opened Basics
  import opened Endpoints
  import opened HttpData
  import opened Packets
  import opened NetworkStreams
  import opened ConnectionModel

  ghost function TcpValue(p: Packet): Tcp
    reads p`payload
  {
    Tcp(p.Value(), p.ackNo, p.syn, p.ack, p.fin, p.rst)
  }

  ghost predicate AllFrom(packets: set<Packet>, e: Endpoint) {
    forall p :: p in packets ==> p.sender == e
  }

  /** The packet goes to the sender's stream and its acknowledgement to the other one. */
  method Route(sendStream: NetworkStream, confirmStream: NetworkStream, tcp: Packet, polls: seq<nat>)
    returns (ghost space: bool)
    requires sendStream.Valid() && confirmStream.Valid() && sendStream.Repr !! confirmStream.Repr
    requires tcp !in sendStream.Repr && tcp !in confirmStream.Repr && !confirmStream.ChannelClosed()
    modifies sendStream.Repr, confirmStream.Repr
    ensures sendStream.Valid() && sendStream.View() == Sending(old(sendStream.View()), old(TcpValue(tcp)))
    ensures confirmStream.Valid()
    ensures confirmStream.View() == Confirming(old(confirmStream.View()), old(TcpValue(tcp)), space)
    ensures space == old(confirmStream.FindsSpace(polls))
    ensures sendStream.seen == old(sendStream.seen) + {tcp} && confirmStream.seen == old(confirmStream.seen)
    ensures sendStream.confirmedBy == old(sendStream.confirmedBy)
    ensures confirmStream.confirmedBy == old(confirmStream.confirmedBy) + (if tcp.ack then {tcp} else {})
    ensures fresh(sendStream.Repr - old(sendStream.Repr) - {tcp}) && confirmStream.Repr == old(confirmStream.Repr)
    ensures sendStream.ChannelClosed() == old(sendStream.ChannelClosed()) && !confirmStream.ChannelClosed()
    ensures sendStream.opposite == old(sendStream.opposite) && confirmStream.opposite == old(confirmStream.opposite)
  {
    hide NetworkStream.Valid, NetworkStream.View, NetworkStream.ChannelClosed, NetworkStream.FindsSpace;
    space := confirmStream.FindsSpace(polls);
    sendStream.AppendPacket(tcp);
    if tcp.ack {
      confirmStream.ConfirmPacket(tcp.ackNo, polls, tcp);
    }
    if tcp.fin || tcp.rst {
      sendStream.MarkClosed();
    }
  }

  /** Makes two streams each other's opposite. */
  method Oppose(up: NetworkStream, down: NetworkStream)
    requires up.Valid() && down.Valid() && up.Repr !! down.Repr
    modifies up`opposite, down`opposite
    ensures up.Valid() && up.View() == old(up.View()) && up.ChannelClosed() == old(up.ChannelClosed())
    ensures down.Valid() && down.View() == old(down.View()) && down.ChannelClosed() == old(down.ChannelClosed())
    ensures up.opposite == down && down.opposite == up
  {
    up.SetOpposite(down);
    hide NetworkStream.Valid, NetworkStream.View, NetworkStream.ChannelClosed;
    down.SetOpposite(up);
  }

  class TCPConnection {
    const upStream: NetworkStream
    const downStream: NetworkStream
    const key: string
    var clientID: Endpoint
    var lastTimestamp: int
    var isHTTP: bool

    /** The other end, known from the first request on. */
    ghost var serverID: Endpoint
    ghost var Repr: set<object>

    /** The streams share nothing. Before the first request they are untouched; after it each
        has only seen packets of its own sender, and acknowledgements of the other end. Both
        channels are open or both closed. */
    ghost predicate Valid()
      reads this, Repr
      ensures Valid() ==> this in Repr
    {
      && this in Repr && upStream in Repr && downStream in Repr
      && upStream.Repr <= Repr && downStream.Repr <= Repr
      && upStream.Repr !! downStream.Repr && this !in upStream.Repr && this !in downStream.Repr
      && upStream.Valid() && downStream.Valid()
      && upStream.opposite == downStream && downStream.opposite == upStream
      && upStream.ChannelClosed() == downStream.ChannelClosed()
      && DirectionsKept()
    }

    ghost predicate DirectionsKept()
      reads this, upStream, downStream
    {
      && (if isHTTP then Key(clientID, serverID) == key
          else upStream.seen == upStream.confirmedBy == downStream.seen == downStream.confirmedBy == {})
      && AllFrom(upStream.seen, clientID) && AllFrom(upStream.confirmedBy, serverID)
      && AllFrom(downStream.seen, serverID) && AllFrom(downStream.confirmedBy, clientID)
    }

    ghost function View(): (view: ConnView)
      requires Valid()
      reads this, Repr
      ensures view.lastTimestamp == lastTimestamp
    {
      ConnView(upStream.View(), downStream.View(), if isHTTP then Some(clientID) else None, lastTimestamp)
    }

    ghost predicate Finished()
      requires Valid()
      reads this, Repr
    {
      upStream.ChannelClosed()
    }

    /** Whether the reader makes room in time for what a packet from `src` acknowledges. */
    ghost predicate SpaceFor(src: Endpoint, polls: seq<nat>)
      reads this`clientID, this`isHTTP, upStream.c, downStream.c
    {
      if isHTTP && clientID != src then upStream.FindsSpace(polls) else downStream.FindsSpace(polls)
    }

    constructor (key: string, channelSize: nat)
      ensures Valid() && fresh(Repr) && this.key == key
      ensures !Finished() && View() == NEW_CONNECTION
      ensures forall src, polls :: SpaceFor(src, polls) <==> 0 < channelSize
    {
      hide NetworkStream.Valid, NetworkStream.View, NetworkStream.ChannelClosed, NetworkStream.FindsSpace;
      var up := new NetworkStream(channelSize);
      var down := new NetworkStream(channelSize);
      Oppose(up, down);
      upStream, downStream, this.key := up, down, key;
      clientID, lastTimestamp, isHTTP := Endpoint("", 0), 0, false;
      new;
      Repr := {this} + upStream.Repr + downStream.Repr;
      forall src, polls ensures SpaceFor(src, polls) <==> 0 < channelSize {
        downStream.EmptyFindsSpace(polls);
      }
    }

    method Closed() returns (closed: bool)
      requires Valid()
      ensures closed <==> View().up.closed && View().down.closed
    {
      return upStream.closed && downStream.closed;
    }

    method OnReceive(src: Endpoint, ghost dst: Endpoint, tcp: Packet, timestamp: int, polls: seq<nat>)
      returns (ghost space: bool)
      requires Valid() && !Finished() && tcp !in Repr && tcp.sender == src && Key(src, dst) == key
      modifies Repr
      ensures Valid() && !Finished() && fresh(Repr - old(Repr) - {tcp})
      ensures View() == Receive(old(View()), src, old(TcpValue(tcp)), timestamp, space)
      ensures space == old(SpaceFor(src, polls))
    {
      hide NetworkStream.Valid, NetworkStream.View, NetworkStream.ChannelClosed, NetworkStream.FindsSpace;
      space := SpaceFor(src, polls);
      lastTimestamp := timestamp;
      if !isHTTP {
        if !IsHTTPRequestData(tcp.payload) {
          return;
        }
        clientID, serverID := src, dst;
        isHTTP := true;
      }
      space := RouteBySender(src, dst, tcp, polls);
    }

    /** The client's packets feed the upstream, the server's the downstream. */
    method RouteBySender(src: Endpoint, ghost dst: Endpoint, tcp: Packet, polls: seq<nat>) returns (ghost space: bool)
      requires Valid() && !Finished() && isHTTP && tcp !in Repr && tcp.sender == src && Key(src, dst) == key
      modifies Repr
      ensures Valid() && !Finished() && fresh(Repr - old(Repr) - {tcp})
      ensures var t := old(TcpValue(tcp));
              View() == if old(clientID) == src
                        then old(View()).(up := Sending(old(View()).up, t),
                                          down := Confirming(old(View()).down, t, space))
                        else old(View()).(down := Sending(old(View()).down, t),
                                          up := Confirming(old(View()).up, t, space))
      ensures space == old(SpaceFor(src, polls))
    {
      hide NetworkStream.Valid, NetworkStream.View, NetworkStream.ChannelClosed, NetworkStream.FindsSpace;
      KeyIdentifiesPair(clientID, serverID, src, dst);
      hide Key, Sending, Confirming;
      if clientID == src {
        space := Route(upStream, downStream, tcp, polls);
        Repr := Repr + upStream.Repr;
      } else {
        space := Route(downStream, upStream, tcp, polls);
        Repr := Repr + downStream.Repr;
      }
    }

    method Finish()
      requires Valid() && !Finished()
      modifies Repr
      ensures Valid() && Finished() && View() == old(View()) && Repr == old(Repr)
    {
      upStream.Finish();
      downStream.Finish();
    }

    method ForceClose()
      requires Valid() && !Finished()
      modifies Repr
      ensures Valid() && Finished() && View().Closed() && Repr == old(Repr)
    {
      upStream.MarkClosed();
      downStream.MarkClosed();
      Finish();
    }
  }
}
