/** The connection table and the life of a connection (httpdump/tcp_assembly.go). */
module TCPAssemblers {
  import opened Endpoints
  import opened HttpData
  import opened Packets
  import opened ConnectionModel
  import opened TCPConnections

  class TCPAssembler {
    var connectionDict: map<string, TCPConnection>
    const channelSize: nat
    ghost var Repr: set<object>

    /** A sound, unfinished connection under its own key. */
    ghost predicate Entry(k: string, c: TCPConnection)
      reads c, c.Repr
      ensures Entry(k, c) ==> this !in c.Repr && c in c.Repr && c.Valid() && c.key == k
    {
      this !in c.Repr && c.Valid() && c.key == k && !c.Finished()
    }

    lemma {:induction false} MakesEntry(k: string, c: TCPConnection)
      requires this !in c.Repr && c.Valid() && c.key == k && !c.Finished()
      ensures Entry(k, c)
    {
    }

    lemma {:induction false} EntryFacts(k: string, c: TCPConnection)
      requires Entry(k, c)
      ensures this !in c.Repr && c.Valid() && c.key == k && !c.Finished()
    {
    }

    /** Every entry is sound, and entries share nothing. */
    ghost predicate Consistent()
      reads this, Repr
      ensures Consistent() ==> this in Repr
    {
      && this in Repr
      && (forall k :: k in connectionDict ==>
            connectionDict[k] in Repr && connectionDict[k].Repr <= Repr && Entry(k, connectionDict[k]))
      && Disjoint(connectionDict)
    }

    static ghost predicate Disjoint(dict: map<string, TCPConnection>)
      reads set k | k in dict :: dict[k]
    {
      forall j, k :: j in dict && k in dict && j != k ==> dict[j].Repr !! dict[k].Repr
    }

    static lemma {:induction false} StaysDisjoint(dict: map<string, TCPConnection>, key: string, c: TCPConnection)
      requires Disjoint(dict) && forall k :: k in dict ==> dict[k].Repr !! c.Repr
      ensures Disjoint(dict[key := c])
    {
    }

    ghost function View(): (table: Table)
      requires Consistent()
      reads this, Repr
      ensures table.Keys == connectionDict.Keys
    {
      map k | k in connectionDict :: connectionDict[k].View()
    }

    /** No entry of a settled table is closed in both directions. */
    ghost predicate Valid()
      reads this, Repr
      ensures Valid() ==> this in Repr
    {
      Consistent() && forall k :: k in View() ==> !View()[k].Closed()
    }

    constructor (channelSize: nat)
      ensures Valid() && fresh(Repr) && View() == map[]
    {
      this.channelSize := channelSize;
      connectionDict := map[];
      Repr := {this};
    }

    method Assemble(src: Endpoint, dst: Endpoint, tcp: Packet, timestamp: int, polls: seq<nat>)
      returns (ghost space: bool)
      requires Valid() && tcp !in Repr && tcp.sender == src
      modifies Repr, tcp
      ensures Valid() && fresh(Repr - old(Repr) - {tcp})
      ensures View() == ConnectionModel.Assemble(old(View()), src, dst, old(TcpValue(tcp)), timestamp, space)
      ensures var key := Key(src, dst);
              && (key in old(connectionDict) ==> space == old(connectionDict[key].SpaceFor(src, polls)))
              && (key !in old(connectionDict) && Creates(old(TcpValue(tcp))) ==> space == (0 < channelSize))
      ensures forall k :: k in old(connectionDict) && k !in connectionDict ==>
                old(connectionDict)[k].Valid() && old(connectionDict)[k].Finished()
    {
      hide TCPConnection.Valid, TCPConnection.View, TCPConnection.Finished, TCPConnection.SpaceFor;
      hide Receive, ConnectionModel.Assemble, Consistent, View, Entry;
      ghost var table := View();
      ghost var p := TcpValue(tcp);
      space := false;
      var srcString, dstString := Text(src), Text(dst);
      var key := if Less(srcString, dstString) then srcString + "-" + dstString else dstString + "-" + srcString;
      var createNewConn := (tcp.syn && !tcp.ack) || IsHTTPRequestData(tcp.payload);
      assert key == Key(src, dst);
      hide Less, Text, Key, IsHTTPRequestData;
      var connection := RetrieveConnection(key, createNewConn);
      if connection == null {
        NotAssembled(table, src, dst, p, timestamp, space);
        return;
      }
      space := Pass(key, src, dst, tcp, timestamp, polls);
      AssembleInSteps(table, src, dst, p, timestamp, space);
    }

    /** The connection found receives the packet, and leaves the table if that closed it. */
    method Pass(key: string, src: Endpoint, ghost dst: Endpoint, tcp: Packet, timestamp: int, polls: seq<nat>)
      returns (ghost space: bool)
      requires Consistent() && key in connectionDict && tcp !in Repr && tcp.sender == src && Key(src, dst) == key
      modifies Repr, tcp
      ensures Consistent() && fresh(Repr - old(Repr) - {tcp})
      ensures key in old(View()) &&
              var received := old(View())[key := Receive(old(View())[key], src, old(TcpValue(tcp)), timestamp, space)];
              View() == if received[key].Closed() then received - {key} else received
      ensures space == old(connectionDict[key].SpaceFor(src, polls))
      ensures connectionDict == old(connectionDict) || connectionDict == old(connectionDict) - {key}
      ensures key !in connectionDict ==> old(connectionDict[key]).Valid() && old(connectionDict[key]).Finished()
    {
      hide TCPConnection.Valid, TCPConnection.View, TCPConnection.Finished, TCPConnection.SpaceFor;
      hide Receive, Consistent, View, Entry, Key;
      space := Dispatch(key, src, dst, tcp, timestamp, polls);
      RemoveIfClosed(key);
    }

    /** A connection closed in both directions leaves the table, and is finished then. */
    method RemoveIfClosed(key: string)
      requires Consistent() && key in connectionDict && connectionDict[key].Valid()
      requires key in View() && View()[key] == connectionDict[key].View()
      modifies Repr
      ensures Consistent() && Repr == old(Repr)
      ensures View() == if old(View()[key]).Closed() then old(View()) - {key} else old(View())
      ensures connectionDict == old(connectionDict) || connectionDict == old(connectionDict) - {key}
      ensures key !in connectionDict ==> old(connectionDict[key]).Valid() && old(connectionDict[key]).Finished()
    {
      hide TCPConnection.Valid, TCPConnection.View, TCPConnection.Finished, TCPConnection.SpaceFor;
      hide Consistent, View, Entry;
      var closed := connectionDict[key].Closed();
      if closed {
        Remove(key);
      }
    }

    /** Deletes a closed connection and finishes it: its channels are closed once, here. */
    method Remove(key: string)
      requires Consistent() && key in connectionDict
      modifies Repr
      ensures Consistent() && Repr == old(Repr) && View() == old(View()) - {key}
      ensures connectionDict == old(connectionDict) - {key}
      ensures old(connectionDict[key]).Valid() && old(connectionDict[key]).Finished()
    {
      hide TCPConnection.Valid, TCPConnection.View, TCPConnection.Finished, TCPConnection.SpaceFor, Entry;
      var connection := connectionDict[key];
      EntryFacts(key, connection);
      assert forall k :: k in connectionDict && k != key ==> connectionDict[k].Repr !! connection.Repr;
      DeleteConnection(key);
      CloseDetached([connection], false);
    }

    /** Closes connections that have left the table; the table does not notice. */
    method CloseDetached(connections: seq<TCPConnection>, force: bool)
      requires Consistent()
      requires forall c :: c in connections ==> c.Valid() && !c.Finished() && c.Repr <= Repr && this !in c.Repr
      requires forall c, k :: c in connections && k in connectionDict ==> connectionDict[k].Repr !! c.Repr
      requires forall i, j :: 0 <= i < j < |connections| ==> connections[i].Repr !! connections[j].Repr
      modifies set c, o | c in connections && o in c.Repr :: o
      ensures Consistent() && View() == old(View())
      ensures forall c :: c in connections ==> c.Valid() && c.Finished()
    {
      hide TCPConnection.Valid, TCPConnection.View, TCPConnection.Finished, TCPConnection.SpaceFor, Entry;
      CloseAll(connections, force);
      forall k | k in connectionDict
        ensures Entry(k, connectionDict[k]) && connectionDict[k].View() == old(View()[k])
      {
        assert unchanged(connectionDict[k]) && unchanged(connectionDict[k].Repr);
      }
    }

    method RetrieveConnection(key: string, init: bool) returns (connection: TCPConnection?)
      requires Valid()
      modifies this
      ensures Valid() && fresh(Repr - old(Repr))
      ensures connection == null <==> key !in old(connectionDict) && !init
      ensures connectionDict == if connection == null then old(connectionDict)
                                else old(connectionDict)[key := connection]
      ensures key in old(connectionDict) ==> connection == old(connectionDict[key])
      ensures connection != null && key !in old(connectionDict) ==>
                forall src, polls :: connection.SpaceFor(src, polls) <==> 0 < channelSize
      ensures View() == if connection == null || key in old(connectionDict) then old(View())
                        else old(View())[key := NEW_CONNECTION]
    {
      hide TCPConnection.Valid, TCPConnection.View, TCPConnection.Finished, TCPConnection.SpaceFor, Entry;
      if key in connectionDict {
        connection := connectionDict[key];
      } else if init {
        connection := new TCPConnection(key, channelSize);
        Admit(connection);
        hide Consistent, View;
        assert !NEW_CONNECTION.Closed();
      } else {
        connection := null;
      }
    }

    /** An unfinished connection that shares nothing with the table enters it. */
    method Admit(connection: TCPConnection)
      requires Consistent() && connection.key !in connectionDict
      requires connection.Valid() && !connection.Finished() && connection.Repr !! Repr
      modifies this`connectionDict, this`Repr
      ensures Consistent() && Repr == old(Repr) + connection.Repr
      ensures connectionDict == old(connectionDict)[connection.key := connection]
      ensures View() == old(View())[connection.key := connection.View()]
    {
      hide TCPConnection.Valid, TCPConnection.View, TCPConnection.Finished, Entry;
      assert forall k :: k in connectionDict ==> View()[k] == connectionDict[k].View();
      Enter(connection);
      hide Consistent;
    }

    method Enter(connection: TCPConnection)
      requires Consistent() && connection.key !in connectionDict
      requires connection.Valid() && !connection.Finished() && connection.Repr !! Repr
      modifies this`connectionDict, this`Repr
      ensures Consistent() && Repr == old(Repr) + connection.Repr
      ensures connectionDict == old(connectionDict)[connection.key := connection]
      ensures connection.Valid() && connection.View() == old(connection.View())
      ensures forall k :: k in connectionDict && k != connection.key ==> View()[k] == old(View()[k])
      ensures View()[connection.key] == connection.View()
    {
      hide TCPConnection.Valid, TCPConnection.View, TCPConnection.Finished, Entry;
      assert forall k :: k in connectionDict ==> connectionDict[k].Repr !! connection.Repr;
      StaysDisjoint(connectionDict, connection.key, connection);
      hide Disjoint;
      connectionDict := connectionDict[connection.key := connection];
      Repr := Repr + connection.Repr;
      MakesEntry(connection.key, connection);
      forall k | k in connectionDict && k != connection.key
        ensures Entry(k, connectionDict[k]) && connectionDict[k].View() == old(View()[k])
      {
        assert unchanged(connectionDict[k]) && unchanged(connectionDict[k].Repr);
      }
    }

    /** Hands the packet to the connection found, whose neighbours stay as they are. */
    method Dispatch(key: string, src: Endpoint, ghost dst: Endpoint, tcp: Packet, timestamp: int, polls: seq<nat>)
      returns (ghost space: bool)
      requires Consistent() && key in connectionDict && tcp !in Repr && tcp.sender == src && Key(src, dst) == key
      modifies Repr
      ensures Consistent() && fresh(Repr - old(Repr) - {tcp}) && connectionDict == old(connectionDict)
      ensures connectionDict[key].Valid() && key in View() && View()[key] == connectionDict[key].View()
      ensures View() == old(View())[key := Receive(old(View())[key], src, old(TcpValue(tcp)), timestamp, space)]
      ensures space == old(connectionDict[key].SpaceFor(src, polls))
    {
      hide TCPConnection.Valid, TCPConnection.View, TCPConnection.Finished, TCPConnection.SpaceFor, Entry, Receive;
      assert forall k :: k in connectionDict ==> View()[k] == connectionDict[k].View();
      space := HandOver(key, src, dst, tcp, timestamp, polls);
    }

    /** The connection's own part of it: what it becomes, and that the others do not move. */
    method HandOver(key: string, src: Endpoint, ghost dst: Endpoint, tcp: Packet, timestamp: int, polls: seq<nat>)
      returns (ghost space: bool)
      requires Consistent() && key in connectionDict && tcp !in Repr && tcp.sender == src && Key(src, dst) == key
      modifies Repr
      ensures this in Repr && connectionDict == old(connectionDict) && Repr == old(Repr) + connectionDict[key].Repr
      ensures fresh(Repr - old(Repr) - {tcp}) && connectionDict[key].Valid() && Entry(key, connectionDict[key])
      ensures connectionDict[key].View() ==
              Receive(old(connectionDict[key].View()), src, old(TcpValue(tcp)), timestamp, space)
      ensures space == old(connectionDict[key].SpaceFor(src, polls))
      ensures forall k :: k in connectionDict && k != key ==>
                && Entry(k, connectionDict[k]) && connectionDict[k].View() == old(View()[k])
                && connectionDict[k].Repr == old(connectionDict[k].Repr)
                && connectionDict[k].Repr !! connectionDict[key].Repr
    {
      hide TCPConnection.Valid, TCPConnection.View, TCPConnection.Finished, TCPConnection.SpaceFor, Entry, Receive;
      var connection := connectionDict[key];
      EntryFacts(key, connection);
      assert forall k :: k in connectionDict && k != key ==> connectionDict[k].Repr !! connection.Repr;
      space := connection.OnReceive(src, dst, tcp, timestamp, polls);
      Repr := Repr + connection.Repr;
      MakesEntry(key, connection);
      forall k | k in connectionDict && k != key
        ensures Entry(k, connectionDict[k]) && connectionDict[k].View() == old(View()[k])
      {
        assert unchanged(connectionDict[k]) && unchanged(connectionDict[k].Repr);
      }
    }

    method DeleteConnection(key: string)
      requires Consistent()
      modifies this`connectionDict
      ensures Consistent() && connectionDict == old(connectionDict) - {key}
      ensures View() == old(View()) - {key}
    {
      hide TCPConnection.Valid, TCPConnection.View, TCPConnection.Finished, TCPConnection.SpaceFor, Entry;
      connectionDict := connectionDict - {key};
      forall k | k in connectionDict
        ensures Entry(k, connectionDict[k]) && connectionDict[k].View() == old(View()[k])
      {
        assert unchanged(connectionDict[k]) && unchanged(connectionDict[k].Repr);
      }
    }

    /** The connections that have seen no packet since `cutOff`, in map order. */
    method CollectOlder(cutOff: int) returns (connections: seq<TCPConnection>)
      requires Consistent()
      ensures forall c :: c in connections ==>
                c.key in connectionDict && connectionDict[c.key] == c && c.lastTimestamp < cutOff
      ensures forall k :: k in connectionDict && connectionDict[k].lastTimestamp < cutOff ==>
                connectionDict[k] in connections
      ensures forall i, j :: 0 <= i < j < |connections| ==> connections[i].key != connections[j].key
    {
      hide TCPConnection.Valid, TCPConnection.View, TCPConnection.Finished, TCPConnection.SpaceFor, Entry;
      var keys := connectionDict.Keys;
      connections := [];
      forall k | k in connectionDict ensures connectionDict[k].key == k {
        EntryFacts(k, connectionDict[k]);
      }
      while keys != {}
        invariant keys <= connectionDict.Keys
        invariant forall c :: c in connections ==>
                    c.key in connectionDict && connectionDict[c.key] == c && c.key !in keys && c.lastTimestamp < cutOff
        invariant forall k :: k in connectionDict && k !in keys && connectionDict[k].lastTimestamp < cutOff ==>
                    connectionDict[k] in connections
        invariant forall i, j :: 0 <= i < j < |connections| ==> connections[i].key != connections[j].key
      {
        var k :| k in keys;
        keys := keys - {k};
        if connectionDict[k].lastTimestamp < cutOff {
          connections := connections + [connectionDict[k]];
        }
      }
    }

    /** Deletes the listed connections under their own keys. */
    method DeleteAll(connections: seq<TCPConnection>)
      requires Consistent()
      requires forall c :: c in connections ==> c.key in connectionDict && connectionDict[c.key] == c
      modifies this`connectionDict
      ensures Consistent()
      ensures connectionDict == Remaining(old(connectionDict), connections)
      ensures View() == Restricted(old(View()), connectionDict.Keys)
    {
      hide TCPConnection.Valid, TCPConnection.View, TCPConnection.Finished, TCPConnection.SpaceFor;
      ghost var dict, view := connectionDict, View();
      forall k | k in dict ensures dict[k].key == k {
        EntryFacts(k, dict[k]);
      }
      hide Entry, Consistent, View, Remaining, Restricted;
      StartsWhole(dict, view, connections);
      var i := 0;
      while i < |connections|
        invariant 0 <= i <= |connections|
        invariant Consistent()
        invariant connectionDict == Remaining(dict, connections[..i])
        invariant View() == Restricted(view, connectionDict.Keys)
      {
        RemainingStep(dict, view, connections, i);
        DeleteConnection(connections[i].key);
        i := i + 1;
      }
      assert connections[..i] == connections;
    }

    /** What is left of the table without the listed connections. */
    static ghost function Remaining(dict: map<string, TCPConnection>, connections: seq<TCPConnection>)
      : map<string, TCPConnection>
    {
      map k | k in dict && dict[k] !in connections :: dict[k]
    }

    static ghost function Restricted(view: Table, keys: set<string>): Table {
      map k | k in view && k in keys :: view[k]
    }

    static lemma {:induction false} StartsWhole(dict: map<string, TCPConnection>, view: Table,
                                                connections: seq<TCPConnection>)
      requires view.Keys == dict.Keys
      ensures Remaining(dict, connections[..0]) == dict && Restricted(view, dict.Keys) == view
    {
    }

    /** Deleting one more connection leaves one less. */
    static lemma {:induction false} RemainingStep(dict: map<string, TCPConnection>, view: Table,
                                                  connections: seq<TCPConnection>, i: nat)
      requires i < |connections| && forall k :: k in dict ==> dict[k].key == k
      ensures var left, key := Remaining(dict, connections[..i]), connections[i].key;
              && (key in dict && dict[key] == connections[i] ==>
                    Remaining(dict, connections[..i + 1]) == left - {key})
              && Restricted(view, left.Keys) - {key} == Restricted(view, (left - {key}).Keys)
    {
      assert connections[..i + 1] == connections[..i] + [connections[i]];
    }

    /** Every connection whose last packet is older than `cutOff` leaves the table and is
        closed; the others stay as they are. */
    method FlushOlderThan(cutOff: int)
      requires Valid()
      modifies Repr
      ensures Valid() && Repr == old(Repr)
      ensures View() == Flush(old(View()), cutOff)
      ensures forall k :: k in old(connectionDict) && k !in connectionDict ==>
                old(connectionDict)[k].Valid() && old(connectionDict)[k].Finished()
    {
      hide TCPConnection.Valid, TCPConnection.View, TCPConnection.Finished, TCPConnection.SpaceFor, Entry;
      var connections := CollectOlder(cutOff);
      FlushIsRestriction(connectionDict, View(), connections, cutOff);
      hide Consistent, View, Restricted, Remaining;
      Evict(connections);
    }

    /** Deletes the listed connections first and closes them afterwards. */
    method Evict(connections: seq<TCPConnection>)
      requires Consistent()
      requires forall c :: c in connections ==> c.key in connectionDict && connectionDict[c.key] == c
      requires forall i, j :: 0 <= i < j < |connections| ==> connections[i].key != connections[j].key
      modifies Repr
      ensures Consistent() && Repr == old(Repr)
      ensures connectionDict == Remaining(old(connectionDict), connections)
      ensures View() == Restricted(old(View()), connectionDict.Keys)
      ensures forall c :: c in connections ==> c.Valid() && c.Finished()
    {
      hide TCPConnection.Valid, TCPConnection.View, TCPConnection.Finished, TCPConnection.SpaceFor, Restricted;
      forall c | c in connections
        ensures c.Valid() && !c.Finished() && c.Repr <= Repr && this !in c.Repr
      {
        EntryFacts(c.key, c);
      }
      hide Entry;
      DeleteAll(connections);
      CloseDetached(connections, true);
    }

    static lemma {:induction false} FlushIsRestriction(dict: map<string, TCPConnection>, view: Table,
                                                       connections: seq<TCPConnection>, cutOff: int)
      requires view.Keys == dict.Keys
      requires forall k :: k in dict ==> (dict[k] in connections <==> view[k].lastTimestamp < cutOff)
      ensures Restricted(view, Remaining(dict, connections).Keys) == Flush(view, cutOff)
      ensures forall k :: k in Remaining(dict, connections) <==> k in dict && dict[k] !in connections
      ensures forall k :: k in Remaining(dict, connections) ==> Remaining(dict, connections)[k] == dict[k]
    {
    }
  }

  /** Closes a list of unfinished connections, by force or because both sides are done. */
  method CloseAll(connections: seq<TCPConnection>, force: bool)
    requires forall c :: c in connections ==> c.Valid() && !c.Finished()
    requires forall i, j :: 0 <= i < j < |connections| ==> connections[i].Repr !! connections[j].Repr
    modifies set c, o | c in connections && o in c.Repr :: o
    ensures forall c :: c in connections ==> c.Valid() && c.Finished() && c.Repr == old(c.Repr)
  {
    hide TCPConnection.Valid, TCPConnection.View, TCPConnection.Finished, TCPConnection.SpaceFor;
    var i := 0;
    while i < |connections|
      invariant 0 <= i <= |connections|
      invariant forall j :: 0 <= j < |connections| ==>
                  connections[j].Valid() && connections[j].Repr == old(connections[j].Repr)
      invariant forall j :: 0 <= j < |connections| ==> connections[j].Finished() == (j < i)
    {
      if force {
        connections[i].ForceClose();
      } else {
        connections[i].Finish();
      }
      i := i + 1;
    }
  }
}
