/** When connections enter and leave the table and when a stream stops taking data, said of the
    packets and reads alone (httpdump/tcp_assembly.go, tcp_connection.go, network_stream.go). */
module Lifetimes {
  import opened Basics
  import opened Reassembly
  import opened Endpoints
  import opened HttpData
  import opened ConnectionModel
  import opened ConnectionTheorems
  import opened Directions

  // ---- What the past of a connection says

  /** The packet carries a FIN or RST, is not sent before the first request, and comes from the
      client (`client`) or from the other end. */
  predicate Finishes(past: seq<TableEvent>, i: nat, client: bool)
    requires i < |past|
  {
    && past[i].Packet? && (past[i].p.fin || past[i].p.rst)
    && Client(past[..i + 1]).Some? && (past[i].src == Client(past[..i + 1]).value) == client
  }

  /** The end has sent a FIN or RST since the first request. */
  predicate HasFinished(past: seq<TableEvent>, client: bool) {
    exists i :: 0 <= i < |past| && Finishes(past, i, client)
  }

  /** The time of the last packet. */
  function LastTime(past: seq<TableEvent>): Option<int> {
    if past == [] then None
    else if past[|past| - 1].Packet? then Some(past[|past| - 1].timestamp)
    else LastTime(past[..|past| - 1])
  }

  lemma {:induction false} LastTimeIsLast(past: seq<TableEvent>, t: int)
    ensures LastTime(past) == Some(t) <==>
            exists i :: 0 <= i < |past| && past[i].Packet? && past[i].timestamp == t
                        && forall j :: i < j < |past| ==> !past[j].Packet?
    ensures LastTime(past).None? <==> forall i :: 0 <= i < |past| ==> !past[i].Packet?
  {
    if past != [] && !past[|past| - 1].Packet? {
      var init := past[..|past| - 1];
      LastTimeIsLast(init, t);
      if i :| 0 <= i < |past| && past[i].Packet? && past[i].timestamp == t
              && forall j :: i < j < |past| ==> !past[j].Packet? {
        assert init[i] == past[i];
        assert forall j :: i < j < |init| ==> init[j] == past[j];
      }
      if LastTime(init) == Some(t) {
        var i :| 0 <= i < |init| && init[i].Packet? && init[i].timestamp == t
                 && forall j :: i < j < |init| ==> !init[j].Packet?;
        assert past[i] == init[i];
        forall j | i < j < |past| ensures !past[j].Packet? {
          assert j < |init| ==> past[j] == init[j];
        }
      }
      forall i | 0 <= i < |init| ensures init[i] == past[i] {
      }
    }
  }

  lemma {:induction false} HasFinishedGrows(past: seq<TableEvent>, e: TableEvent, client: bool)
    ensures HasFinished(past + [e], client) <==> HasFinished(past, client) || Finishes(past + [e], |past|, client)
  {
    var all := past + [e];
    forall i | 0 <= i < |past| ensures Finishes(all, i, client) <==> Finishes(past, i, client) {
      assert all[..i + 1] == past[..i + 1];
    }
    if HasFinished(past, client) {
      var i :| 0 <= i < |past| && Finishes(past, i, client);
      assert Finishes(all, i, client);
    }
  }

  /** A stream is marked closed exactly when its sender has finished. */
  lemma {:induction false} ClosedIsFinished(past: seq<TableEvent>, up: bool)
    ensures StreamRun(NEW_STREAM, Flow(past, up)).closed <==> HasFinished(past, up)
  {
    if past == [] {
      assert Flow(past, up) == [];
    } else {
      var init, e := past[..|past| - 1], past[|past| - 1];
      assert init + [e] == past && past[..|init| + 1] == past;
      ClosedIsFinished(init, up);
      FlowGrows(init, e, up);
      HasFinishedGrows(init, e, up);
      StepCloses(StreamRun(NEW_STREAM, Flow(init, up)), Client(past), e, up);
      hide StreamRun, Flow, Client, HasFinished, StreamStep;
    }
  }

  lemma {:induction false} StepCloses(s: StreamView, client: Option<Endpoint>, e: TableEvent, up: bool)
    ensures var share := Share(client, e, up);
            (share != [] && StreamStep(s, share[0]).closed) <==>
            share != [] && (s.closed || (e.Packet? && (e.p.fin || e.p.rst) && (e.src == client.value) == up))
    ensures Share(client, e, up) == [] ==> !(e.Packet? && client.Some? && (e.src == client.value) == up)
  {
    hide Insert, Confirm;
  }

  // ---- Time

  predicate Timed(c: Option<ConnView>, past: seq<TableEvent>) {
    c.Some? ==> LastTime(past) == Some(c.value.lastTimestamp)
  }

  lemma {:induction false} HistoryIsTimed(c: Option<ConnView>, past: seq<TableEvent>, events: seq<TableEvent>)
    requires Timed(c, past)
    ensures Timed(EntryRun(c, events), History(c, past, events))
    decreases |events|
  {
    if events != [] {
      var c' := EntryStep(c, events[0]);
      StepIsTimed(c, past, events[0]);
      HistoryIsTimed(c', if c'.None? then [] else past + [events[0]], events[1..]);
      hide EntryStep, Timed;
    }
  }

  lemma {:induction false} StepIsTimed(c: Option<ConnView>, past: seq<TableEvent>, e: TableEvent)
    requires Timed(c, past)
    ensures var c' := EntryStep(c, e); Timed(c', if c'.None? then [] else past + [e])
  {
    assert (past + [e])[..|past|] == past;
    hide Sending, Confirming, IsHTTPRequestData;
  }

  // ---- The theorems

  /** In every reachable table, an entry's connection has an end that has sent no FIN or RST since
      the first request, and its time stamp is the time of its last packet. */
  lemma {:induction false} EntryIsAlive(events: seq<TableEvent>, key: string)
    requires key in TableRun(map[], events)
    ensures var past := Past(events, key);
            && !(HasFinished(past, true) && HasFinished(past, false))
            && LastTime(past) == Some(TableRun(map[], events)[key].lastTimestamp)
  {
    var past := Past(events, key);
    EntryIsMadeByPast(events, key);
    RunStaysSettled(map[], events);
    ClosedIsFinished(past, true);
    ClosedIsFinished(past, false);
    ConnectionsAreIsolated(map[], events, key);
    HistoryIsTimed(None, [], Concerning(events, key));
    hide HasFinished, LastTime, StreamRun, Flow, History, Concerning, EntryRun, TableRun;
  }

  /** An event removes the connection under a key if and only if it is a flush whose cut-off the
      connection's last packet has not reached, or a packet of the connection after which both
      ends have sent a FIN or RST since the first request. */
  lemma {:induction false} LeavesExactly(events: seq<TableEvent>, key: string, e: TableEvent)
    requires key in TableRun(map[], events)
    ensures var past := Past(events, key);
            key !in TableStep(TableRun(map[], events), e) <==>
            match e
            case FlushOld(cutOff) => LastTime(past).Some? && LastTime(past).value < cutOff
            case Packet(src, dst, _, _, _) =>
              Key(src, dst) == key && HasFinished(past + [e], true) && HasFinished(past + [e], false)
            case Reader(_, _, _) => false
  {
    var t, past := TableRun(map[], events), Past(events, key);
    EntryIsMadeByPast(events, key);
    EntryIsAlive(events, key);
    hide TableRun, HasFinished, LastTime, Past;
    match e
    case Packet(src, dst, p, timestamp, space) =>
      ReceiveContinues(t[key], past, e);
      ClosedIsFinished(past + [e], true);
      ClosedIsFinished(past + [e], false);
      hide Receive, StreamRun, Flow, Creates;
    case _ =>
  }

  /** An event opens a connection under a free key if and only if it is a packet between the two
      ends of the key that carries a SYN without an ACK, or the beginning of an HTTP request. */
  lemma {:induction false} OpensExactly(t: Table, key: string, e: TableEvent)
    requires key !in t
    ensures key in TableStep(t, e) <==>
            && e.Packet? && Key(e.src, e.dst) == key
            && ((e.p.syn && !e.p.ack) ||
                (|e.p.segment.payload| >= 8 &&
                 exists m :: m in HTTP_METHODS && StartsWithMethod(e.p.segment.payload, m)))
  {
    if e.Packet? {
      RequestDataExactly(e.p.segment.payload);
      OneSideAtATime(NEW_CONNECTION, e.src, e.p, e.timestamp, e.space);
      hide Receive, IsHTTPRequestData, Key;
    }
  }

  lemma {:induction false} OneSideAtATime(c: ConnView, src: Endpoint, p: Tcp, timestamp: int, space: bool)
    requires !c.up.closed && !c.down.closed
    ensures var c' := Receive(c, src, p, timestamp, space); !(c'.up.closed && c'.down.closed)
  {
    hide Insert, Confirm, IsHTTPRequestData;
  }

  // ---- When a stream stops taking data

  /** Its reader closes it or sees an EOF, or a wait for space fails. */
  predicate SwitchesOff(e: StreamEvent) {
    e == Reads(Ignored) || e == Reads(EofSeen) || (e.Acked? && !e.space)
  }

  predicate IsOff(events: seq<StreamEvent>) {
    exists i :: 0 <= i < |events| && SwitchesOff(events[i])
  }

  lemma {:induction false} OffExactly(events: seq<StreamEvent>)
    ensures var s := StreamRun(NEW_STREAM, events); s.ignore || s.eof <==> IsOff(events)
    decreases |events|
  {
    if events != [] {
      var init, last := events[..|events| - 1], events[|events| - 1];
      OffExactly(init);
      if IsOff(init) {
        var i :| 0 <= i < |init| && SwitchesOff(init[i]);
        assert SwitchesOff(events[i]);
      }
      if IsOff(events) {
        var i :| 0 <= i < |events| && SwitchesOff(events[i]);
        assert i < |init| ==> SwitchesOff(init[i]);
      }
      assert SwitchesOff(last) ==> IsOff(events);
      StepSwitches(StreamRun(NEW_STREAM, init), last);
      hide IsOff, SwitchesOff, StreamStep;
    }
  }

  lemma {:induction false} StepSwitches(s: StreamView, e: StreamEvent)
    ensures var t := StreamStep(s, e); t.ignore || t.eof <==> s.ignore || s.eof || SwitchesOff(e)
  {
    hide Insert, Confirm;
  }

  /** A segment or acknowledgement reaches the window of a stream if and only if its reader has
      not closed it or seen an EOF, and no wait for space has failed, this one included; what
      does not reach it changes neither the window nor what is queued. */
  lemma {:induction false} ReachesExactly(events: seq<StreamEvent>, e: StreamEvent)
    requires !e.Reads?
    ensures Reaches(StreamRun(NEW_STREAM, events), e) <==> !IsOff(events) && !SwitchesOff(e)
    ensures var s := StreamRun(NEW_STREAM, events);
            IsOff(events) || SwitchesOff(e) ==>
              StreamStep(s, e).window == s.window && StreamStep(s, e).queued == s.queued
  {
    OffExactly(events);
  }
}
