/** Whole runs of the connection table: no connection that is over stays in it, and connections
    do not influence one another. */
module ConnectionTheorems {
  import opened Basics
  import opened Endpoints
  import opened ConnectionModel

  /** What the reading side does to a stream between two packets. */
  datatype Effect = Took(n: nat) | Ignored | EofSeen

  datatype TableEvent =
    | Packet(src: Endpoint, dst: Endpoint, p: Tcp, timestamp: int, space: bool)
    | FlushOld(cutOff: int)
    | Reader(key: string, up: bool, effect: Effect)

  function Affect(s: StreamView, e: Effect): StreamView {
    match e
    case Took(n) => s.(queued := s.queued[if n <= |s.queued| then n else |s.queued|..])
    case Ignored => s.(ignore := true)
    case EofSeen => s.(eof := true)
  }

  function ReaderStep(c: ConnView, up: bool, e: Effect): ConnView {
    if up then c.(up := Affect(c.up, e)) else c.(down := Affect(c.down, e))
  }

  function TableStep(t: Table, e: TableEvent): Table {
    match e
    case Packet(src, dst, p, timestamp, space) => Assemble(t, src, dst, p, timestamp, space)
    case FlushOld(cutOff) => Flush(t, cutOff)
    case Reader(key, up, effect) => if key in t then t[key := ReaderStep(t[key], up, effect)] else t
  }

  function TableRun(t: Table, events: seq<TableEvent>): Table
    decreases |events|
  {
    if events == [] then t else TableRun(TableStep(t, events[0]), events[1..])
  }

  // ---- Lifetime: a reachable table holds no connection closed in both directions

  ghost predicate Settled(t: Table) {
    forall k :: k in t ==> !t[k].up.closed || !t[k].down.closed
  }

  lemma {:induction false} RunStaysSettled(t: Table, events: seq<TableEvent>)
    requires Settled(t)
    ensures Settled(TableRun(t, events))
    decreases |events|
  {
    if events != [] {
      RunStaysSettled(TableStep(t, events[0]), events[1..]);
    }
  }

  // ---- Isolation: an entry is a function of its own events

  function Entry(t: Table, key: string): Option<ConnView> {
    if key in t then Some(t[key]) else None
  }

  predicate Concerns(e: TableEvent, key: string) {
    match e
    case Packet(src, dst, _, _, _) => Key(src, dst) == key
    case FlushOld(_) => true
    case Reader(k, _, _) => k == key
  }

  /** One connection alone, absent or present, under the events that concern it. */
  function EntryStep(c: Option<ConnView>, e: TableEvent): Option<ConnView> {
    match e
    case Packet(src, dst, p, timestamp, space) =>
      if c.None? && !Creates(p) then None
      else
        var c := Receive(if c.Some? then c.value else NEW_CONNECTION, src, p, timestamp, space);
        if c.Closed() then None else Some(c)
    case FlushOld(cutOff) => if c.Some? && c.value.lastTimestamp < cutOff then None else c
    case Reader(_, up, effect) => if c.Some? then Some(ReaderStep(c.value, up, effect)) else None
  }

  function EntryRun(c: Option<ConnView>, events: seq<TableEvent>): Option<ConnView>
    decreases |events|
  {
    if events == [] then c else EntryRun(EntryStep(c, events[0]), events[1..])
  }

  function Concerning(events: seq<TableEvent>, key: string): seq<TableEvent> {
    if events == [] then []
    else (if Concerns(events[0], key) then [events[0]] else []) + Concerning(events[1..], key)
  }

  /** For every interleaving of packets, flushes and reads of any number of connections, what
      the table holds under a key is what that connection alone would have become. */
  lemma {:induction false} ConnectionsAreIsolated(t: Table, events: seq<TableEvent>, key: string)
    ensures Entry(TableRun(t, events), key) == EntryRun(Entry(t, key), Concerning(events, key))
    decreases |events|
  {
    if events != [] {
      var e := events[0];
      var t' := TableStep(t, e);
      ConnectionsAreIsolated(t', events[1..], key);
      if Concerns(e, key) {
        assert Entry(t', key) == EntryStep(Entry(t, key), e);
        assert Concerning(events, key)[1..] == Concerning(events[1..], key);
      } else {
        assert Entry(t', key) == Entry(t, key);
        assert Concerning(events, key) == Concerning(events[1..], key);
      }
    }
  }
}
