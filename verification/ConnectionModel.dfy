/** What a packet does to a connection and to the connection table, on values
    (httpdump/tcp_connection.go, httpdump/tcp_assembly.go). */
module ConnectionModel {
  import opened Basics
  import opened TcpSequence
  import opened Reassembly
  import opened Endpoints
  import opened HttpData

  datatype StreamView = StreamView(window: Window, queued: seq<Segment>, ignore: bool, eof: bool, closed: bool) {
    predicate Off() {
      ignore || eof
    }
  }

  /** `client` is set by the first packet that looks like an HTTP request. */
  datatype ConnView = ConnView(up: StreamView, down: StreamView, client: Option<Endpoint>, lastTimestamp: int) {
    predicate Closed() {
      up.closed && down.closed
    }
  }

  datatype Tcp = Tcp(segment: Segment, ackNo: Uint32, syn: bool, ack: bool, fin: bool, rst: bool)

  const NEW_STREAM := StreamView(EMPTY_WINDOW, [], false, false, false)
  const NEW_CONNECTION := ConnView(NEW_STREAM, NEW_STREAM, None, 0)

  function Append(s: StreamView, segment: Segment): StreamView {
    if s.Off() then s else s.(window := Insert(s.window, segment))
  }

  /** `space`: whether the wait for channel space succeeds. */
  function Acknowledged(s: StreamView, ack: Uint32, space: bool): StreamView {
    if s.Off() then s
    else if !space then s.(ignore := true)
    else var (w, sent) := Confirm(s.window, ack); s.(window := w, queued := s.queued + sent)
  }

  function Sending(s: StreamView, t: Tcp): StreamView {
    var appended := Append(s, t.segment);
    if t.fin || t.rst then appended.(closed := true) else appended
  }

  function Confirming(s: StreamView, t: Tcp, space: bool): StreamView {
    if t.ack then Acknowledged(s, t.ackNo, space) else s
  }

  function Receive(c: ConnView, src: Endpoint, t: Tcp, timestamp: int, space: bool): ConnView {
    var c := c.(lastTimestamp := timestamp);
    if c.client.None? && !IsHTTPRequestData(t.segment.payload) then c
    else
      var client := if c.client.None? then src else c.client.value;
      if client == src
      then c.(client := Some(client), up := Sending(c.up, t), down := Confirming(c.down, t, space))
      else c.(client := Some(client), down := Sending(c.down, t), up := Confirming(c.up, t, space))
  }

  predicate Creates(t: Tcp) {
    (t.syn && !t.ack) || IsHTTPRequestData(t.segment.payload)
  }

  type Table = map<string, ConnView>

  /** One packet against the table: its connection is found or created, updated, and removed
      once both directions are closed. */
  function Assemble(t: Table, src: Endpoint, dst: Endpoint, p: Tcp, timestamp: int, space: bool): Table {
    var key := Key(src, dst);
    if key !in t && !Creates(p) then t
    else
      var c := Receive(if key in t then t[key] else NEW_CONNECTION, src, p, timestamp, space);
      if c.Closed() then t - {key} else t[key := c]
  }

  lemma {:induction false} NotAssembled(t: Table, src: Endpoint, dst: Endpoint, p: Tcp, timestamp: int, space: bool)
    requires Key(src, dst) !in t && !Creates(p)
    ensures Assemble(t, src, dst, p, timestamp, space) == t
  {
  }

  /** The same, in the source's order: retrieve or create, receive, delete. */
  lemma {:induction false} AssembleInSteps(t: Table, src: Endpoint, dst: Endpoint, p: Tcp, timestamp: int, space: bool)
    requires Key(src, dst) in t || Creates(p)
    ensures var key := Key(src, dst);
            var retrieved := if key in t then t else t[key := NEW_CONNECTION];
            var c := Receive(retrieved[key], src, p, timestamp, space);
            var received := retrieved[key := c];
            Assemble(t, src, dst, p, timestamp, space) == if c.Closed() then received - {key} else received
  {
  }

  /** The connections with no packet since the cut-off are removed. */
  function Flush(t: Table, cutOff: int): Table {
    map key | key in t && cutOff <= t[key].lastTimestamp :: t[key]
  }
}
