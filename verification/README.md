# httshark, verified

httshark captures HTTP traffic, pairs requests with responses and exports the transactions as
HAR files. This project models its stateful parts and proves what they are for:

- **TCP reassembly** (`httpdump`). `TcpSequence` is the 32-bit comparison, `Reassembly` the
  receive window on values, `ReceiveWindow` the ring buffer proved to compute exactly that, and
  `TrueStream` and `StreamTheorems` the window on true stream positions. `WindowDecisions` says
  exactly when an arrival, a turn of the delivery loop and an acknowledgement come out as the
  true positions call for, and `WindowRefinement` lifts that to runs; `WindowSafety` says what
  the window sends even when decisions go wrong, and `ArrivalOrder` when the order of arrival
  shows. `Packets`,
  `NetworkStream`, `TCPConnection`, `TCPAssembler`, `Endpoints` and `HttpData` are the channel,
  the reader, the connection and the connection table; `ConnectionModel` says what a packet does
  to the table, `ConnectionTheorems` what whole runs keep, `Lifetimes` when connections come and
  go, and `Directions` what each direction of a connection has been fed and delivers.
- **The packet loop against the HTTP handler** (`BlockingProtocol`, `HandlerCalls`, `CallRuns`,
  `EndToEnd`): two bounded channels, `bufio`, timers, deferred clean-up and a parser that may
  decide anything; which calls the handler makes, against the text of `handle`; and what that
  parser reads, from the packets on.
- **The correlator** (`Correlator`): one pending request per stream, responses, timer ticks.
- **Conserving accumulators** (`Grouping`, `HarExport`, `SitesStats`, `TrafficRecords`,
  `LogBatching`).

Classes follow the source's objects, field by field; their methods are proved against functions
on values, and the theorems are about those functions. The 32-bit wrap-around of the source is
written out. Segments are cut from a ghost stream `int -> Byte` indexed by unwrapped positions.
Every lemma switches automatic induction off, so each inductive proof is the written one.

## What the proofs found

Where the code differs from its comments or its purpose, the model follows the code.

- `compareTCPSeq` (`httpdump/receive_window.go:135-142`) does not return a negative number for an
  earlier number in its second wrap branch, because the subtraction is done on `uint32` before
  the conversion to a 64-bit `int`; and it returns 0 for (0, 0xFFFFFFFF). `CompareAgreesExactly`
  shows these are the only faults. Consequences, each with its exact condition: `insert` drops
  new data that crosses the wrap (`DropExactly`, `WrapCrossingIsDropped`) or files a segment in
  the wrong place (`ScanExactly`), `confirm` stops early (`StopExactly`) and misjudges overlaps
  (`OverlapExactly`).
- `expectBegin == 0` means both "nothing delivered yet" and "position 0 modulo 2^32 is next", so
  a segment ending there is accepted and sent twice (`EndAtZeroSendsTwice`). For the same reason
  an older acknowledgement after acknowledgement number 0 does change the window
  (`OlderConfirmIsSilent` has the exact condition).
- Reassembly is nevertheless safe across the wrap. Wrong drops, misplaced segments, early stops
  and wrong skips lose data but never send a byte that is not the stream's, nor one twice:
  every payload sent is the stream's bytes at a position, on every run, and with the segments
  sent less than half the sequence space behind, the stretches sent only move forward if and
  only if no segment is sent from before the next position while that position's number is 0
  (`ReassemblyIsSafe`). In particular no run is unsafe whose arrivals lie in one interval of
  length 2^31, wherever it wraps, and do not end at number 0 (`SafeUnlessEndingAtZero`).
- Keeping track of the true positions is more than safety: a run does so after every event if
  and only if every decision in it is right (`StepTracksExactly`, `RunTracksExactly`); the
  condition looks only at comparisons the code really makes. Two things about its range:
  positions half the sequence space or more apart have no order in 32-bit numbers and are
  outside it, and a position of number 0 inside a later segment of the same acknowledgement can
  make wrong decisions come out right by coincidence of payloads (`RightByCoincidence`), so that
  for such acknowledgements the equivalence holds turn by turn (`EveryTurnAgreesExactly`) and
  not for the outcome. Positions inside one lap of the sequence space and one interval of length
  2^31 always lead to right decisions (`OneLapRunIsClear`).
- The order of arrival shows across the wrap: segments 16 bytes before and after it end up in
  either order (`OrderShowsAcrossTheWrap`). Otherwise it does not: `ArrivalOrderExactly` has the
  exact condition.
- Acknowledgements do not batch across the wrap: data 16 bytes before it is sent by an
  acknowledgement 8 bytes before it and held back by one 16 bytes after it
  (`BatchingFailsAcrossTheWrap`). `ConfirmBatchesExactly` says for all windows and numbers when
  they do, `ConfirmBatches` at true positions.
- `README.md:98-124` of the repository says reading with a timeout cures the stuck main loop. It
  does while the handler is still reading or discarding the stream. It does not when the handler
  gives up on an inactive connection while an acknowledgement is in flight: once that stream has
  been discarded, a full channel blocks the loop for good. `ReleasedExactly` is the exact
  condition and `StallIsReachable` a run that gets there, for every channel of fewer than
  2^31 - 1 packets.
- Go's `select` may choose an expired timer although a packet is there. Then `Read` reports EOF
  with data queued, and if that happens while a blocked stream is being discarded the loop stays
  blocked (`OvertakingStalls`); the results on progress are about schedules on which no timer
  overtakes a packet.
- After reporting a simulated EOF, `Read` may still return data, since packets already queued stay
  readable (`Read` and `Refill` state when data, EOF or neither results).
- The S3 exporter blanks the application identifiers through pointers shared with every holder of
  the entries; setting the pointer to nil changes only the loop's copy. Every later processor of
  the same file therefore sees the application `"_0"`, and a second exporter files everything
  under it (`S3Client.Process`, `ProcessAll`, `ExportTo`).
- Without host splitting, a dump whose transactions are all ignored produces one empty file,
  on which a processor that reads the first entry indexes out of range (`GetHarFiles`
  says exactly when no file is empty).
- The branch for a negative `duplicatedSize` (`httpdump/receive_window.go:98-100`) is dead: the
  variable is unsigned.

## Model

| member | source | states |
|---|---|---|
| `TcpSequence.CompareAgreesExactly` | httpdump/receive_window.go:135-142 | over all pairs, the comparison has the sign of the signed 32-bit difference if and only if the pair is outside the second wrap branch and is not (0, 0xFFFFFFFF) |
| `TcpSequence.OrderOfPositions` | httpdump/receive_window.go:134-142 | for positions less than half the space apart, the comparison of their numbers is the order of the positions exactly for comparable pairs |
| `TcpSequence.StrictTotalOrderExactly` | httpdump/receive_window.go:134-142 | on any set of positions spanning less than 2^31 the comparison is the order of unwrapped positions if and only if no pair is misordered |
| `TcpSequence.OneLapIsComparable` | httpdump/receive_window.go:135-142 | no two positions of one lap of the space, less than half a lap apart, are misordered |
| `TcpSequence.WrapIsMisordered` | httpdump/receive_window.go:136-140 | concrete inputs in both wrap branches on which the comparison is wrong |
| `Reassembly.InsertKeepsPayloads` | httpdump/receive_window.go:38-41 | insertion never lets an empty payload into the window |
| `Reassembly.DeliverKeepsPayloads` | httpdump/receive_window.go:81-112 | delivery never sends an empty payload, whatever the numbers: trimming always leaves a byte |
| `ReceiveWindows.SlotIsModulo` | httpdump/receive_window.go:45 | one turn around the ring at most: the modulo index is the sum or the sum less the length |
| `ReceiveWindows.ReceiveWindow.constructor` | httpdump/receive_window.go:18-24 | a fresh ring of nil slots represents the empty window |
| `ReceiveWindows.ReceiveWindow.Scan` | httpdump/receive_window.go:43-56 | the scan around the ring returns the slot the sequence-level search returns, or none for a number already present |
| `ReceiveWindows.ReceiveWindow.Insert` | httpdump/receive_window.go:32-78 | for every ring, start and packet, the window represented afterwards is the value-level insertion; live slots hold the packets, dead ones are nil, none is held twice |
| `ReceiveWindows.ReceiveWindow.Place` | httpdump/receive_window.go:58-77 | growing first if full, the packet is spliced in at its slot, everything else in order |
| `ReceiveWindows.ReceiveWindow.ShiftUp` | httpdump/receive_window.go:68-72 | the tail moves up one slot around the ring, nothing else changes |
| `ReceiveWindows.ReceiveWindow.PutAt` | httpdump/receive_window.go:62-77 | appending and shifting both splice the packet in at the index |
| `ReceiveWindows.ReceiveWindow.Expand` | httpdump/receive_window.go:121-132 | doubling from any start leaves what the ring represents unchanged and starts it at 0 |
| `ReceiveWindows.ReceiveWindow.TakeTurnAt` | httpdump/receive_window.go:83-110 | one turn stops, drops or sends as the value-level turn says; the slot is nil unless it stopped; only that packet's payload may change |
| `ReceiveWindows.ReceiveWindow.SendTrimmed` | httpdump/receive_window.go:92-110 | past the stop, the packet is skipped or sent trimmed in place, and the expected number follows the value-level turn |
| `ReceiveWindows.ResumeTurn` | httpdump/receive_window.go:83-110 | a turn followed by the rest of the loop is the whole loop, for each of the three outcomes |
| `ReceiveWindows.ReceiveWindow.DeliverLoop` | httpdump/receive_window.go:82-112 | the loop queues what the value-level delivery sends and clears exactly the prefix it went through |
| `ReceiveWindows.ReceiveWindow.Advance` | httpdump/receive_window.go:113-114 | moving the start drops exactly the cleared prefix and restores the ring's invariant |
| `ReceiveWindows.ReceiveWindow.Confirm` | httpdump/receive_window.go:81-119 | window, expected number, last acknowledgement and everything sent are those of the value-level confirm; no packet is sent and still held |
| `TrueStream.PlaceIsSortedInsertion` | httpdump/receive_window.go:43-77 | insertion keeps positions strictly increasing and adds exactly the segment, unless its position is taken, when the first copy stays |
| `TrueStream.StepKeepsValid` | httpdump/receive_window.go:32-119 | every arrival and acknowledgement keeps the window sorted, without duplicates or empty segments |
| `TrueStream.DrainLeavesSuffix` | httpdump/receive_window.go:113-114 | an acknowledgement removes a prefix and leaves the rest untouched |
| `TrueStream.DrainIsCut` | httpdump/receive_window.go:92-110 | every chunk delivered is the stream's bytes at its position, trimmed or not |
| `TrueStream.DrainIsInOrder` | httpdump/receive_window.go:81-112 | chunks of one acknowledgement start no earlier than the end of the one before, and the next position is the last end |
| `TrueStream.RunIsSafe` | httpdump/receive_window.go:32-119 | over every run, chunks across all acknowledgements are the stream's bytes, never overlap and move forward |
| `StreamTheorems.FurthestIsMaximum` | httpdump/receive_window.go:92-110 | the recursive furthest end is the maximum of the next position and the ends of the segments before the acknowledgement |
| `StreamTheorems.GapFreeExactly` | httpdump/receive_window.go:81-112 | one acknowledgement delivers without a hole if and only if the window has no gap before it, and always moves to the furthest end |
| `StreamTheorems.GapFreeCompleteness` | httpdump/receive_window.go:81-112 | without a gap, exactly the stream from the next position to the furthest end is delivered |
| `StreamTheorems.RunGapFreeExactly` | httpdump/receive_window.go:32-119 | over a whole run the deliveries form one uninterrupted stretch if and only if no acknowledgement met a gap |
| `StreamTheorems.DrainBatches` | httpdump/receive_window.go:81-112 | two acknowledgements in a row deliver and leave what the later one alone would |
| `StreamTheorems.OlderAckIsSilent` | httpdump/receive_window.go:81-112 | on true positions an older acknowledgement delivers nothing and changes nothing |
| `StreamTheorems.ArriveAllContents` | httpdump/receive_window.go:32-78 | after arrivals at distinct positions the window holds what it held and exactly the arrivals it accepts |
| `StreamTheorems.ArrivalOrderIrrelevant` | httpdump/receive_window.go:43-77 | any permutation of arrivals at distinct positions leaves the same window |
| `WindowDecisions.DropExactly` | httpdump/receive_window.go:33-36 | when the arrival test drops, and exactly when its answer is right: for a covered segment if the expected number is not 0, for any other if it is 0 or the end stays out of the second wrap branch |
| `WindowDecisions.StopExactly` | httpdump/receive_window.go:87-90 | the delivery loop stops at a segment if and only if it does not start before the acknowledgement or the pair is in the second wrap branch |
| `WindowDecisions.OverlapExactly` | httpdump/receive_window.go:93-101 | the overlap test is right if and only if number 0 hides no overlap and the second wrap branch is met only one byte apart |
| `WindowDecisions.ScanExactly` | httpdump/receive_window.go:43-77 | the scan and the shift put a segment where its position belongs, or find the position taken, if and only if no comparison made from the right down to the slot goes astray |
| `WindowDecisions.ArrivalExactly` | httpdump/receive_window.go:32-78 | insertion by numbers is insertion by positions if and only if the arrival is empty, covered, wrongly dropped at a taken position, or scanned right |
| `WindowDecisions.TurnExactly` | httpdump/receive_window.go:83-110 | a turn of the loop stops, skips or sends as true positions call for if and only if its comparisons are right |
| `WindowDecisions.EveryTurnAgreesExactly` | httpdump/receive_window.go:82-112 | turn by turn, a whole acknowledgement is dealt with rightly if and only if every comparison is right and it does not end at number 0 |
| `WindowDecisions.ExactAckTracks` | httpdump/receive_window.go:81-112 | such an acknowledgement sends the payloads true positions call for and leaves a window that represents theirs |
| `WindowDecisions.DeliverIsBounded` | httpdump/receive_window.go:81-112 | having fallen behind, the loop sends at most the bytes still due and those it is behind by |
| `WindowDecisions.AckTracksExactly` | httpdump/receive_window.go:81-112 | the outcome of an acknowledgement, sends and window, is right if and only if every decision was: a segment skipped wrongly is never made up for |
| `WindowDecisions.RightByCoincidence` | httpdump/receive_window.go:92-110 | an acknowledgement across number 0 whose outcome is right although a segment is sent twice and one is lost |
| `WindowRefinement.EndAtZeroSendsTwice` | httpdump/receive_window.go:92-110 | a run on which a segment ending at number 0 is sent twice |
| `WindowRefinement.WrapCrossingIsDropped` | httpdump/receive_window.go:33-36 | the next 32 bytes in sequence, 16 before the wrap, are dropped although nothing of them was delivered |
| `WindowRefinement.StepTracksExactly` | httpdump/receive_window.go:32-119 | a step sends the right payloads and leaves a window that represents the right one if and only if every decision in it is right |
| `WindowRefinement.RunTracksExactly` | httpdump/receive_window.go:32-119 | over any run, the code keeps track after every event if and only if every decision of the run is right |
| `WindowRefinement.RunRefines` | httpdump/receive_window.go:32-119 | on every run of right decisions the window of numbers represents the window of positions at the end and has sent the same payloads |
| `WindowSafety.RunTraces` | httpdump/receive_window.go:32-119 | whatever the run, the window holds and sends what the decision-by-decision window on true positions does |
| `WindowSafety.SendIsForwardExactly` | httpdump/receive_window.go:92-110 | a turn sends from the next position on unless number 0 hides the overlap, right or wrong as its comparisons may be |
| `WindowSafety.RunIsForwardExactly` | httpdump/receive_window.go:32-119 | over every run the chunks sent move forward and never overlap if and only if no segment is sent whose overlap number 0 hides |
| `WindowSafety.ReassemblyIsSafe` | httpdump/receive_window.go:32-119 | over every interleaving of arrivals and acknowledgements, wraps and wrong decisions included, every payload sent is the stream's bytes at a position, and no byte is sent twice or out of order if and only if number 0 hides no overlap of a segment sent |
| `WindowSafety.SafeUnlessEndingAtZero` | httpdump/receive_window.go:32-119 | checkable on the arrivals: none ends at number 0 and all lie in one interval of length 2^31, across the wrap or not, then every run is safe, whatever is acknowledged when |
| `WindowRefinement.ConfirmDeliversUpToFurthestEnd` | httpdump/receive_window.go:81-119 | without a gap, `confirm` sends exactly the stream from `expectBegin` to the furthest end and leaves `expectBegin` there |
| `WindowRefinement.GapFreeRunIsOneStretch` | httpdump/receive_window.go:32-119 | over a whole gap-free run all bytes sent are one uninterrupted stretch |
| `ArrivalOrder.ArrivalOrderExactly` | httpdump/receive_window.go:43-77 | every order of arrival of the same segments, at distinct positions, leaves the very same window if and only if no two that get as far as the scan go astray from each other |
| `ArrivalOrder.OrderShowsAcrossTheWrap` | httpdump/receive_window.go:43-77 | two segments around the wrap end up in either order, as they arrive |
| `WindowRefinement.DeliverBatchesExactly` | httpdump/receive_window.go:81-112 | for any numbers, two deliveries come to the one for the second acknowledgement if and only if whatever the first removes also compares before the second |
| `WindowRefinement.ConfirmBatchesExactly` | httpdump/receive_window.go:81-119 | for any window and numbers, `confirm(a1)` then `confirm(a2)` sends the same packets and reaches the same window as `confirm(a2)` alone if and only if that holds and the records come to the same |
| `WindowRefinement.ConfirmBatches` | httpdump/receive_window.go:81-119 | at true positions, `a1` not later than `a2` and what `a1` removes near both, they batch if and only if nothing removed goes astray from `a2` |
| `WindowRefinement.BatchingFailsAcrossTheWrap` | httpdump/receive_window.go:87-90 | an acknowledgement before the wrap sends data that one after it holds back |
| `WindowRefinement.ConfirmIsSilentExactly` | httpdump/receive_window.go:81-119 | for any window and number, an acknowledgement sends and changes nothing if and only if the first segment does not compare before it and it does not replace the one on record |
| `WindowRefinement.OlderConfirmIsSilent` | httpdump/receive_window.go:81-119 | an older acknowledgement sends and changes nothing if and only if the first segment left does not start before it or goes astray from it, and the recorded one is not number 0 or it is 0 itself |
| `WindowRefinement.OneLapRunIsClear` | httpdump/receive_window.go:135-142 | on every run inside one lap and one interval of length 2^31 every decision is right |
| `Packets.Channel.Send` | httpdump/receive_window.go:109 | a send appends to the queue; on a full channel it implies that the reader took a packet; never on a closed channel, no packet twice |
| `NetworkStreams.NetworkStream.constructor` | httpdump/network_stream.go:23-29 | a new stream is empty, open and balanced |
| `NetworkStreams.NetworkStream.AppendPacket` | httpdump/network_stream.go:31-37 | the packet is inserted unless the stream ignores data or has simulated an EOF, when nothing happens; all stream invariants are kept |
| `NetworkStreams.NetworkStream.WaitForChannelSpace` | httpdump/network_stream.go:50-63 | the wait succeeds if and only if the channel has room at all and the reader takes enough in time; otherwise the stream is switched off for good |
| `NetworkStreams.NetworkStream.ConfirmPacket` | httpdump/network_stream.go:39-48 | what is queued and logged as sent is exactly the window's delivery, or nothing when switched off or without space |
| `NetworkStreams.NetworkStream.SendConfirmed` | httpdump/network_stream.go:47 | byte conservation: returned, remaining and queued bytes stay equal to all bytes ever sent |
| `NetworkStreams.NetworkStream.TakePacket` | httpdump/network_stream.go:77-86 | the first queued packet becomes what remains, and it is never empty |
| `NetworkStreams.NetworkStream.Refill` | httpdump/network_stream.go:73-103 | for any expiries chosen before the channel is looked at: with nothing left, an expiry while the opposite channel is full gives EOF whatever is queued; with room there, EOF if and only if an expiry finds the stream inactive or the channel is closed and drained; data if and only if something is left or queued and there is no EOF; every EOF sets `eofSimulated` |
| `NetworkStreams.NetworkStream.Read` | httpdump/network_stream.go:70-114 | for any buffer and any expiries, timers chosen over waiting packets included: when it answers data, EOF or neither, stated in the two channels and the expiries; the bytes returned, kept and queued, the rest of the buffer unchanged, at least one byte into a non-empty buffer, and byte conservation |
| `NetworkStreams.NetworkStream.CopyOut` | httpdump/network_stream.go:105-113 | as much as fits is copied, the rest remains, in order |
| `NetworkStreams.NetworkStream.Finish` | httpdump/network_stream.go:65-68 | the channel is closed, and only if it was open |
| `NetworkStreams.NetworkStream.Close` | httpdump/network_stream.go:117-120 | the reader switches the stream off and touches nothing else |
| `Endpoints.TextIsInjective` | httpdump/endpoint.go:15-17 | endpoints with the same text are equal, for addresses with colons too |
| `Endpoints.KeyIsSymmetric` | httpdump/tcp_assembly.go:35-42 | both directions of a connection have the same key |
| `Endpoints.KeyIdentifiesPair` | httpdump/tcp_assembly.go:35-42 | keys are equal if and only if the unordered pairs of endpoints are; an address has no '-' in its text |
| `HttpData.RequestDataExactly` | httpdump/tcp_assembly.go:102-118 | a payload is taken for a request if and only if it has 8 bytes and starts with one of the eight methods and a space |
| `TCPConnections.Route` | httpdump/tcp_connection.go:58-67 | a packet goes to its sender's stream, its acknowledgement to the other, given up if and only if the reader makes no room in time, and FIN or RST closes the sender's direction |
| `TCPConnections.TCPConnection.constructor` | httpdump/tcp_connection.go:20-31 | two separate, untouched streams that know each other |
| `TCPConnections.TCPConnection.OnReceive` | httpdump/tcp_connection.go:34-68 | the connection changes as the value-level receive says, time stamp included (`Lifetimes.EntryIsAlive` says of what packet); the upstream has only seen the client's packets and the server's acknowledgements, the downstream the other way round, and client and server make up the key |
| `TCPConnections.TCPConnection.RouteBySender` | httpdump/tcp_connection.go:49-67 | the sender's stream is fed, the other one acknowledged, and whoever is not the client is the server |
| `TCPConnections.TCPConnection.Finish` | httpdump/tcp_connection.go:81-85 | both channels are closed, once, and nothing else changes |
| `TCPConnections.TCPConnection.ForceClose` | httpdump/tcp_connection.go:70-75 | both directions are marked closed and both channels closed, once |
| `ConnectionModel.AssembleInSteps` | httpdump/tcp_assembly.go:45-57 | retrieving or creating, receiving and deleting, in the code's order, is the value-level step on the table |
| `TCPAssemblers.TCPAssembler.constructor` | httpdump/tcp_assembly.go:24-28 | an empty table |
| `TCPAssemblers.TCPAssembler.RetrieveConnection` | httpdump/tcp_assembly.go:61-74 | an existing entry or, if allowed, a new connection under the key; the others unchanged |
| `TCPAssemblers.TCPAssembler.Dispatch` | httpdump/tcp_assembly.go:51 | one connection receives the packet, with the wait for space decided by its own channel; no other connection changes |
| `TCPAssemblers.TCPAssembler.Assemble` | httpdump/tcp_assembly.go:30-58 | the table becomes what the value-level step says; entries stay under their own keys, unfinished, sharing nothing; a connection that leaves has its channels closed; the wait for space succeeds exactly when the connection's reader makes room in time |
| `TCPAssemblers.TCPAssembler.Remove` | httpdump/tcp_assembly.go:53-57 | the closed connection leaves the table and only then has its channels closed |
| `TCPAssemblers.TCPAssembler.CollectOlder` | httpdump/tcp_assembly.go:85-91 | exactly the connections older than the cut-off, each once, in any map order |
| `TCPAssemblers.TCPAssembler.DeleteAll` | httpdump/tcp_assembly.go:92-94 | exactly the listed connections leave the table |
| `TCPAssemblers.TCPAssembler.Evict` | httpdump/tcp_assembly.go:92-99 | the listed connections leave the table before they are closed, and the rest of it does not notice |
| `TCPAssemblers.TCPAssembler.FlushOlderThan` | httpdump/tcp_assembly.go:84-100 | exactly the connections not older than the cut-off remain, unchanged; every other one is finished |
| `ConnectionTheorems.RunStaysSettled` | httpdump/tcp_assembly.go:53-57 | in every reachable table, no entry has both its streams marked closed |
| `Lifetimes.EntryIsAlive` | httpdump/tcp_assembly.go:30-100 | in every reachable table, of the two ends of an entry's connection one has sent no FIN or RST since the first request, and the entry's time stamp is the time of the last packet in its past |
| `Lifetimes.LeavesExactly` | httpdump/tcp_assembly.go:45-100 | over all runs, an event removes a connection if and only if it is a flush whose cut-off lies after the connection's last packet, or a packet of the connection after which both ends have sent a FIN or RST since the first request |
| `Lifetimes.OpensExactly` | httpdump/tcp_assembly.go:45-74 | an event creates an entry if and only if it is a packet of that key with SYN and without ACK, or one of at least 8 bytes starting with a method and a space |
| `Lifetimes.LastTimeIsLast` | httpdump/tcp_connection.go:36 | the time meant is that of the packet with no packet after it; there is none if and only if there is no packet |
| `Lifetimes.ClosedIsFinished` | httpdump/tcp_connection.go:64-79 | on every past, a stream is marked closed if and only if its sender has sent a FIN or RST since the first request |
| `Lifetimes.OffExactly` | httpdump/network_stream.go:31-63 | over all events, a new stream has been switched off if and only if its reader closed it or saw an EOF, or a wait for space failed, at some time |
| `Lifetimes.ReachesExactly` | httpdump/network_stream.go:31-48 | a segment or acknowledgement takes effect if and only if nothing has switched the stream off by then; otherwise window and queue stay |
| `ConnectionTheorems.ConnectionsAreIsolated` | httpdump/tcp_assembly.go:30-100 | for every interleaving of packets, flushes and reads of all connections, the entry under a key is what that connection alone would have become |
| `Directions.HistoryMakesEntry` | httpdump/tcp_connection.go:34-68 | whatever happens to a connection, readers and flushes included, it is what the events since its last creation make of two new streams |
| `Directions.DirectionIntegrity` | httpdump/tcp_connection.go:34-68 | in every reachable table a connection with a client has one other end with the same key; all its packets went between the two; each stream is made of its sender's segments, the other end's acknowledgements and its own reader since the last creation |
| `Directions.NothingBeforeRequest` | httpdump/tcp_connection.go:38-47 | in every reachable table, windows and queues of a connection without a client are empty |
| `Directions.StreamIsWindowRun` | httpdump/network_stream.go:31-48 | failed waits, readers and switching off included, a stream's window and all it ever queued are those of the window run on the events that reach it |
| `Directions.QueueIsTail` | httpdump/network_stream.go:70-114 | what is queued is always the end of everything ever queued |
| `Directions.DirectionDelivers` | httpdump/tcp_connection.go:34-68 | over any run of the table, all that a direction ever queued is its sender's bytes at some positions, disjoint and in order if and only if number 0 hides no overlap, and what its reader has yet to take is the end of it; with every decision right and no gap it is one uninterrupted stretch |
| `BlockingProtocol.TurnKeepsCompletion` | httpdump/receive_window.go:83-112 | what an acknowledgement in flight will have sent by its end does not change as it takes its turns, one by one |
| `BlockingProtocol.ReachableIsOk` | httpdump/network_stream.go:31-114 | every reachable state has bounded channels without empty packets, balanced bytes in both directions, and windows accounted for by the logged operations |
| `BlockingProtocol.ParserSeesWindowOutput` | httpdump/http_traffic_handler.go:36-106 | for every interleaving, bytes parsed, buffered, remaining and queued are a prefix of what the logged operations make the window send |
| `BlockingProtocol.HandlerProgresses` | httpdump/http_traffic_handler.go:46-102 | every handler step but a fruitless wait decreases the bytes to go or, with as many bytes, the calls to go, whatever the parser decides |
| `HandlerCalls.CallsFollowTheText` | httpdump/http_traffic_handler.go:36-106 | on every run, whatever parser, timers and packet loop do, the handler's calls come in the order the text prescribes: round the loop, a second response exactly when announced, reports cut short by a request body that cannot be read, the deferred calls last |
| `CallRuns.CallsAreExactlyTheText` | httpdump/http_traffic_handler.go:36-106 | for every size of the channels, a sequence of calls with any outcomes occurs on some run if and only if the text allows it and, without room in the channels, no request in it is read |
| `HandlerCalls.LeavesExactlyOnFailure` | httpdump/http_traffic_handler.go:46-98 | on every run the handler leaves its loop if and only if a call that reads a request or a response has failed; discards and closes come only then |
| `HandlerCalls.AfterTheExchange` | httpdump/http_traffic_handler.go:60-98 | after an exchange without failure comes a second response if the request expected "100-continue" and the status was 100, and the next request otherwise |
| `HandlerCalls.CallsKeepToTheirStream` | httpdump/http_traffic_handler.go:38-51 | calls for requests touch the upstream alone, calls for responses the downstream alone |
| `HandlerCalls.DiscardsToTheEnd` | httpdump/http_traffic_handler.go:38-44 | in every reachable state a stream that has been discarded has reported EOF and nothing handed out is left unread, and the handler ends with both streams closed |
| `HandlerCalls.SwitchedOffForGood` | httpdump/network_stream.go:31-63 | once given up on, at EOF or closed, a stream has nothing appended to it and no acknowledgement begun for it on any continuation |
| `HandlerCalls.ReadsAsTheProtocolAllows` | httpdump/network_stream.go:73-103 | the steps of the protocol are those of `Read`: waiting again only while the opposite channel has room, any number of times, receiving only what is queued, an EOF always switching the stream off, what is still buffered going to the parser unless it is discarded |
| `BlockingProtocol.BlockedHandlerMoves` | httpdump/network_stream.go:75-103 | while the loop is blocked on a stream not yet discarded, a handler step is on time, and no such step is a fruitless wait |
| `BlockingProtocol.BlockedLoopIsReleased` | httpdump/http_traffic_handler.go:36-106 | no circular wait: a blocked send on a stream not yet discarded is released after finitely many handler steps, for every schedule on which no timer overtakes a packet |
| `BlockingProtocol.DiscardedStaysFull` | httpdump/http_traffic_handler.go:38-44 | after the discard no number of handler steps makes room again |
| `BlockingProtocol.ReleasedExactly` | httpdump/http_traffic_handler.go:36-106 | a blocked loop is released by the handler if and only if the handler has not yet discarded that stream |
| `BlockingProtocol.StallIsReachable` | httpdump/network_stream.go:90-97 | for every channel size up to the number of sequence numbers that can be ordered, a run from the start to a state where the handler has ended and the packet loop is blocked for good |
| `BlockingProtocol.OvertakingStalls` | httpdump/network_stream.go:75-103 | a timer chosen over the packets of a full channel while it is being discarded leaves the loop blocked for good |
| `BlockingProtocol.ClosedHandlerFinishes` | httpdump/http_traffic_handler.go:36-106 | once the channels are closed the handler ends, whatever the parser does, on every schedule on which no timer overtakes a packet or the close |
| `EndToEnd.LoopServesStreams` | httpdump/network_stream.go:31-63 | the protocol's packet loop does to its streams what a connection does: any segment at any time between packets, an acknowledgement exactly while the stream is on and has room, with the window's delivery as its outcome, and giving up exactly without room |
| `EndToEnd.ReplayIsWindowRun` | httpdump/receive_window.go:32-119 | the logged operations of the protocol replay to a window run on true positions |
| `EndToEnd.LogIsPlaced` | httpdump/tcp_connection.go:49-67 | for packets routed by sender, the log of a side lists exactly what was routed to it while it was on, at true positions |
| `EndToEnd.LogIsOneSenders` | httpdump/tcp_connection.go:49-67 | whatever is logged for a side was sent by that side |
| `EndToEnd.ParserReadsTheStream` | httpdump/http_traffic_handler.go:41-47 | for packets routed by sender and every interleaving with the handler, what the HTTP parser of a side consumed is a prefix of pieces of that sender's stream, disjoint and in order if and only if number 0 hides no overlap |
| `EndToEnd.ParserReadsOneStretch` | httpdump/http_traffic_handler.go:41-47 | with every decision right and no gap, it is exactly the stream from the first delivered position on, as far as the parser has got |
| `Correlator.Processor.UpdateEntry` | tshark/correlator/processor.go:63-77 | requests and responses act on the map and the output as the value-level step says |
| `Correlator.Processor.UpdateResponse` | tshark/correlator/processor.go:85-105 | a response takes its stream's pending request with it, or does nothing if there is none |
| `Correlator.Processor.CheckTimeouts` | tshark/correlator/processor.go:107-133 | whatever order the map is iterated in, the overdue requests leave it and are emitted without a response, once each |
| `Correlator.Processor.CollectExpired` | tshark/correlator/processor.go:112-119 | the streams collected are the overdue ones in iteration order |
| `Correlator.Processor.EmitExpired` | tshark/correlator/processor.go:126-132 | each listed stream is emitted and deleted, in order; no other is touched |
| `Correlator.StreamsAreIndependent` | tshark/correlator/processor.go:63-133 | for every interleaving and iteration order, the transactions and the pending request of a stream are those of a one-slot automaton that sees only that stream and the ticks |
| `Correlator.FatesAccount` | tshark/correlator/processor.go:79-133 | the requests of a slot are, in order, those decided and the one waiting; what is emitted is what the fates say |
| `Correlator.FateIsFirstDecision` | tshark/correlator/processor.go:79-133 | a request's fate is decided by the first later request, response or overdue tick of its stream: replaced, answered by that response, or timed out at that tick; it is pending if there is none |
| `Correlator.FatesAreOfEach` | tshark/correlator/processor.go:79-133 | the fates of a slot are those of each request it received, in order, each decided by the events after it |
| `Correlator.EveryRequestOnce` | tshark/correlator/processor.go:79-133 | every request of a stream, exactly once and in order, has the fate the later events decide for it or is still pending, and what is emitted for the stream is what those fates say, no more and no less |
| `Correlator.TickLeavesNothingOverdue` | tshark/correlator/processor.go:112-132 | a request is pending after a tick if and only if it was pending before and its age at the tick is at most the timeout |
| `Grouping.SplitConserves` | exporters/processor.go:199-212 | one non-empty file per application in original order holds every entry exactly once, as multisets |
| `Grouping.TotalWithout` | exporters/s3.go:151-157 | the number of held entries does not depend on the order in which the map is iterated |
| `Grouping.ExporterConserves` | exporters/s3.go:54-77 | over any run of files, timer exports and failed pushes, an application's successful exports followed by what is held are all its entries, in order |
| `Grouping.HeldIsBounded` | exporters/s3.go:69-75 | processing a file succeeds if and only if it leaves at most the maximum held |
| `Grouping.ExportsExactly` | exporters/s3.go:44-149 | an export is due when, with the file just processed, something is held and the timer asks or it exceeds the maximum; due and pushed, everything held becomes one export and nothing stays; otherwise nothing is exported, everything stays, and it is an error exactly if it was due |
| `Grouping.HeldIsCounted` | exporters/s3.go:44-157 | over any run the number of entries held is that received since the last successful export, counted from the events alone |
| `Grouping.DumpReachesExporter` | exporters/processor.go:177-183 | whatever the order of a dump's files and the fate of the pushes, each application's share grows by exactly its entries, in order |
| `HarExport.GetHarFiles` | exporters/processor.go:193-214 | with splitting, one file per occurring application with its entries in order; without, one file; files share no identifier and each first entry names its application; no file is empty if and only if splitting is on or there are entries |
| `HarExport.GroupByApp` | exporters/processor.go:199-206 | the grouping map holds, per occurring application, its entries in original order |
| `HarExport.EmitGroups` | exporters/processor.go:208-212 | in any map order, each group becomes one file |
| `HarExport.SplitIsReady` | exporters/processor.go:199-212 | files of different applications share no identifier, so blanking one leaves the others as they are |
| `HarExport.S3Client.Process` | exporters/s3.go:54-77 | the file is added under its first entry's application and exported when too much is held; all its identifiers are blank afterwards, so a later processor sees "_0" |
| `HarExport.ProcessFile` | exporters/processor.go:64-73 | exporter after exporter takes the file, the first under its application and every later one under "_0" |
| `HarExport.ProcessAll` | exporters/processor.go:177-183 | processing all files of a dump by all exporters, with identifiers shared and blanked on the way, is for each exporter the value-level run on the files as it sees them |
| `HarExport.S3Client.DoExport` | exporters/s3.go:122-149 | the holder is emptied exactly by a successful push, which carries all of it; a failed push keeps everything |
| `HarExport.S3Client.GetNumOfEntries` | exporters/s3.go:151-157 | the count is the total over the holder, for any iteration order |
| `HarExport.S3Client.OnTimer` | exporters/s3.go:44-51 | a timer tick exports whatever is held |
| `HarExport.Processor.Aggregate` | exporters/processor.go:132-136 | nothing aggregated is lost or reordered before its hand-over |
| `HarExport.Processor.Export` | exporters/processor.go:110-117 | the hand-over takes everything gathered; together with the earlier ones it is all that was aggregated; the count is that of the kept transactions |
| `HarExport.DumpReaches` | exporters/processor.go:177-183 | what a dump adds to each exporter, application by application, split or not, whatever happens to the pushes |
| `HarExport.Processor.ExportTo` | exporters/processor.go:110-183 | a tick all the way into the exporters: the first one gains each application's kept entries in order (all under the first entry's application if not split), every later one all of them under "_0", none lost or repeated |
| `HarExport.Processor.DumpTransactions` | exporters/processor.go:160-191 | the files hold the kept transactions, converted, and the counter grows by their number |
| `HarExport.Processor.ConvertKept` | exporters/processor.go:166-176 | the entries are the kept transactions in order, each with an identifier of its own, and the ignored ones are counted |
| `HarExport.Processor.ConvertAll` | exporters/processor.go:166-176 | entries and ignored transactions add up, and each entry is filed under its transaction's application |
| `HarExport.Processor.ShouldDumpEntry` | exporters/processor.go:147-158 | an entry is ignored if and only if ignoring is on and one of its headers marks a health check |
| `HarExport.KeptExactly` | exporters/processor.go:147-176 | of every transaction all copies are kept, or none if health checks are ignored and it has one of their two headers |
| `HarExport.AppIsDestination` | har/har.go:33-41 | two transactions are filed under one application if and only if they went to the same address and port |
| `SitesStats.SitesStats.Process` | exporters/sites_stats.go:64-89 | both levels record the file as the value-level step says; a failed marshalling changes neither |
| `SitesStats.UpdateSizesStats` | exporters/sites_stats.go:167-183 | the loop over a file's entries is the fold of one-entry updates |
| `SitesStats.UpdateSizesStatsSingle` | exporters/sites_stats.go:185-203 | the loop finds the bucket and the extremes are updated as the value-level note says; `TrafficRecords.StatisticsAreExact` says what comes of it |
| `SitesStats.BucketHolds` | exporters/sites_stats.go:196-202 | a size falls into a bucket if and only if it lies above the previous bound and not above its own |
| `SitesStats.NoBucketBeyond` | exporters/sites_stats.go:196-202 | a size falls into no bucket if and only if it exceeds every bound |
| `SitesStats.RecordGains` | exporters/sites_stats.go:75-86 | a file adds the same amount to every quantity whatever the record held before |
| `SitesStats.LevelsAgree` | exporters/sites_stats.go:64-89 | after any run every total, bucket count and no-response count of the summary is the sum over the applications |
| `SitesStats.ExtremesStayAgreed` | exporters/sites_stats.go:186-191 | after any run the summary's minimum and maximum are the least and greatest over all applications |
| `SitesStats.BucketsAccount` | exporters/sites_stats.go:167-203 | over any run the request buckets fall short of the transactions by exactly the oversized requests; started even, they sum up to them if and only if there is none |
| `TrafficRecords.StatisticsAreExact` | exporters/sites_stats.go:64-203 | after any files, in terms of their bytes and their exchanges' body and header sizes: exactly the applications that occur have a record; the summary and every record have the bytes, transactions and unanswered requests of their files, no minimum and maximum if and only if no size of the kind occurred, otherwise ones that occurred and bound all others, and in each bucket the number of sizes above the previous bound and not above its own |
| `TrafficRecords.RecordIsRecordOf` | exporters/sites_stats.go:64-89 | the same for one level and one file more, with splitting by application on or off |
| `LogBatching.PutBatches` | core/log/cloud_watch_hook.go:126-146 | dispatched batches and the current one are the events received, in order; each has at most 10000 events and stays below 1048576 bytes unless it is one oversized event; the batches lie end to end in the inputs, each cut at a tick or at an event it could not take, and nowhere else |
| `LogBatching.CutInBytes` | core/log/cloud_watch_hook.go:126-146 | a batch is cut only at a tick, at a message that with 26 bytes for each message would bring it to 1048576 bytes, or at 10000 messages |
| `LogBatching.NoCutInBytes` | core/log/cloud_watch_hook.go:126-146 | between cuts there is no tick, and no message that would bring what has gathered to 1048576 bytes or finds 10000 messages there |
| `LogBatching.CutsAreDetermined` | core/log/cloud_watch_hook.go:126-146 | the inputs leave no choice: batches, cuts and what is left are determined by them |
| `LogBatching.NonEmpty` | core/log/cloud_watch_hook.go:148-154 | skipping empty batches loses no event and leaves none empty |

## Left out

- The method `handle` is a step relation of the protocol, not an imperative method: its loop, deferred calls and the parser are phases, so that every interleaving with the packet loop can be quantified over. HTTP parsing and `bufio` decide freely how much they read and when a call succeeds; the text of requests and responses is not modelled.
- Blocking inside the classes: a send on a full `Channel` is taken to end with the reader having taken a packet, counted in `claimed`; whether it ends is the subject of `BlockingProtocol`. Closing is only modelled where the code closes.
- Within one `Read` the opposite channel does not change, and whether the stream has been inactive too long is an input.
- WindowRefinement.RunTracksExactly: about runs whose compared positions are less than half the sequence space apart, the only ones 32-bit numbers order, and whose acknowledgements have no position of number 0 inside a later segment (`RightByCoincidence` says why; turn by turn the equivalence needs no such condition).
- WindowSafety.ReassemblyIsSafe: the order of the stretches is about segments sent from less than half the sequence space before the next position; that they are the stream's bytes is about every run.
- ArrivalOrder.ArrivalOrderExactly: about segments near each other and comparable with what is held, and at distinct positions, of which the first copy to arrive stays.
- BlockingProtocol.BlockedLoopIsReleased: about schedules on which no timer overtakes a waiting packet, because it fails on others (`OvertakingStalls`).
- BlockingProtocol.StallIsReachable: the packet loop serves one connection here; a channel of 2^31 - 1 or more packets is left out, since a window cannot order that many segments.
- EndToEnd.ParserReadsTheStream: starts at the first request; what comes before it is the subject of `Directions.NothingBeforeRequest`.
- Data never acknowledged before a connection is removed: the code does not deliver it and nothing is claimed about it.
- Steps are atomic: races on `stopped`, `ignore` and `eofSimulated`, and initialisation order between goroutines, are not modelled.
- Overflow of byte and transaction counters (`uint64`, `int`).
- `ReceiveWindow.destroy`, which nothing calls, and the key descriptions used in log lines.
- HarExport.Processor.ExportTo: every processor behind it is an exporter; with splitting off a dump with nothing left to file is excluded, as the exporter indexes out of range on it.
- Conversion of a transaction to an entry beyond application, headers and one content field: content-type filtering, query strings, durations, header sizes.
- JSON, gzip, file names and AWS calls: a push succeeds or fails, marshalling gives a length or fails.
- Sending of log batches by concurrent goroutines: their order at the service and batches lost on a failed call.
- Stopping: entries pending in the correlator or waiting for an export when the program stops.
- Correlator entries of another type: such an entry ends the program in the source and is not an entry here.
- Packet capture, tshark, configuration, host names, rates and percentages in log output: input and output, or simple folds.
