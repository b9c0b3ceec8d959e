# File transfer over lossy networks: a Dafny model

This project models the transfer engines of the repository and proves what they promise.

**Tsunami UDP transfer.** `Transfer.dfy` is one transition system of the server, a UDP channel that loses,
reorders and repeats datagrams, a reliable back-channel, the client's network thread, the ring buffer and the disk
thread. Its main theorems: the finished output is the source (`FinishedOutputIsSource`), no missing block is
forgotten (`NothingForgotten`), and every reachable state can still finish exactly when the request buffer is large
enough (`DeadStates.NoDeadStatesIff`). The parts are refined down to the arrays and counters of the C code:

| module | content |
|---|---|
| `Wire`, `Common` | datagrams, requests, shared definitions |
| `BlockFile` | blocks of a file, `build_datagram` (server/io.c), `accept_block` (client/io.c) |
| `RetransmitTable` | the retransmission table, both builds, as values |
| `TransferClient` | the control logic of the receive loop as functions, and its invariant |
| `ReceiveLaws` | what one pass does to each field, told by the fields alone |
| `ReceiveLoop` | the same over bitmap, growable table and counters |
| `Ring` | the ring buffer under every interleaving, and the shared object |
| `ClientThreads`, `ServerLoop` | one pass of each thread over the real objects |
| `RequestFraming`, `RateControl` | back-channel records, inter-packet delay |
| `Transfer`, `Progress`, `TransferLiveness`, `FairRuns`, `DeadStates` | the whole system: safety, progress, fair runs, and exactly when there are no dead states |

**Axel.** `SegmentedDownload` (ranges, run invariant), `Reconnect` (dropped connections, and exactly when a download
can still be completed), `ResumeState` (state file, crash and resume), `TornState` (state files that were cut off),
`DownloadLoop` (the array code), `MirrorSearch` (speed test and ranking), `UrlCodec` (URL parser and printer),
`UrlText` (which text becomes which field).

**HTTP client and server.** `PercentCoding` and `BasicAuth` (Base64 of RFC 4648 section 4, credentials of RFC 7617
section 2).

`dafny verify dfyconfig.toml` checks the project.

## Assumptions

- A transfer has at least one block, the datagrams are those the server built, and the very first receive succeeds.
  `EmptyFileGoesNegative` and `FailedFirstReceive` show what happens otherwise.
- `MAX_BLOCKS_QUEUED`, `MAX_RETRANSMISSION_BUFFER`, the initial table size and the on-wire estimate are parameters.
  Safety holds for every request buffer of at least 1 entry. Progress needs 3 (2 in the sorting build) unless the
  file is a single block; the source uses 2048.
- Block numbers are unbounded integers, except in the sum of the restart filter, which is taken modulo 2^32 as in
  `client/protocol.c`. Record fields are 32 bits wide.
- Whether feedback is due (50 blocks, 350 ms) is a free choice at every pass, with any loss rate.
- A mutex section is one step, and a blocked wait releases the mutex. In `Transfer` the ring is the sequence
  `Ring.Contents`, which `Ring.StepRefinesQueue` justifies.
- `TransferClient.Client` carries two history variables that no branch reads: `overflowed` (the cap dropped a request)
  and `oops` (the "Negative-going" branch was taken).
- In Axel, handling one connection and checking one connection are one step each; in between, setup threads may end at
  any moment. (A setup thread that ends between the two tests at `axel.c:393` and `axel.c:395` is not covered.)
- An old output file is opened without truncation by Axel, so a longer one keeps its tail; `CompleteRun` says so.

- The field that holds the encoded credentials belongs to a connection record. The record is cleared once and reused
  across redirects, and the field is never terminated, so what the server recovers depends on the record's past;
  `BasicAuth.RecoverIff` says how.

## Where the code and its description differ

The design text (`README.txt:92`, `README.txt:128`) says that a restart continues at the requested block, which is the
first block in the queue. In the code the client asks for `gapless_to_block + 1`, which need not be in the queue, and
the server stores this number and increments it before the next send, so it continues one block later
(`server/protocol.c:153`, `server/main.c:340`). The model follows the code; the client repairs the skipped block
through its table (`RepairLap`, `RepairSweep`).

## Model

| member | source | states |
|---|---|---|
| `Transfer.StepInv` | `test05/tsunami-udp-packetloss(client-command.c)/client/command.c:442-637` | every step of every party (server send and request handling, delivery in any order, duplication, loss, failed receive, disk write and pop, stop, join) keeps the system invariant |
| `Transfer.FinishedOutputIsSource` | `test05/tsunami-udp-packetloss(client-command.c)/client/command.c:620-657` | in every reachable state in which the client has joined the disk thread, the output file is the source byte for byte, every block 1..block_count was written exactly once, and the counted loss is 0 |
| `Transfer.AlwaysConserved` | `test05/tsunami-udp-packetloss(client-command.c)/client/command.c:475-493` | in every reachable state the marked blocks are the disjoint union of the blocks written and the blocks queued, each occurring once; blocks_left is the number of unmarked blocks; the "Negative-going" branch was never taken |
| `Transfer.NothingForgotten` | `test05/tsunami-udp-packetloss(client-command.c)/client/command.c:502-558` | in every reachable state each block below next_block is received or in the live table, unless the cap dropped a request since the table was last emptied by a restart or a terminate sweep began |
| `Transfer.RestartIsSafe` | `test05/tsunami-udp-packetloss(client-command.c)/client/protocol.c:353-378` | in every reachable state no restart request in flight lies beyond any missing block, and the range check of the server accepts every one of them |
| `Transfer.TableStaysBounded` | `test05/tsunami-udp-packetloss(client-command.c)/client/protocol.c:436-456` | in every reachable state index_max <= table_size <= max(initial size, 64 * MAX_RETRANSMISSION_BUFFER), and the sorting build keeps the table strictly increasing |
| `Transfer.PassInv` | `test05/tsunami-udp-packetloss(client-command.c)/client/command.c:455-616` | one pass of the receive loop, with or without feedback, over any datagram the server can have sent keeps the system invariant |
| `Transfer.FailedPassInv` | `test05/tsunami-udp-packetloss(client-command.c)/client/command.c:446-457` | a failed receive repeats the requests, falls through and processes the old buffer a second time, and still keeps the system invariant |
| `Transfer.ServerHandleInv` | `test05/tsunami-udp-packetloss(client-command.c)/server/main.c:296-334` | acting on any request a client can have queued keeps the system invariant |
| `Transfer.DiskWriteInv` | `test05/tsunami-udp-packetloss(client-command.c)/client/command.c:946-962` | writing the head of the ring keeps the system invariant: the block is right on disk and moves from queued to written |
| `Transfer.ReachableInv` | `test05/tsunami-udp-packetloss(client-command.c)/client/command.c:442-637` | the system invariant holds in every state that any run reaches |
| `TransferLiveness.CanAlwaysFinish` | `test05/tsunami-udp-packetloss(client-command.c)/client/command.c:442-637` | from every reachable state, whatever was lost, repeated or reordered before, a run without further loss, duplication or receive error first delivers what is in flight (or leaves the loop), then delivers everything at once and ends with the source on disk, provided the request buffer holds at least 3 entries (2 in the sorting build) or the file is a single block |
| `TransferLiveness.DeliverAll` | `test05/tsunami-udp-packetloss(client-command.c)/client/command.c:442-457` | everything in flight can be delivered, unless the loop is left before |
| `FairRuns.FairRunsFinish` | `test05/tsunami-udp-packetloss(client-command.c)/client/command.c:442-588` | from every reachable state of the loop with nothing in flight there is a length that no prompt run exceeds (requests taken up first, each datagram delivered before the next turn of the server, no feedback, the disk thread at any time), and a prompt run that cannot go on has left the loop |
| `FairRuns.NeverBlocked` | `test05/tsunami-udp-packetloss(client-command.c)/client/command.c:442-588` | inside the loop some prompt step is always possible |
| `FairRuns.ServerGetsAhead` | `test05/tsunami-udp-packetloss(client-command.c)/server/main.c:270-349` | one prompt turn of the server is one round of Progress, counted as if its datagram had arrived |
| `DeadStates.NoDeadStatesIff` | `test05/tsunami-udp-packetloss(client-command.c)/client/protocol.c:353-378` | every reachable state can still finish if and only if the request buffer has that size |
| `DeadStates.TooFewRequestsHang` | `test05/tsunami-udp-packetloss(client-command.c)/client/protocol.c:353-378` | with a smaller buffer every file of at least two blocks has a reachable state from which no run at all, whatever the channel and the threads do, leaves the receive loop |
| `DeadStates.StuckStep` | `test05/tsunami-udp-packetloss(client-command.c)/client/command.c:561-588` | that state, with the block before the last lost behind the server, is kept by every step |
| `DeadStates.FirstBlocks` | `test05/tsunami-udp-packetloss(client-command.c)/client/command.c:502-553` | the first k originals can arrive in order, leaving an empty table and nothing in flight |
| `TransferLiveness.RoundRun` | `test05/tsunami-udp-packetloss(client-command.c)/server/main.c:270-362` | one turn of the server loop with its datagram delivered and written is a run of system steps that does to the client, the counter and the back-channel what Progress.Round says and leaves everything else in flight alone |
| `TransferLiveness.LeaveLoop` | `test05/tsunami-udp-packetloss(client-command.c)/client/command.c:561-588` | the receive loop can be left from every state of the invariant with a drained ring |
| `TransferLiveness.CleanUp` | `test05/tsunami-udp-packetloss(client-command.c)/client/command.c:620-641` | behind the loop, stop request, stop block, disk thread and join always run to the end |
| `TransferLiveness.ServerStops` | `test05/tsunami-udp-packetloss(client-command.c)/server/main.c:296-334` | once the stop request is on its way, the server takes up what is queued and stops; it sends nothing more |
| `TransferLiveness.DrainRing` | `test05/tsunami-udp-packetloss(client-command.c)/client/command.c:944-966` | the disk thread alone empties the ring down to the stop block, leaving everything else as it was |
| `Progress.Finishes` | `test05/tsunami-udp-packetloss(client-command.c)/client/command.c:561-588` | from any state of the invariant some number of loss-free rounds ends the transfer |
| `Progress.TerminateRound` | `test05/tsunami-udp-packetloss(client-command.c)/client/command.c:561-588` | a terminate block ends the transfer, or asks for a missing block, or restarts at the first missing block, or empties a table of stale entries, the last only if the table was not empty |
| `Progress.DrainBack` | `test05/tsunami-udp-packetloss(client-command.c)/server/main.c:285-334` | the server works off its requests, and every block asked for is then received |
| `Progress.ReachLast` | `test05/tsunami-udp-packetloss(client-command.c)/server/main.c:340-341` | with no request waiting the server reaches the terminate block |
| `Progress.SweepOutcome` | `test05/tsunami-udp-packetloss(client-command.c)/client/command.c:579-587` | a sweep with blocks missing asks for a missing block, restarts, or clears the table; if all entries were missing blocks the last cannot happen |
| `Progress.RepairLap` | `test05/tsunami-udp-packetloss(client-command.c)/client/command.c:502-558` | after a restart at x, the originals behind it leave x as the only missing block and at most one copy of it in the table |
| `Progress.RepairSweep` | `test05/tsunami-udp-packetloss(client-command.c)/client/command.c:579-587` | at the end of that lap the sweep asks for x alone and does not restart again |
| `Progress.TakeRestart` | `test05/tsunami-udp-packetloss(client-command.c)/server/protocol.c:146-153` | a restart at B makes the server continue at B + 1: the client is left to repair B |
| `Progress.StuckReceive` | `test05/tsunami-udp-packetloss(client-command.c)/client/command.c:561-588` | with too small a buffer and the block before the last missing, no arrival changes that: the sweep restarts every time and asks for nothing else |
| `TransferClient.ReceiveInv` | `test05/tsunami-udp-packetloss(client-command.c)/client/command.c:470-588` | one pass keeps the client invariant; the block is queued exactly if it was missing and the ring had room; only acceptable requests are written; the loop is left only when every block has been received |
| `TransferClient.MarkReceivedInv` | `test05/tsunami-udp-packetloss(client-command.c)/client/command.c:485-492` | marking a missing block keeps the countdown equal to the number of missing blocks and finds blocks_left positive |
| `TransferClient.RequestRetransmitInv` | `test05/tsunami-udp-packetloss(client-command.c)/client/protocol.c:421-456` | a request remembers its block unless the cap drops it, which is recorded |
| `TransferClient.RequestRangeInv` | `test05/tsunami-udp-packetloss(client-command.c)/client/command.c:535-540` | queueing a gap remembers every missing block in front of it and changes nothing but the table |
| `TransferClient.AdvanceGaplessInv` | `test05/tsunami-udp-packetloss(client-command.c)/client/command.c:545-547` | the gapless index only grows, everything up to it has been received, and it stops in front of a missing block or at block_count |
| `TransferClient.RepeatRetransmitInv` | `test05/tsunami-udp-packetloss(client-command.c)/client/protocol.c:329-400` | compaction and restart keep the client invariant, change no bitmap, and send only requests for missing blocks or one restart that no missing block precedes |
| `TransferClient.SweepInv` | `test05/tsunami-udp-packetloss(client-command.c)/client/command.c:578-587` | the terminate sweep keeps the client invariant and sends only acceptable requests |
| `TransferClient.ActInv` | `test05/tsunami-udp-packetloss(client-command.c)/client/command.c:502-588` | the part of the pass behind the restart filter keeps the client invariant, and leaves the loop only with every block received |
| `TransferClient.MoveIndicesInv` | `test05/tsunami-udp-packetloss(client-command.c)/client/command.c:544-558` | moving the three indices keeps everything below next_block received or remembered |
| `TransferClient.NoneLeftMeansAll` | `test05/tsunami-udp-packetloss(client-command.c)/client/command.c:569-571` | blocks_left is 0 exactly when every block has been received |
| `TransferClient.EmptyFileGoesNegative` | `test05/tsunami-udp-packetloss(client-command.c)/client/command.c:487-492` | with no blocks at all the first terminate block runs into the "Negative-going" branch exactly if the ring has room |
| `TransferClient.FailedFirstReceive` | `test05/tsunami-udp-packetloss(client-command.c)/client/command.c:445-493` | a failed very first receive queues block 0, the stop block of the disk thread, and counts it off although nothing has arrived |
| `ReceiveLaws.IgnoredArrival` | `test05/tsunami-udp-packetloss(client-command.c)/client/command.c:469-470` | with a full ring, or for a known block outside a restart unless it is the terminate block, a pass changes nothing at all |
| `ReceiveLaws.FilteredArrival` | `test05/tsunami-udp-packetloss(client-command.c)/client/command.c:495-500` | while a restart is pending, an arrival of restart_lastidx+1..restart_wireclearidx that is not the terminate block is queued and marked if it was missing, and changes nothing else |
| `ReceiveLaws.ActedOnArrival` | `test05/tsunami-udp-packetloss(client-command.c)/client/command.c:502-558` | every other arrival before the terminate block: each missing block of next_block..b-1 is then in the table or its drop recorded, nothing else enters the table and nothing leaves it, the plain build appends in ascending order, only an original moves next_block (to b + 1), the gapless index stops at the first missing block, and a pending restart ends exactly when next_block has reached restart_lastidx |
| `ReceiveLaws.TerminateArrival` | `test05/tsunami-udp-packetloss(client-command.c)/client/command.c:561-588` | the terminate block ends the loop exactly when every block has been received; otherwise every missing block in front of it is asked for, or the transfer restarts behind the gapless section, or the cap dropped a request |
| `ReceiveLaws.AsksForAll` | `test05/tsunami-udp-packetloss(client-command.c)/client/protocol.c:329-400` | with fewer wanted blocks than the request buffer holds, each missing block of the table is asked for, once per entry, in the order of the table, stays in it, and nothing but the table changes |
| `ReceiveLaws.RestartLaw` | `test05/tsunami-udp-packetloss(client-command.c)/client/protocol.c:353-378` | otherwise a single restart goes out for the block behind the gapless section; restart_lastidx is the last live entry, restart_wireclearidx the on-wire estimate behind it or block_count (without wrap-around), the table is empty and next_block moves back |
| `ReceiveLaws.PassLaw` | `test05/tsunami-udp-packetloss(client-command.c)/client/command.c:455-616` | one pass with its feedback: the requests are repeated as above, or the transfer restarts, after the arrival has been taken in, and exactly the given loss rate is reported last; a pass without feedback, or one that leaves the loop, adds nothing; the ring gains the datagram exactly if it was new |
| `ReceiveLaws.FailedPassAsks` | `test05/tsunami-udp-packetloss(client-command.c)/client/command.c:446-457` | a failed receive repeats the requests, or restarts, and then takes the old datagram for a new one |
| `ReceiveLaws.RepeatIsServed` | `test05/tsunami-udp-packetloss(client-command.c)/server/main.c:296-334` | a request for a block, served and delivered: the block is received, and neither the counter of the server nor next_block moves |
| `RetransmitTable.AddMembers` | `test05/tsunami-udp-packetloss(client-command.c)/client/protocol.c:432-495` | a request adds exactly its block to the table, and nothing when the table is saturated |
| `RetransmitTable.AddKeepsValid` | `test05/tsunami-udp-packetloss(client-command.c)/client/protocol.c:436-495` | requests, including those that double the table, keep the size bounds and the order, and add at most one entry |
| `RetransmitTable.DroppedIff` | `test05/tsunami-udp-packetloss(client-command.c)/client/protocol.c:436-456` | a new block is dropped exactly when no slot is free and 32 * MAX_RETRANSMISSION_BUFFER entries are live; otherwise a full table doubles |
| `RetransmitTable.InsertSortedKeepsOrder` | `test05/tsunami-udp-packetloss(client-command.c)/util/insertsorttest.c:16-29` | sorted insertion keeps a strictly increasing table strictly increasing and grows it by one exactly if the block was new |
| `RetransmitTable.InsertSortedMembers` | `test05/tsunami-udp-packetloss(client-command.c)/client/protocol.c:474-494` | sorted insertion leaves exactly the old entries and the new one |
| `RetransmitTable.InsertSortedAt` | `test05/tsunami-udp-packetloss(client-command.c)/client/protocol.c:475-494` | the position the linear scan stops at determines the result: nothing for a duplicate, else the slots from there shift up by one |
| `RetransmitTable.WantedMembers` | `test05/tsunami-udp-packetloss(client-command.c)/client/protocol.c:330-350` | compaction keeps exactly the nonzero entries that have not been received |
| `RetransmitTable.WantedKeepsOrder` | `test05/tsunami-udp-packetloss(client-command.c)/client/protocol.c:330-350` | compaction keeps a strictly increasing table strictly increasing |
| `RetransmitTable.WantedAll` | `test05/tsunami-udp-packetloss(client-command.c)/client/protocol.c:330-350` | a table of missing blocks survives compaction untouched |
| `ReceiveLoop.MarkOne` | `test05/tsunami-udp-packetloss(client-command.c)/client/command.c:486` | or-ing one bit into its byte changes the answer for that block and no other |
| `ReceiveLoop.Bitmap.constructor` | `test05/tsunami-udp-packetloss(client-command.c)/client/command.c:404` | the cleared bitfield says that no block has been received |
| `ReceiveLoop.Bitmap.GotBlock` | `test05/tsunami-udp-packetloss(client-command.c)/client/command.c:1001-1006` | the byte and mask arithmetic answers membership in the set of marked blocks, and true behind block_count |
| `ReceiveLoop.Bitmap.Mark` | `test05/tsunami-udp-packetloss(client-command.c)/client/command.c:486` | setting the bit adds exactly this block to the marked set |
| `ReceiveLoop.Bitmap.EndOfGapless` | `test05/tsunami-udp-packetloss(client-command.c)/client/command.c:545-547` | the while loop computes ReceiveLoop.GaplessEnd |
| `ReceiveLoop.GaplessEndIs` | `test05/tsunami-udp-packetloss(client-command.c)/client/command.c:544-547` | that index is the one of TransferClient.AdvanceGapless |
| `ReceiveLoop.Bitmap.CountLost` | `test05/tsunami-udp-packetloss(client-command.c)/client/command.c:654-657` | the final count is the number of blocks of 1..block_count that are not marked |
| `ReceiveLoop.RequestTable.Grow` | `test05/tsunami-udp-packetloss(client-command.c)/client/protocol.c:444-451` | the table doubles and keeps its live slots |
| `ReceiveLoop.RequestTable.ShiftIn` | `test05/tsunami-udp-packetloss(client-command.c)/client/protocol.c:487-493` | the swap loop inserts the block at its position and moves every later slot up by one |
| `ReceiveLoop.RequestTable.InsertInOrder` | `test05/tsunami-udp-packetloss(client-command.c)/util/insertsorttest.c:16-29` | the array insertion computes sorted insertion on the live slots |
| `ReceiveLoop.RequestTable.Request` | `test05/tsunami-udp-packetloss(client-command.c)/client/protocol.c:436-495` | both builds of the array code compute RetransmitTable.Add, including the silent drop at the cap |
| `ReceiveLoop.RequestTable.Keep` | `test05/tsunami-udp-packetloss(client-command.c)/client/protocol.c:332-349` | an entry is moved down exactly if it is nonzero and not received, and nothing behind it changes |
| `ReceiveLoop.RequestTable.CompactLoop` | `test05/tsunami-udp-packetloss(client-command.c)/client/protocol.c:329-350` | the loop leaves the wanted entries of the scanned part in order in front, with their requests |
| `ReceiveLoop.RequestTable.Compact` | `test05/tsunami-udp-packetloss(client-command.c)/client/protocol.c:329-350` | in-place compaction leaves exactly the wanted entries in order and prepares their requests; stopped by a full buffer it leaves the last live slot as it was |
| `ReceiveLoop.Session.constructor` | `test05/tsunami-udp-packetloss(client-command.c)/client/command.c:398-427` | a new session is the initial client state |
| `ReceiveLoop.Session.MarkBlock` | `test05/tsunami-udp-packetloss(client-command.c)/client/command.c:485-492` | bit and countdown change together as in TransferClient.MarkReceived |
| `ReceiveLoop.Session.Request` | `test05/tsunami-udp-packetloss(client-command.c)/client/protocol.c:421-499` | the array code computes TransferClient.RequestRetransmit |
| `ReceiveLoop.Session.RequestAll` | `test05/tsunami-udp-packetloss(client-command.c)/client/command.c:535-540` | the for loop computes TransferClient.RequestRange |
| `ReceiveLoop.Session.Repeat` | `test05/tsunami-udp-packetloss(client-command.c)/client/protocol.c:310-412` | state and requests are those of TransferClient.RepeatRetransmit, with the last table entry read after the compaction |
| `ReceiveLoop.Session.Advance` | `test05/tsunami-udp-packetloss(client-command.c)/client/command.c:544-547` | the index moves as in TransferClient.AdvanceGapless |
| `ReceiveLoop.Session.Move` | `test05/tsunami-udp-packetloss(client-command.c)/client/command.c:544-558` | the three indices move as in TransferClient.MoveIndices |
| `ReceiveLoop.Session.QueueGap` | `test05/tsunami-udp-packetloss(client-command.c)/client/command.c:503-542` | the gap is queued as in TransferClient.QueueMissing |
| `ReceiveLoop.Session.QueueTail` | `test05/tsunami-udp-packetloss(client-command.c)/client/command.c:578-584` | the run of requests of the sweep computes TransferClient.RequestRange from the gapless index on |
| `ReceiveLoop.Session.SweepMissing` | `test05/tsunami-udp-packetloss(client-command.c)/client/command.c:578-587` | sweep and repeated requests are those of TransferClient.Sweep |
| `ReceiveLoop.Session.Handle` | `test05/tsunami-udp-packetloss(client-command.c)/client/command.c:502-588` | state, requests and the break are those of TransferClient.Act |
| `ReceiveLoop.Session.ReceiveBlock` | `test05/tsunami-udp-packetloss(client-command.c)/client/command.c:469-590` | state, queueing, requests and the break are those of TransferClient.Receive, for every datagram and every state |
| `ClientThreads.NetworkThread.constructor` | `test05/tsunami-udp-packetloss(client-command.c)/client/command.c:398-427` | bitmap, table and ring start as the initial state of the transition system |
| `ClientThreads.NetworkThread.Enqueue` | `test05/tsunami-udp-packetloss(client-command.c)/client/command.c:477-483` | reserve, copy and confirm append the datagram to what the ring holds |
| `ClientThreads.NetworkThread.TakeIn` | `test05/tsunami-udp-packetloss(client-command.c)/client/command.c:469-590` | bitmap, table and ring together compute TransferClient.Receive, and the ring gains the datagram exactly if it is new |
| `ClientThreads.NetworkThread.SendFeedback` | `test05/tsunami-udp-packetloss(client-command.c)/client/command.c:594-616` | the feedback computes Transfer.Feedback and leaves the ring alone |
| `ClientThreads.NetworkThread.ReceivePass` | `test05/tsunami-udp-packetloss(client-command.c)/client/command.c:455-616` | one pass over the real objects is one pass of the transition system: client state, queue, requests and the break agree with Transfer.Pass |
| `ClientThreads.DiskThread.WriteHead` | `test05/tsunami-udp-packetloss(client-command.c)/client/command.c:946-965` | one turn writes and pops the head of the ring, and only looks at it if it is the stop block |
| `ClientThreads.DiskThread.Run` | `test05/tsunami-udp-packetloss(client-command.c)/client/command.c:935-967` | the thread writes the blocks in front of the first stop block in order, pops exactly those, and stops exactly if there is a stop block |
| `ClientThreads.DiskRuns` | `test05/tsunami-udp-packetloss(client-command.c)/client/command.c:944-966` | that is a run of the write and pop steps of the transition system |
| `Ring.StepRefinesQueue` | `test05/tsunami-udp-packetloss(client-command.c)/client/ring.c:84-438` | every step of either thread is a step of a bounded first-in-first-out queue; the consumer reads the head; data_ready and space_ready say exactly whether there is data and space |
| `Ring.StepInv` | `test05/tsunami-udp-packetloss(client-command.c)/client/ring.c:84-438` | every interleaving of mutex sections, waits and slot copies keeps the ring invariant |
| `Ring.DeliveredInOrder` | `test05/tsunami-udp-packetloss(client-command.c)/client/ring.c:309-438` | in every interleaving what was popped is a prefix of what was confirmed, at most N behind it, and none of the error exits is taken |
| `Ring.NotFullMeansNoWait` | `test05/tsunami-udp-packetloss(client-command.c)/client/ring.c:84-102` | after ring_full has said no, whatever the consumer does meanwhile, the next reservation does not wait |
| `Ring.ItemGoesIn` | `test05/tsunami-udp-packetloss(client-command.c)/client/ring.c:144-429` | with space, reserve, copy and confirm bring an item from a ready producer to the end of the queue |
| `Ring.ErrorExits` | `test05/tsunami-udp-packetloss(client-command.c)/client/ring.c:119-426` | the error exits are a second reservation, and a confirmation or a cancel without one |
| `Ring.ReservedSlotIsFree` | `test05/tsunami-udp-packetloss(client-command.c)/client/ring.c:410-429` | the reserved slot is none of the slots that hold unpopped data |
| `Ring.TakeInv` | `test05/tsunami-udp-packetloss(client-command.c)/client/ring.c:411-426` | the slot computed before the wait is still right after it, and space_ready is cleared exactly when the ring is full |
| `Ring.FillContents` | `test05/tsunami-udp-packetloss(client-command.c)/client/command.c:479` | copying into the reserved slot leaves the queued data alone |
| `Ring.ConfirmContents` | `test05/tsunami-udp-packetloss(client-command.c)/client/ring.c:155-161` | a confirmation appends the reserved slot to the contents |
| `Ring.PopContents` | `test05/tsunami-udp-packetloss(client-command.c)/client/ring.c:370-376` | a pop removes the head and leaves the slot that the producer computed |
| `Ring.RingBuffer.constructor` | `test05/tsunami-udp-packetloss(client-command.c)/client/ring.c:184-224` | a new ring is the start state |
| `Ring.RingBuffer.Full` | `test05/tsunami-udp-packetloss(client-command.c)/client/ring.c:84-102` | the answer is whether data and reservations together fill the ring |
| `Ring.RingBuffer.TakeSlot` | `test05/tsunami-udp-packetloss(client-command.c)/client/ring.c:422-426` | the reservation computes Ring.Reserve and keeps the flags exact |
| `Ring.RingBuffer.FillSlot` | `test05/tsunami-udp-packetloss(client-command.c)/client/command.c:479` | the copy leaves the contents as they are |
| `Ring.RingBuffer.ConfirmReserved` | `test05/tsunami-udp-packetloss(client-command.c)/client/ring.c:155-161` | the confirmation appends the reserved slot to the contents |
| `Ring.RingBuffer.CancelReserved` | `test05/tsunami-udp-packetloss(client-command.c)/client/ring.c:119-124` | a cancelled reservation leaves the contents as they are |
| `Ring.RingBuffer.PeekHead` | `test05/tsunami-udp-packetloss(client-command.c)/client/ring.c:321-331` | the slot handed out holds the oldest unpopped item |
| `Ring.RingBuffer.PopHead` | `test05/tsunami-udp-packetloss(client-command.c)/client/ring.c:370-376` | the pop removes the oldest item and nothing else |
| `BlockFile.BlockReader.Build` | `test05/tsunami-udp-packetloss(client-command.c)/server/main.c:339-346` | build_datagram (server/io.c, lines 99-115): skipping the seek when the block follows the last one reads the same bytes as seeking |
| `BlockFile.ReadBlockCarries` | `test05/tsunami-udp-packetloss(client-command.c)/server/protocol.c:156-163` | build_datagram (server/io.c, lines 99-104): the datagram of any block carries exactly the bytes of that block, whatever the buffer held before |
| `BlockFile.LastBlockEnds` | `test05/tsunami-udp-packetloss(client-command.c)/server/protocol.c:663` | the block count is at least 1 for a nonempty file and the last block ends where the file ends |
| `BlockFile.AcceptBlockPlaces` | `test05/tsunami-udp-packetloss(client-command.c)/client/command.c:957-962` | accept_block (client/io.c, lines 82-111): writing a block puts it in its place, damages no other block already there and never outgrows the source |
| `BlockFile.AllBlocksGiveSource` | `test05/tsunami-udp-packetloss(client-command.c)/server/protocol.c:647-669` | a file with every block in place and no longer than the source is the source |
| `ServerLoop.SendLoop.SendNext` | `test05/tsunami-udp-packetloss(client-command.c)/server/main.c:339-349` | a turn without a request sends the datagram of Transfer.ServerSends: the next block, the last one as terminate |
| `ServerLoop.SendLoop.HandleRequest` | `test05/tsunami-udp-packetloss(client-command.c)/server/main.c:296-334` | a complete request does what Transfer.ServerHandles says, a retransmission goes out at once, and only an error report changes the delay |
| `RequestFraming.RequestRoundTrip` | `test05/tsunami-udp-packetloss(client-command.c)/client/protocol.c:342-358` | every request the client can lay out in network byte order is read back as itself |
| `RequestFraming.RecordBytes` | `test05/tsunami-udp-packetloss(client-command.c)/client/protocol.c:342-358` | the twelve bytes of every record: 16-bit type 0 to 3, padding, block and error rate, most significant bytes first |
| `RequestFraming.RecordOfEncodeAll` | `test05/tsunami-udp-packetloss(client-command.c)/client/protocol.c:392-394` | the k-th fixed-size record of the stream is the k-th request |
| `RequestFraming.Reassembler.Read` | `test05/tsunami-udp-packetloss(client-command.c)/server/main.c:285-294` | a read of any length continues the partial record |
| `RequestFraming.Reassembler.Serve` | `test05/tsunami-udp-packetloss(client-command.c)/server/main.c:284-362` | however reads cut the stream and however blocks are sent in between, the records acted upon are the consecutive records of the stream in order, handling ends at the first stop record, and the "too long" branch is dead |
| `RequestFraming.Reassembler.ServeRequests` | `test05/tsunami-udp-packetloss(client-command.c)/server/main.c:284-362` | requests written by the client are handled one by one in order, however TCP cuts them |
| `RequestFraming.HeartbeatHarmlessIff` | `test05/tsunami-udp-packetloss(client-command.c)/server/main.c:374-380` | when the heartbeat branch overwrites a partly read record, the request survives if and only if at most one byte had arrived, or it was an error report itself and no byte of the rate that had arrived differs; otherwise an error report takes its place |
| `RateControl.ServerSession.constructor` | `test05/tsunami-udp-packetloss(client-command.c)/server/protocol.c:678-679` | the delay starts at three times the target |
| `RateControl.ServerSession.AcceptRetransmit` | `test05/tsunami-udp-packetloss(client-command.c)/server/protocol.c:102-180` | an error report changes the delay alone, a restart in range the counter alone, a retransmission request neither; a restart out of range is refused |
| `RateControl.DelayBounds` | `test05/tsunami-udp-packetloss(client-command.c)/server/protocol.c:117-129` | over every sequence of reports the delay stays between the target and max(10000, 3 * target) |
| `RateControl.SlowerGrows` | `test05/tsunami-udp-packetloss(client-command.c)/server/protocol.c:119-123` | with a slow-down fraction of at least 1, a report above the threshold multiplies the delay by at least 1 and by no less the higher the loss; with a fraction above 1, by more than 1 and strictly by more the higher the loss |
| `RateControl.EachUnitAddsTheSame` | `test05/tsunami-udp-packetloss(client-command.c)/server/protocol.c:121-123` | each further unit of loss adds the same amount to the factor, (num/den - 1) / (100000 - threshold); with FullSlowdownAt this fixes every value |
| `RateControl.LossLengthens` | `test05/tsunami-udp-packetloss(client-command.c)/server/protocol.c:119-129` | one report above the threshold, just above it included, lengthens every delay below the cap, and by exactly that factor where neither bound cuts it off |
| `RateControl.FullSlowdownAt` | `test05/tsunami-udp-packetloss(client-command.c)/server/protocol.c:121-122` | the whole fraction is applied at a report of 99999, one short of total loss |
| `RateControl.QuietExactly` | `test05/tsunami-udp-packetloss(client-command.c)/server/protocol.c:124-129` | after a clamped update, any k reports at or below the threshold give exactly max(target, min(10000, x * (num/den)^k)), for every speed-up fraction |
| `RateControl.QuietReachesIff` | `test05/tsunami-udp-packetloss(client-command.c)/server/protocol.c:124-129` | a raised delay is back at the target after some number of reports at or below the threshold, whatever they are, if and only if num < den and the target is positive or num is 0 |
| `SegmentedDownload.TilesIff` | `test04/client/axel-2.4-packetloss(axel.c)/axel.c:580-594` | the ranges for n >= 1 connections lie inside the file and cover each byte exactly once if and only if n <= 2 or size/n + size%n >= n - 2 |
| `SegmentedDownload.NoRoomSticksOut` | `test04/client/axel-2.4-packetloss(axel.c)/axel.c:586-594` | otherwise the segment before the last reaches past the end of the file |
| `SegmentedDownload.DivideChained` | `test04/client/axel-2.4-packetloss(axel.c)/axel.c:580-594` | for any number of connections each segment starts where the one before it ends, and the last ends with the file, though it may start behind it |
| `SegmentedDownload.DivideExact` | `test04/client/axel-2.4-packetloss(axel.c)/axel.c:580-594` | with room no segment starts behind the end of the file |
| `SegmentedDownload.SixteenForFive` | `test04/client/axel-2.4-packetloss(axel.c)/axel.c:580-594` | 16 connections do not tile a file of 5 bytes |
| `SegmentedDownload.ReadMoves` | `test04/client/axel-2.4-packetloss(axel.c)/axel.c:350-372` | a read moves its cursor by what it writes, never past the end of the segment or of the file, and writes source bytes at the cursor |
| `SegmentedDownload.HandleReadInv` | `test04/client/axel-2.4-packetloss(axel.c)/axel.c:313-373` | a short, exact or over-long read keeps the run invariant |
| `SegmentedDownload.PassInv` | `test04/client/axel-2.4-packetloss(axel.c)/axel.c:265-452` | one call of axel_do keeps the run invariant through reads, errors, closed and timed-out connections and reconnects, and never takes the write-error exit |
| `SegmentedDownload.SetupDoneInv` | `test04/client/axel-2.4-packetloss(axel.c)/axel.c:530-554` | a setup thread that ends, with or without a connection, keeps the run invariant |
| `SegmentedDownload.CompleteIsCorrect` | `test04/client/axel-2.4-packetloss(axel.c)/axel.c:449-450` | when bytes_done equals the size, every byte of the source is on disk, whether or not the segments tile the file |
| `SegmentedDownload.StepInv` | `test04/client/axel-2.4-packetloss(axel.c)/axel.c:265-452` | every step, also the end of a setup thread in the middle of a call, keeps the run invariant, only advances cursors and leaves what lies behind the end of the file |
| `SegmentedDownload.CheckInv` | `test04/client/axel-2.4-packetloss(axel.c)/axel.c:391-428` | the check of one connection keeps the run invariant |
| `SegmentedDownload.CallIsItsParts` | `test04/client/axel-2.4-packetloss(axel.c)/axel.c:309-450` | a whole call of axel_do is the run of its parts, one connection at a time |
| `SegmentedDownload.CompleteRun` | `test04/client/axel-2.4-packetloss(axel.c)/axel.c:137-452` | every run, for any number of connections and with setup threads ending also in the middle of calls, that reports completion has written the source, followed only by what a longer old file held behind it |
| `Reconnect.CallLaw` | `test04/client/axel-2.4-packetloss(axel.c)/axel.c:309-450` | every connection behind a call of axel_do that meets no write error: one that is down with more than one byte left is in setup, unless its setup thread has just been given up as late; one that is cut off in this call is set up at once; open connections and those with at most one byte left keep their flags |
| `Reconnect.HandleLaw` | `test04/client/axel-2.4-packetloss(axel.c)/axel.c:309-384` | an error, a time-out or the end of the stream closes an open connection; a read moves its cursor by every byte that is there and wanted, puts these bytes on disk, and closes the connection exactly when there was none or one too many |
| `Reconnect.SetupLaw` | `test04/client/axel-2.4-packetloss(axel.c)/axel.c:530-554` | a setup thread that ends is over, and with a connection it asks for the bytes from the cursor on |
| `Reconnect.OverrunFails` | `test04/client/axel-2.4-packetloss(axel.c)/axel.c:350-370` | a read on a connection whose cursor is beyond its segment is the write error: the download fails and nothing moves |
| `Reconnect.CanCompleteIff` | `test04/client/axel-2.4-packetloss(axel.c)/axel.c:391-450` | from every state that any run reaches, some run completes the download if and only if no connection is down, outside setup, with exactly one byte left |
| `Reconnect.OneByteLeftInput` | `test04/client/axel-2.4-packetloss(axel.c)/axel.c:393` | two bytes over one connection that is closed after the first: reached from a fresh start, and no run completes it |
| `ResumeState.ResumeRestores` | `test04/client/axel-2.4-packetloss(axel.c)/axel.c:159-182` | any earlier state file of the download restores connection count, cursors and bytes_done and re-establishes the run invariant, even though the output holds later bytes |
| `ResumeState.TornStateIff` | `test04/client/axel-2.4-packetloss(axel.c)/axel.c:515-526` | a state file cut off after any word, the truncated empty one included, re-establishes the run invariant if and only if at most the connection count was written or the connections whose cursors are missing had fetched nothing |
| `TornState.HarmlessIff` | `test04/client/axel-2.4-packetloss(axel.c)/axel.c:515-526` | a cut state file is harmless if and only if no run of the resumed download reports completion before every cursor is at its end |
| `TornState.FetchUntilTotal` | `test04/client/axel-2.4-packetloss(axel.c)/axel.c:449-450` | a download whose total counts too much reports completion after fetching byte after byte up to the size |
| `TornState.OneFetchedIsReached` | `test04/client/axel-2.4-packetloss(axel.c)/axel.c:218-452` | the download of the input below, 4 bytes over 2 connections with one byte fetched, is reached from a fresh start |
| `TornState.TornStateInput` | `test04/client/axel-2.4-packetloss(axel.c)/axel.c:515-526` | its state file, cut after 3 words, holds 2, 1, 0, and the download resumed from it reports completion with 3 of the 4 bytes in the file |
| `ResumeState.ResumeEmpty` | `test04/client/axel-2.4-packetloss(axel.c)/axel.c:159-187` | an empty state file means a fresh start with the configured number of connections |
| `ResumeState.CrashAndResume` | `test04/client/axel-2.4-packetloss(axel.c)/axel.c:137-216` | a download that is saved, cut off while saving (harmlessly), crashed and started again any number of times, also twice from the same state file and with another configured number of connections, completes only with the right file |
| `ResumeState.StartAgainInv` | `test04/client/axel-2.4-packetloss(axel.c)/axel.c:159-182` | starting again from the state file keeps the invariant of download and state file |
| `ResumeState.ResumeAdvances` | `test04/client/axel-2.4-packetloss(axel.c)/axel.c:159-182` | the resumed download has not fallen behind the moment at which its state file was written |
| `DownloadLoop.Axel.DivideFile` | `test04/client/axel-2.4-packetloss(axel.c)/axel.c:580-594` | the loop over the connections computes the ranges of SegmentedDownload.Divide |
| `DownloadLoop.Axel.Restore` | `test04/client/axel-2.4-packetloss(axel.c)/axel.c:169-257` | the cursors that can be read replace the segment starts, and a connection is set up exactly if it has something to fetch |
| `DownloadLoop.Axel.Open` | `test04/client/axel-2.4-packetloss(axel.c)/axel.c:159-182` | opening with a state file, complete, cut short or empty, and starting gives ResumeState.Resume |
| `DownloadLoop.Axel.HandleConnection` | `test04/client/axel-2.4-packetloss(axel.c)/axel.c:310-384` | the handling of one connection computes SegmentedDownload.Handle |
| `DownloadLoop.Axel.Do` | `test04/client/axel-2.4-packetloss(axel.c)/axel.c:309-450` | one call computes SegmentedDownload.Pass, the early exit included |
| `MirrorSearch.Search.CountKnown` | `test04/client/axel-2.4-packetloss(axel.c)/search.c:170-176` | the first loop establishes the accounts for speeds >= 0 |
| `MirrorSearch.Search.Set` | `test04/client/axel-2.4-packetloss(axel.c)/search.c:180-221` | an entry that changes its status changes the accounts by exactly that |
| `MirrorSearch.Search.Worker` | `test04/client/axel-2.4-packetloss(axel.c)/search.c:231-258` | a report of a worker keeps the accounts and counts only while the worker is active |
| `MirrorSearch.Search.Act` | `test04/client/axel-2.4-packetloss(axel.c)/search.c:182-220` | the branch taken for an entry changes it as MirrorSearch.After says and keeps the accounts and the bound on workers |
| `MirrorSearch.Search.Scan` | `test04/client/axel-2.4-packetloss(axel.c)/search.c:180-225` | with reports arriving before any look at an entry, one scan handles the first entry that is seen with something to do and no other, and keeps the accounts |
| `MirrorSearch.Search.GetSpeeds` | `test04/client/axel-2.4-packetloss(axel.c)/search.c:166-229` | for every interleaving of any number of reports and time-outs with the looks of the scheduler: on return the result is the number of entries with positive speed and no speed is 0; known speeds are kept; an entry that had none has either 1 + the speed of a successful report about it, or is done and a failure was reported about it or its time ran out; the search is finished exactly after two acting scans for each entry to be measured |
| `MirrorSearch.FirstReportDecides` | `test04/client/axel-2.4-packetloss(axel.c)/search.c:231-258` | the first report about an entry with an active worker decides it: 1 + the measured speed, or an error |
| `MirrorSearch.Unheard` | `test04/client/axel-2.4-packetloss(axel.c)/search.c:231-258` | reports change nothing for an entry without an active worker or without a report of its own |
| `MirrorSearch.PassedIff` | `test04/client/axel-2.4-packetloss(axel.c)/search.c:182-220` | the scheduler passes over an entry exactly when it is accounted for, or its worker is at work and in time, or it is idle and all threads are in use |
| `MirrorSearch.HandledEntry` | `test04/client/axel-2.4-packetloss(axel.c)/search.c:182-220` | otherwise an idle entry gets a worker, and a busy one is accounted for with its speed, or as done |
| `MirrorSearch.CompareTurns` | `test04/client/axel-2.4-packetloss(axel.c)/search.c:279-289` | the comparator is antisymmetric, calls only equal speeds equal, and puts usable before useless and smaller before larger of a kind |
| `MirrorSearch.CountsAddUp` | `test04/client/axel-2.4-packetloss(axel.c)/search.c:166-229` | idle, running and finished entries add up to the number of entries |
| `MirrorSearch.OrderOnIff` | `test04/client/axel-2.4-packetloss(axel.c)/search.c:279-289` | the comparator is transitive on a list exactly if the list does not hold a zero beside both a negative and a positive speed |
| `MirrorSearch.UsableFirst` | `test04/client/axel-2.4-packetloss(axel.c)/search.c:274-289` | whatever order qsort produces after a finished search, exactly the usable mirrors come first, in ascending order |
| `UrlCodec.RoundTripIff` | `test04/client/axel-2.4-packetloss(axel.c)/conn.c:31-163` | for every accepted URL whose record prints within the buffer, printing it and parsing it again is accepted and gives the same record if and only if its login is printed or is the default; every other field always survives |
| `UrlCodec.TooLongToPrint` | `test04/client/axel-2.4-packetloss(axel.c)/conn.c:148-163` | an accepted URL whose record does not fit the print buffer |
| `UrlCodec.Conn.PrintInto` | `test04/client/axel-2.4-packetloss(axel.c)/conn.c:31-163` | the two methods run one after the other give an equal record exactly if the login survives |
| `UrlCodec.LoginSurvivesIff` | `test04/client/axel-2.4-packetloss(axel.c)/conn.c:86-116` | told from the URL: the login survives if and only if there is none, its user is neither empty nor "anonymous", or it spells out the default |
| `UrlCodec.AnonymousPasswordIsLost` | `test04/client/axel-2.4-packetloss(axel.c)/conn.c:155-157` | an explicit "anonymous" with a password of its own, as in ftp://anonymous:me@h/f, is accepted and does not survive |
| `UrlCodec.ReparseIff` | `test04/client/axel-2.4-packetloss(axel.c)/conn.c:148-163` | the same for any record whose host, login and path have the shape that parsing produces |
| `UrlCodec.ParsedIsGood` | `test04/client/axel-2.4-packetloss(axel.c)/conn.c:55-115` | a parsed record has no separator inside host, user or password and its path splits again as it was split |
| `UrlCodec.PortRoundTrip` | `test04/client/axel-2.4-packetloss(axel.c)/conn.c:121` | a positive port printed in decimal scans as itself |
| `UrlText.ParseText` | `test04/client/axel-2.4-packetloss(axel.c)/conn.c:31-145` | the record of every URL put together from a scheme, an optional login, a host, an optional port, a directory, a name and a query: each field holds exactly its own text, a query may hold any slash and a password any at-sign or colon, what is missing is filled in (21, 80 or the service port; anonymous), and only an HTTP path is encoded |
| `UrlText.ParseBareText` | `test04/client/axel-2.4-packetloss(axel.c)/conn.c:55-58` | with nothing behind the authority the directory is "/" and the file is empty |
| `UrlText.CutFile` | `test04/client/axel-2.4-packetloss(axel.c)/conn.c:68-84` | a path is cut behind the last slash in front of the query |
| `UrlText.PlainUrl` | `test04/client/axel-2.4-packetloss(axel.c)/conn.c:31-145` | for instance http://h/a?x=b/c has directory "/" and file "a?x=b/c" |
| `UrlText.UnsignedNumeral` | `test04/client/axel-2.4-packetloss(axel.c)/conn.c:121` | a port is decimal, octal behind 0 or hexadecimal behind 0x, and counts up to the first character that is no digit of that base |
| `UrlText.SignedNumeral` | `test04/client/axel-2.4-packetloss(axel.c)/conn.c:121` | white space in front is skipped and a sign is taken |
| `UrlText.NoNumber` | `test04/client/axel-2.4-packetloss(axel.c)/conn.c:121` | without a decimal digit behind them there is no number |
| `UrlText.PortIsScanned` | `test04/client/axel-2.4-packetloss(axel.c)/conn.c:117-121` | a port text that is no number leaves the old port in the record |
| `UrlText.NoProtocol` | `test04/client/axel-2.4-packetloss(axel.c)/conn.c:37-41` | without "://" the protocol is FTP |
| `UrlText.ProtocolAt` | `test04/client/axel-2.4-packetloss(axel.c)/conn.c:42-53` | in front of the first "://" the first letter decides, and any but f and h is refused |
| `UrlCodec.Conn.SplitHost` | `test04/client/axel-2.4-packetloss(axel.c)/conn.c:55-67` | host field and encoded path are those of the parsing function |
| `UrlCodec.Conn.SplitFile` | `test04/client/axel-2.4-packetloss(axel.c)/conn.c:68-84` | the path is cut behind the last slash in front of the query |
| `UrlCodec.Conn.SplitLogin` | `test04/client/axel-2.4-packetloss(axel.c)/conn.c:86-116` | user and password are cut at the last at-sign and the first colon, or are the defaults |
| `UrlCodec.Conn.SplitPort` | `test04/client/axel-2.4-packetloss(axel.c)/conn.c:117-142` | the port is the one in the URL or the default; a number that does not scan leaves the old port |
| `UrlCodec.Conn.Set` | `test04/client/axel-2.4-packetloss(axel.c)/conn.c:31-145` | the in-place parser computes UrlCodec.Parse and accepts exactly known protocols with a positive port |
| `UrlCodec.Conn.Text` | `test04/client/axel-2.4-packetloss(axel.c)/conn.c:148-163` | the printer computes UrlCodec.Print for a record that fits the buffer |
| `PercentCoding.EncodeWithinIsPrefix` | `final/client/ServerSide/http.c:213-231` | the bounded encoding fits its room, is the full encoding of a prefix of the input, so no "%20" is cut, and stops only where the next unit does not fit |
| `PercentCoding.EncodeIsFullIff` | `final/client/ServerSide/http.c:208-235` | the result is a prefix of the full encoding of at most MAX_STRING - 1 characters, and the full encoding exactly if that fits |
| `PercentCoding.EncodeIdempotent` | `final/client/ServerSide/http.c:208-235` | encoding twice is encoding once, and no space is left |
| `PercentCoding.HttpEncode` | `final/client/ServerSide/http.c:208-235` | the loop over the fixed buffer computes the bounded encoding |
| `PercentCoding.HttpDecode` | `final/client/ServerSide/http.c:188-206` | the loop computes the decoding, cut at a decoded NUL, wherever the C behaviour is defined |
| `PercentCoding.RoundTripIff` | `final/client/ServerSide/http.c:188-235` | for every string whose encoding fits, decoding the encoding gives the string back if and only if no "%" of it stands in front of a hexadecimal digit |
| `PercentCoding.EscapeIsLost` | `final/client/ServerSide/http.c:188-235` | "%41" comes back as "A" |
| `PercentCoding.EscapeDecodes` | `final/client/ServerSide/http.c:196-202` | a "%" with two hexadecimal digits, of either case, decodes to the character they number |
| `PercentCoding.ShortEscapeDecodes` | `final/client/ServerSide/http.c:196-202` | with a single digit that digit is converted alone and the character behind it is skipped |
| `PercentCoding.PercentStays` | `final/client/ServerSide/http.c:196-202` | a "%" in front of anything else stays |
| `PercentCoding.RoundTripWithoutPercent` | `final/client/ServerSide/http.c:188-235` | the decoding of the full encoding of a string without "%" is defined and is that string |
| `BasicAuth.GroupRoundTrip` | `final/server/microhttpd/microhttpd/base64.c:42-52` | one group decodes to the bytes it was made of, and decoding goes on exactly behind a full group |
| `BasicAuth.Alphabet` | `final/client/ServerSide/http.c:49-57` | the 64 digits are those of section 4 of RFC 4648, in order |
| `BasicAuth.OnlyDigits` | `final/server/microhttpd/microhttpd/base64.c:11-24` | the table of the decoder is the inverse of the digits, marks the padding, and counts every other character as zero |
| `BasicAuth.Base64RoundTrip` | `final/client/ServerSide/http.c:49-57` | decoding the encoding of any string without NUL gives the string back, and the encoding is a whole number of groups |
| `BasicAuth.Connection.constructor` | `final/client/ServerSide/ServerSide.c:24` | a new connection record holds no text |
| `BasicAuth.Connection.WriteDigits` | `final/client/ServerSide/http.c:49-57` | the loop writes the encoding of the credentials into the front of the field and leaves the rest of it as it was |
| `BasicAuth.Connection.Connect` | `final/client/ServerSide/http.c:41-58` | the field then holds the encoding followed by what earlier connects left behind it, or starts with NUL for an empty user |
| `BasicAuth.Connection.AddLine` | `final/client/ServerSide/http.c:94-105` | a header line is cut to 1020 characters, ended, and appended as far as the request has room |
| `BasicAuth.Connection.AddAuthorization` | `final/client/ServerSide/http.c:83-84` | the line with the text of the field is added exactly if the field is not empty |
| `BasicAuth.Connection.Finish` | `final/client/ServerSide/http.c:107-117` | the remaining lines and the blank one are added |
| `BasicAuth.ArrivesIff` | `final/client/ServerSide/http.c:94-117` | nothing is cut off, so that the request is complete, exactly if all lines together fit the buffer |
| `BasicAuth.ReadBack` | `final/client/ServerSide/http.c:94-105` | a line whose end found room is read back as far as it was kept |
| `BasicAuth.ServeLine` | `final/client/ServerSide/http.c:94-117` | a text of whole groups is decoded by the server exactly if its line is sent uncut and the whole request fits |
| `BasicAuth.Decode` | `final/server/microhttpd/microhttpd/base64.c:27-56` | the pointer loop computes the decoding, or fails for a length that is no multiple of 4 |
| `BasicAuth.UserAndPassword` | `final/server/microhttpd/microhttpd/basicauth.c:46-104` | a result needs the "Basic " prefix, a decodable rest and a colon in it, and is the text in front of and behind the first colon |
| `BasicAuth.SplitIff` | `final/server/microhttpd/microhttpd/basicauth.c:71-88` | splitting user:pass and something added at the first colon gives user and password back exactly if the user has no colon and nothing is added |
| `BasicAuth.StoreKeeps` | `final/client/ServerSide/http.c:41-58` | after any connects the field consists of whole groups followed by zeros |
| `BasicAuth.NoUserNoLine` | `final/client/ServerSide/http.c:41-44` | an empty user sends no line, whatever the record held before |
| `BasicAuth.RecoverIff` | `final/server/microhttpd/microhttpd/basicauth.c:46-104` | on a connection record with any past and in a request with any other lines, the server recovers user and password if and only if the user has no colon, nothing is left behind the new text or the length of user:pass is no multiple of 3, the text with what is left has at most 999 characters, and the request fits its buffer |
| `BasicAuth.LongPasswordIsLost` | `final/client/ServerSide/http.c:83-105` | a user of one and a password of 748 characters on a fresh record: 1000 digits, of which 999 are sent, and the server recovers nothing |
| `BasicAuth.RedirectAddsToPassword` | `final/client/ServerSide/conn.c:292-319` | after a redirect from longer credentials to shorter ones without padding, the server takes the end of the first credentials for a part of the second password if the longer text is sent whole, and recovers nothing otherwise |
| `BasicAuth.RedirectInput` | `final/client/ServerSide/conn.c:292-319` | from alice:longpw to bob:abcde the server reads the password abcdegpw, and likewise for all credentials of these lengths |
| `BasicAuth.RoundTrip` | `final/server/microhttpd/microhttpd/basicauth.c:46-104` | the methods of both programs, run one after the other on a used record, recover the credentials under exactly that condition |

## Left out

- Lossy and semi-lossy modes: they overwrite `gapless_to_block` on purpose, so the received-prefix invariant is lost.
- Sockets, `select`, host lookup, FTP and HTTP exchanges, file opening, allocation failures: environment steps, or not modelled.
- Authentication, option and configuration parsing, transcripts, statistics, block maps and progress display: no state the protocol depends on.
- The random drops at `client/command.c:255` and `axel.c:268`: they skip a whole call, which changes no state.
- Heartbeat of the server: the time-out exit and the extra delay step; its effect on a partly read request is `HeartbeatHarmlessIff`.
- Requests for block 0 and requests of unknown type at the server: no client queues them; such a request has no effect in `Transfer`.
- FairRuns.FairRunsFinish: fair runs keep the feedback gate closed; with an open gate requests may be repeated for ever, and only `CanAlwaysFinish` is claimed.
- ReceiveLoop.RequestTable.Compact: the request buffer is a sequence, not the fixed array of the C code; its length never exceeds the array.
- RateControl.DelayBounds: delays are real numbers, so rounding of doubles is not modelled; a threshold of exactly 100000 divides by zero in the C code and is excluded.
- ServerLoop.SendLoop.HandleRequest: reads the file under the assumption that reading succeeds and that a retransmission names a block of the file, which `Transfer.BackInv` shows of every client request.
- SegmentedDownload.StepInv: the check of one connection is one step; a setup thread that ends between its two tests, so that a second one is started on a live connection, is not covered.
- DownloadLoop.Axel.Do: sleeping, `select` and the periodic save are left out; a pass without any connection is a pass of quiet events. Servers without resume support and files of unknown size are left out.
- ResumeState.TornStateIff: a crash is taken to cut the state file between words; `CrashAndResume` allows exactly the cuts that are harmless.
- Reconnect.CanCompleteIff: says that some run completes, not that every fair one does; failing thread creation is left out.
- MirrorSearch.Search.GetSpeeds: a look at an entry is one step, cancelling a worker takes effect at once and thread creation succeeds; measuring is a report of any speed of at least 1.
- MirrorSearch.UsableFirst: assumes of qsort that it permutes and that neighbours are in order; with speeds 0 the comparator is cyclic, see `OrderOnIff`.
- UrlCodec.Conn.Set: the URL is shorter than MAX_STRING, as every caller provides, so no field is cut; ports are unbounded integers, so overflow of the scan is not modelled.
- UrlCodec.Conn.Text: requires that the printed URL fits its buffer, which the C code does not check; `TooLongToPrint` shows that it may not.
- PercentCoding.HttpDecode: strings on which the C code reads past the end or depends on the library (a "%" before white space, a sign, "0x" or the end) are excluded by DecodeRaw; the exact round trip is stated for the others.
- BasicAuth.Connection.Connect: bytes above 127, where the signed char arithmetic of the C code leaves the table, and credentials whose encoding overruns the field are excluded; the request is a sequence, not an array. The server's header parser is taken to read a line of a complete request as it was sent.
- VSIB, StreamStor and Mark5 code, rtclient, rtserver and the other files under final/: foreign devices or near-copies of modelled code.
- EVN file names, libmicrohttpd apart from the two files above, the small Go and Python servers and the Windows client.
