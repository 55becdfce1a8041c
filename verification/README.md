# A model of the net_stack protocol engines

This project models the parts of haeredon/net_stack that compute: the TCP engine (`handlers/tcp`), the two
checksum routines and the headers around a segment (`handlers/ipv4`, `handlers/tcp`), the self-reordering
protocol table (`handlers/protocol_map.c`) and the ARP ring (`handlers/arp`). It states what they do over every
input and every run, and where a property the protocol asks for does not hold, it gives the exact condition.

`dafny verify dfyconfig.toml` checks everything.

## How it is built

| file | content |
|---|---|
| `Wire.dfy`, `Wrappers.dfy` | integer widths, byte order, segments; what a search finds |
| `BlockQueue.dfy` | what the block buffer stores, as a sequence; arrival order |
| `BlockBuffer.dfy` | the block buffer itself: an array of blocks, a linked list and a free list in it |
| `Engine.dfy` | each TCP function as a function on the transmission control block |
| `Connection.dfy` | the transmission control block as an object; every method equals its function in `Engine` |
| `Handshake.dfy` | what the opening segments make of a block, on either side |
| `SendQueue.dfy`, `SendRuns.dfy`, `SendWindow.dfy` | the send queue as a FIFO, over sending steps and over whole runs; what goes down fits the window |
| `Answers.dfy` | what a round answers, delivers and removes |
| `Lifetime.dfy` | when a block is deleted, and what its owner hears |
| `StateMachine.dfy` | one endpoint against any peer: states, handlers, consumption of a batch, the walk of a run |
| `ReceiveWindow.dfy` | window test, right edge, bytes delivered |
| `Numbering.dfy` | outgoing numbers tile the sequence space |
| `WindowUpdate.dfy` | which segment the send window comes from |
| `Batch.dfy` | what a ready batch delivers |
| `Jam.dfy` | the receive buffer as written, once synchronized: what is left in it stays at the front for good |
| `Unopened.dfy` | which segments keep a block from ever opening |
| `Reassembly.dfy` | the receive buffer as written over whole runs, and what early writes change |
| `Resets.dfy` | what resets and FIN answers carry |
| `TwoParty.dfy` | two endpoints over a lossy, duplicating, reordering network |
| `Counterexamples.dfy` | runs that show each condition of stream safety is needed, and the resulting equivalence |
| `Checksums.dfy`, `Encapsulation.dfy` | one's-complement sums; segment to bytes and back |
| `ProtocolMap.dfy`, `ArpTable.dfy`, `SocketTable.dfy` | the three tables |

The C code changes things in place, so each routine exists twice: as a method on an object or array, and as a
function on values. The method's `ensures` says that its new state is the function of the old one; everything
else is proved about the functions. Arithmetic is unsigned 16 or 32 bits wide wherever the C code's is
(`U16`, `U32`), including where it wraps.

The two-party system keeps, for each direction, the bytes the application has written. The network is the set
of all segments an endpoint has handed down (`out.sent`): any of them may be delivered at any time, any number
of times, or never. A run starts with a client that has connected and a server without a block, so the
handshake is part of every run.

## Where the code is followed to the letter

- `tcp_block_buffer_add` has no branch for a segment in front of the head and writes through a null pointer
  (`previous_block`, handlers/tcp/tcp_block_buffer.c:43). The model has a field `fault` for this: once it is set
  the process is gone. The parameter `patched` adds the missing branch; the network theorems hold for both
  readings. What the code as written amounts to: on a side that listened, and on one that connected and wrote
  nothing in SYN-SENT, no segment is ever taken from behind another, and once one is left waiting no further
  byte is delivered (`Reassembly.NothingIsReassembled`, `Reassembly.CalmExactly`, `Jam.JamIsForEver`). A connecting
  side that writes early can open with a full buffer behind the SYN: `Reassembly.EarlyWriteUncorks`,
  `Reassembly.LeavingSynSentExactly`. `BlockQueue.StoresWithoutFaultExactly` says which arrival orders survive; a
  segment that finds no free block is dropped before the write. `BlockQueue.ArrivalOrder` compares orders that do not
  fault: all of them with the branch added, as written the ones that survive.
- The same write through null threatens the send queue, with either reading: a reset in SYN-RECEIVED takes
  `send_next` below what waits. `SendRuns.RunStaysInLine` says when it cannot happen, `SendRuns.EarlyWriteFaults`
  shows that it does, and for a connected block only the end of the numbers matters
  (`SendRuns.ConnectedStaysInLine`).
- A segment that `tcp_syn_sent` neither refuses nor finds a SYN or RST in is never removed, nor is an acknowledgement
  of nothing sent: with one of these at the head a connecting block never opens (`Unopened.NeverOpensExactly`).
  `tcp_listen` sets `receive_next` to 0 when it answers an acknowledgement, and then hears nothing numbered 2 or more
  (`Unopened.NeverListensExactly`).
- `tcb->state == CLOSED` compares and does not assign (handlers/tcp/tcp_states.c:213, 216, 222, 229, 288), so a
  reset changes no state: `StateMachine.ResetChangesNothing`. `FIN_WAIT_1`, `FIN_WAIT_2`, `CLOSING`, `LAST_ACK`,
  `TIME_WAIT` and `CLOSED` are modelled with their double removal, and proved unreachable.
- The test for SYN in `tcp_listen` (handlers/tcp/tcp_states.c:382) holds of every segment because `==` binds
  tighter than `|`; the removal at handlers/tcp/tcp_states.c:183 never happens because `!` does.
- The local `state` in `tcp_others` is read at the start of a round, so payload and FIN on the segment that
  completes the handshake are judged by SYN-RECEIVED: payload is passed over, and a FIN is answered but leaves the
  block in ESTABLISHED (`Resets.FinOnOpeningExactly`).
- `tcp_syn_sent` hands payload to `tcp_receive_payload` without a window test (handlers/tcp/tcp_states.c:163), so
  the 16-bit window can underflow there with no number wrapping: `ReceiveWindow.ConnectStartsTransfer`.
- `tcp_syn_sent` tests the acknowledgement before the reset, so it answers a reset that acknowledges something
  unacceptable, which RFC 9293 has dropped: `Answers.ResetAnsweredExactly`.
- The owner of a listening socket is never told that a connection is established, since `tcp_others` does not call
  `on_connect`: `Lifetime.ListenersNeverHearOfConnections`.
- Resets take their number from `send_next`: in SYN-SENT that is never the number asked for
  (`Resets.SynSentResetExactly`), and in SYN-RECEIVED, where `send_next` is overwritten for it, the connection loses
  its numbering and can then accept the very acknowledgement it refused (`Resets.RefusedThenTaken`).
- `send_unacknowledged` is 0 in a block created by the connecting side, and stays 0 when the SYNs cross, so an
  acknowledgement that then completes the handshake covers more than one number: `WindowUpdate.HandshakeCompletes`.
- `send_window` is stored raw at creation, in host order later, and converted again when it is read
  (handlers/tcp/socket.c:46, handlers/tcp/tcp_states.c:258, handlers/tcp/tcp.c:150): `SendQueue.WindowByteOrder`.
- Window and acknowledgement tests are plain unsigned comparisons, and for data the code asks for the first and the
  last byte to be in the window where RFC 9293 asks for either, modulo 2^32. `ReceiveWindow.WindowTestExactly` says
  for which segments the two decide alike, wrapping ones included. The two-party theorems assume that no number
  reaches 2^32 - 1, as a guard on application writes.
- FIN handling acknowledges `seq + 1` whatever the payload, and whether or not the FIN is what comes next:
  `Resets.FinAckExactly`.
- `get_value` reads the slot after the exchange and can return the neighbour's handler. After registrations
  alone it does so for every protocol but the one registered first: `ProtocolMap.ReturnedExactly`,
  `ProtocolMap.FirstLookupReturnsTheNeighbour`. Its index has 8 bits, so in a table of 256 slots or more the scan for
  a key past slot 255 goes round for ever: `ProtocolMap.ScanEndsExactly`.
- The IPv4 test in `arp_read` compares with a constant named for IPv6 whose value is IPv4's type in memory order.

Where the code is not followed: `create_tcp_block_buffer` links one block past its array
(handlers/tcp/tcp_block_buffer.c:97); the model has the ten blocks that were allocated. `active_mode` is not
initialised for passive connections; the model takes its value from the environment. `arp_init_handler` takes its
data from `malloc` and never sets `insert_idx` (handlers/arp/arp.c:57-75), and `tcp_create_socket` never clears the
block table of its socket (handlers/tcp/socket.c:265-290); the models start with index 0 and an empty table.

## Main results

- Stream safety, over every run from the first SYN on, and exactly when: `TwoParty.StreamSafety`,
  `Counterexamples.StreamSafetyExactly`.
- Peer `send_unacknowledged` <= own `receive_next` <= peer `send_next`, and no segment acknowledges what has not
  been sent: `TwoParty.NumberSandwich`, `TwoParty.NoUnsentAcks`.
- A batch delivers a gapless prefix, cut where the window ends: `Batch.NoHoleDelivery`.
- The send queue is a FIFO whose releases fit the window, over every run in which `send_next` does not fall below it:
  `SendQueue.QueueIsFifo`, `SendRuns.RunStaysInLine`, `SendWindow.RunFitsWindow`.
- What every round answers and delivers: `Answers.AnsweredExactly`, `Answers.DeliveredExactly`.
- When a block is deleted, and all its owner hears, over every run: `Lifetime.LivesExactly`, `Lifetime.OwnerHearsExactly`.
- As written nothing is ever reassembled, on the connecting side exactly when nothing is written early; which first
  segments keep a connection from ever opening: `Reassembly.NothingIsReassembled`, `Reassembly.CalmExactly`,
  `Unopened.NeverOpensExactly`.
- Over every run of arrivals and writes the send window is the freshest exactly when establishing acknowledged at
  most one number, as a connecting side always does: `WindowUpdate.FreshExactly`, `WindowUpdate.HandshakeCompletes`,
  `WindowUpdate.ActiveOpenIsFresh`.
- The advertised right edge is fixed between SYN and FIN; the connecting side starts so exactly when payload on the
  SYN-ACK fits its window: `ReceiveWindow.RightEdgeIsFixed`, `ReceiveWindow.ConnectStartsTransfer`.
- For which segments the window test decides as RFC 9293 asks: `ReceiveWindow.WindowTestExactly`.
- Formed segments tile the sequence space: `Numbering.SegmentsTile`.
- Five reachable states, every run a walk along the arrows, batches consumed exactly:
  `StateMachine.ReachableStates`, `StateMachine.RunWalks`, `StateMachine.BatchIsSound`.
- The two checksum algorithms agree on all words exactly while no lost carry counts, byte order does not matter,
  headers verify, damaged ones do not: `Checksums.BothAgreeExactly`, `Checksums.ByteOrderIndependence`,
  `Checksums.VerifiesExactly`, `Encapsulation.PacketRoundTrip`, `Encapsulation.DamagedIsRefused`.
- Over every run the protocol table holds an association list whatever the lookups have moved, and `get_value`
  returns what it holds exactly when its scan ends and it overtakes no entry with another value, counting how often
  each has been found: `ProtocolMap.TableIsAssociationList`, `ProtocolMap.MovesForwardExactly`,
  `ProtocolMap.ReturnedExactly`.
- The ARP ring is a bounded FIFO map over every run, and after a question and its answer two hosts resolve each other:
  `ArpTable.TableIsFifoMap`, `ArpTable.Resolve`.

## Model

| member | source | states |
|---|---|---|
| BlockQueue.InsertContents | handlers/tcp/tcp_block_buffer.c:29-49 | storing a segment keeps every queued one and adds exactly the new one |
| BlockQueue.InsertSorted | handlers/tcp/tcp_block_buffer.c:29-49 | storing keeps the queue sorted by sequence number |
| BlockQueue.InsertIsStable | handlers/tcp/tcp_block_buffer.c:37-43 | among equal numbers the new segment comes after those already queued |
| BlockQueue.ArrivalOrder | handlers/tcp/tcp_block_buffer.c:9-49 | two arrival orders of any length fill an empty buffer alike if and only if the arrivals that find a free block agree on the order of equal numbers |
| BlockQueue.ArrivalOrderOfDistinct | handlers/tcp/tcp_block_buffer.c:9-49 | with pairwise distinct numbers two orders fill it alike if and only if the same segments find a free block, as always happens for up to ten |
| BlockQueue.StoresWithoutFaultExactly | handlers/tcp/tcp_block_buffer.c:12-43 | as written, a row of arrivals is stored without the null write if and only if none that finds a free block is numbered below the head |
| BlockBuffer.Buffer.constructor | handlers/tcp/tcp_block_buffer.c:89-108 | the free list runs through all ten blocks, the queue is empty |
| BlockBuffer.Buffer.Add | handlers/tcp/tcp_block_buffer.c:9-50 | a free block is taken and the queue becomes the stable insertion; with none free nothing changes; both lists stay acyclic, disjoint and together hold every block once |
| BlockBuffer.Buffer.FindPlace | handlers/tcp/tcp_block_buffer.c:32-40 | the scan ends between the last block numbered no higher and the first numbered higher |
| BlockBuffer.Buffer.LinkIn | handlers/tcp/tcp_block_buffer.c:20-47 | relinking inserts the block at that place and keeps both lists |
| BlockBuffer.Buffer.RemoveFront | handlers/tcp/tcp_block_buffer.c:52-63 | drops up to the given number of blocks from the front, all of which return to the free list |
| BlockBuffer.Buffer.Release | handlers/tcp/tcp_block_buffer.c:56-61 | the first block moves to the front of the free list |
| BlockBuffer.Buffer.NumReady | handlers/tcp/tcp_block_buffer.c:65-79 | counts the blocks that continue one another from the wanted number, tolerating one more |
| BlockBuffer.Buffer.GetHead | handlers/tcp/tcp_block_buffer.c:81-83 | the first block, null exactly for an empty queue |
| BlockBuffer.AddedBehind | handlers/tcp/tcp_block_buffer.c:20-47 | the list and free list invariants survive an insertion at the right place |
| BlockBuffer.Released | handlers/tcp/tcp_block_buffer.c:52-63 | they survive moving the head to the free list |
| Connection.TransmissionControlBlock.constructor | handlers/tcp/socket.c:19-71 | every field of a new block, with the handler for its state |
| Connection.TransmissionControlBlock.Write | handlers/tcp/tcp.c:83-171 | numbering, queueing, draining and the return value, as `Engine.Write` and `Engine.WriteOk` |
| Connection.TransmissionControlBlock.Number | handlers/tcp/tcp.c:118-132 | the header fields, and the numbers used up |
| Connection.TransmissionControlBlock.DrainQueue | handlers/tcp/tcp.c:142-170 | terminates, and hands down from the front while the head fits and is taken |
| Connection.TransmissionControlBlock.ReceivePayload | handlers/tcp/tcp_states.c:84-112 | counters, acknowledgement, delivery |
| Connection.TransmissionControlBlock.SynSentStep | handlers/tcp/tcp_states.c:114-191 | every branch of the handler for SYN-SENT |
| Connection.TransmissionControlBlock.TakeSyn | handlers/tcp/tcp_states.c:148-181 | its acceptable SYN |
| Connection.TransmissionControlBlock.ListenStep | handlers/tcp/tcp_states.c:364-402 | every branch of the handler for LISTEN |
| Connection.TransmissionControlBlock.AcceptSyn | handlers/tcp/tcp_states.c:382-396 | its answer to a SYN |
| Connection.TransmissionControlBlock.Close | handlers/tcp/tcp_states.c:53-82 | the handler for CLOSED on a whole batch |
| Connection.TransmissionControlBlock.TakeAck | handlers/tcp/tcp_states.c:252-266 | window update and acknowledgement |
| Connection.TransmissionControlBlock.AckStage | handlers/tcp/tcp_states.c:238-309 | the acknowledgement part of a round |
| Connection.TransmissionControlBlock.FinStage | handlers/tcp/tcp_states.c:321-349 | the FIN part of a round |
| Connection.TransmissionControlBlock.OthersRound | handlers/tcp/tcp_states.c:195-360 | one round of the loop |
| Connection.TransmissionControlBlock.Others | handlers/tcp/tcp_states.c:194-361 | the whole loop |
| Connection.TransmissionControlBlock.Receive | handlers/tcp/tcp.c:202-213 | buffering, counting and dispatch for a known block |
| Connection.TransmissionControlBlock.Send | handlers/tcp/socket.c:222-249 | an application write |
| Connection.Open | handlers/tcp/tcp.c:185-213 | a SYN without a block creates one that reads it |
| Connection.Connect | handlers/tcp/socket.c:170-220 | the block after connecting, with its SYN counted if the write succeeded |
| Handshake.ConnectIs | handlers/tcp/socket.c:170-220 | over a working link the SYN is on the network and numbered with the initial number |
| Handshake.ConnectCountsExactly | handlers/tcp/socket.c:213-218 | connecting counts its SYN if and only if the layer below took it; otherwise the SYN waits |
| Handshake.ListenAnswers | handlers/tcp/tcp_states.c:382-396 | the block a SYN leaves behind, and its answer |
| Handshake.SynSentAnswers | handlers/tcp/tcp_states.c:148-181 | the block an acceptable SYN-ACK leaves behind |
| SendQueue.DrainReleases | handlers/tcp/tcp.c:142-168 | the loop releases a prefix, each released block fits the window, and it stops only on an empty queue, a head that does not fit, or a refusal below |
| SendQueue.WriteAppends | handlers/tcp/tcp.c:126-168 | what was accepted grows by exactly the new segment at its end, numbered from `send_next` |
| SendQueue.QueueIsFifo | handlers/tcp/tcp.c:126-168 | over any run of writes, window and link changes, sent and queued segments together are all writes in order |
| SendQueue.FullQueueLosesTheSegment | handlers/tcp/tcp.c:129-140 | a segment is lost, its numbers used, if and only if no block is free |
| SendQueue.DrainFitsWindow | handlers/tcp/tcp.c:142-168 | every segment the loop hands down is no longer than the window, and it stops only on an empty queue, a head longer than the window, a link that is down, or a segment too long for the packet buffer |
| SendQueue.WriteFitsWindow | handlers/tcp/tcp.c:142-168 | the same for a write from any state of the queue |
| SendQueue.WriteOkExactly | handlers/tcp/tcp.c:97-171 | a write reports success if and only if its header had room and everything at the front that fits the window went down |
| SendWindow.EventWithin | handlers/tcp/tcp.c:150-154 | in any event, what goes down fits a window in force during it, and only windows received come into force |
| SendWindow.RunFitsWindow | handlers/tcp/tcp.c:150-154 | over any run, whatever was handed down was no longer than a window in force in the event it went down in |
| SendWindow.RunFitsBound | handlers/tcp/tcp.c:150-154 | so no run hands down a segment longer than every window the other side has announced |
| SendRuns.RunStaysInLine | handlers/tcp/tcp.c:126-168 | over any run in which `send_next` never falls below what waits, the send queue stays in order, sent and queued segments are those formed but for the ones that found no block, and the send side does not fault |
| SendRuns.ConnectedStaysInLine | handlers/tcp/tcp.c:126-168 | for a connected block this needs nothing but numbers left |
| SendRuns.NothingLostExactly | handlers/tcp/tcp.c:129-140 | there sent and queued segments are all that was formed, in order, if and only if they are as many |
| SendRuns.EarlyWriteFaults | handlers/tcp/tcp_states.c:299-301 | a SYN without room, a write and an old acknowledgement make the send side write through null in SYN-RECEIVED |
| SendQueue.WindowByteOrder | handlers/tcp/tcp.c:150 | the window is honoured as received if and only if its two bytes are equal; as stored at creation always |
| StateMachine.RoundFollowsArrow | handlers/tcp/tcp_states.c:194-361 | from any state a round keeps the state or follows one arrow of figure 5 of RFC 9293 |
| StateMachine.RoundIsSound | handlers/tcp/tcp_states.c:194-361 | in a reachable state a round removes exactly the segment it looked at, unless it returns |
| StateMachine.BatchIsSound | handlers/tcp/tcp_states.c:194-361 | every head dereferenced is there, and exactly the ready segments are consumed unless a round returns or faults |
| StateMachine.ReachableStates | handlers/tcp/tcp_states.c:114-402 | over every run only LISTEN, SYN-SENT, SYN-RECEIVED, ESTABLISHED and CLOSE-WAIT occur, each with the handler creation would choose |
| StateMachine.RunWalks | handlers/tcp/tcp_states.c:114-402 | over every run, round by round, each change of state is one arrow of figure 5, creation and deletion of blocks included |
| StateMachine.NeverBack | handlers/tcp/tcp_states.c:194-361 | a synchronized block is never deleted and its state never goes back; CLOSE-WAIT is final |
| StateMachine.StartsSound | handlers/tcp/socket.c:53-68 | the blocks a run starts from are of this kind |
| StateMachine.ResetChangesNothing | handlers/tcp/tcp_states.c:208-225 | an acceptable reset leaves the block as it was, the reset at the front of its queue; only the owner of a connecting side in SYN-RECEIVED hears of it |
| Answers.AnsweredExactly | handlers/tcp/tcp_states.c:204-358 | the segments a round forms, from what is in the segment it looks at: none for a reset, an acknowledgement for what is not acceptable, opens or acknowledges the future, one for data, one for a FIN, a reset in SYN-RECEIVED |
| Answers.DeliveredExactly | handlers/tcp/tcp_states.c:315-319 | a round delivers its payload if and only if the segment is acceptable, acknowledges nothing unsent, and the state is ESTABLISHED |
| Answers.RemovedExactly | handlers/tcp/tcp_states.c:268-287 | from any state a round that does not return removes one segment, or two if and only if it acknowledges our FIN in FIN-WAIT-1 or CLOSING |
| Answers.ResetAnsweredExactly | handlers/tcp/tcp_states.c:125-146 | an arriving reset is answered if and only if it acknowledges something unacceptable in SYN-SENT |
| Answers.NothingAfterFin | handlers/tcp/tcp_states.c:315-319 | once in CLOSE-WAIT, no run delivers another byte |
| Answers.FormedOfAKind | handlers/tcp/tcp.c:115-129 | over every run data is pushed and acknowledges, and all else is empty and a RST, ACK, SYN, SYN-ACK or FIN-ACK |
| Answers.WriteForms | handlers/tcp/tcp.c:115-132 | a write forms its bytes whole, pushed if there are any, with the numbers and window of the moment |
| Lifetime.DeletedExactly | handlers/tcp/tcp_states.c:136-146 | an event deletes a block if and only if it has a reset read in LISTEN, or in SYN-SENT one that acknowledges its SYN |
| Lifetime.LivesExactly | handlers/tcp/socket.c:107-120 | over any run a block lives exactly as long as no such reset is read |
| Lifetime.RoundCallsExactly | handlers/tcp/tcp_states.c:208-332 | a round calls the owner if and only if it answers a FIN, or reads a reset in SYN-RECEIVED on a connecting side |
| Lifetime.OwnerHearsExactly | handlers/tcp/tcp_states.c:148-332 | over any run that does not delete a block, all its owner hears, in order |
| Lifetime.ListenersNeverHearOfConnections | handlers/tcp/tcp_states.c:302-308 | the owner of a listening socket is told of no connection in any run |
| Lifetime.OneCallPerFin | handlers/tcp/tcp_states.c:327-332 | over every run of a passive block the owner hears of the end once for every FIN formed |
| ReceiveWindow.AcceptedFits | handlers/tcp/tcp_states.c:22-35 | accepted payload fits the window |
| ReceiveWindow.UnderflowExactly | handlers/tcp/tcp_states.c:315-318 | payload that passed the window test underflows the 16-bit window only if the segment's numbers wrap, and when it continues the stream if and only if they do |
| ReceiveWindow.WindowTestExactly | handlers/tcp/tcp_states.c:22-35 | for every block and segment, when the plain test of both ends decides as the four cases of section 3.10.7.4 of RFC 9293 modulo 2^32 |
| ReceiveWindow.WindowTestEverywhere | handlers/tcp/tcp_states.c:22-35 | without data the two agree on all segments if and only if the window does not reach the end of the number space, with data only for a closed window |
| ReceiveWindow.RoundTransfers | handlers/tcp/tcp_states.c:194-361 | a round keeps right edge and bytes delivered plus window |
| ReceiveWindow.RightEdgeIsFixed | handlers/tcp/tcp_states.c:84-94 | over any run between SYN and FIN, delivered bytes plus window stay the initial window and every segment formed advertises the same right edge |
| ReceiveWindow.ListenStartsTransfer | handlers/tcp/tcp_states.c:382-396 | answering a SYN starts such a run with the configured window |
| ReceiveWindow.ConnectStartsTransfer | handlers/tcp/tcp_states.c:148-167 | the connecting side starts one if and only if the payload taken from the SYN-ACK, which no window test looks at, fits its window |
| ReceiveWindow.SynAckOverrunsTheWindow | handlers/tcp/tcp_states.c:162-163 | a window of one byte becomes 65535 when two bytes come with the SYN-ACK, and both are delivered |
| Numbering.TiledMeets | handlers/tcp/tcp.c:126-132 | in a tiled trace each segment starts where the one before ended, counting SYN and FIN |
| Numbering.SegmentsTile | handlers/tcp/tcp.c:126-132 | over any run a connection that has formed no reset and no second SYN has tiled, and `send_unacknowledged` does not pass `send_next` |
| Numbering.HappenNumbered | handlers/tcp/tcp_states.c:264-266 | traces only grow, and `send_unacknowledged` never goes back while neither a reset nor a second SYN is formed |
| Numbering.StartsResting | handlers/tcp/socket.c:213-218 | connecting over a working link starts such a run |
| WindowUpdate.HandshakeCompletes | handlers/tcp/tcp_states.c:298-308 | a block that leaves SYN-RECEIVED remembers window, sequence and acknowledgement of its segment, and with nothing queued is always fresh from then on if and only if that acknowledged at most one number |
| WindowUpdate.OpenedInBatchIsFresh | handlers/tcp/tcp_states.c:298-308 | if it did, the rest of the batch and every later run stay fresh, whatever else was queued |
| WindowUpdate.ActiveOpenIsFresh | handlers/tcp/tcp_states.c:148-178 | a block that leaves SYN-SENT is established if and only if its SYN was acknowledged, and then always fresh |
| WindowUpdate.RunIsFresh | handlers/tcp/tcp_states.c:252-266 | over any run of arrivals, writes and link changes the window stays that of a newest segment that passed the acknowledgement test |
| WindowUpdate.UnacknowledgedIsNewest | handlers/tcp/tcp_states.c:264-266 | over any run of a connected block, `send_unacknowledged` is the largest acknowledgement that has passed |
| WindowUpdate.FreshExactly | handlers/tcp/tcp_states.c:252-266 | this holds after every run from a block just established if and only if the establishing acknowledgement covered at most one number |
| WindowUpdate.StaleWindow | handlers/tcp/tcp_states.c:255-261 | otherwise a FIN and two acknowledgements after it leave an older window in place |
| Batch.FittingIsLongest | handlers/tcp/tcp_states.c:22-35 | the reference prefix is the longest one whose payloads fit the window |
| Batch.RestIsRejected | handlers/tcp/tcp_states.c:350-356 | once data has been refused, the rest of the run is refused |
| Batch.BatchDelivers | handlers/tcp/tcp_states.c:194-361 | a clean run delivers exactly the payloads of its longest prefix that fits |
| Batch.NoHoleDelivery | handlers/tcp/tcp_states.c:194-361 | the same for the ready run; if nothing is refused nothing is left ready |
| Batch.SingleSegment | handlers/tcp/tcp_block_buffer.c:69-71 | a lone acceptable segment is delivered if and only if it is numbered `receive_next` or one more, and in its place if and only if the former |
| Jam.ReadEmptiesExactly | handlers/tcp/tcp.c:202-213 | as written, reading into an empty queue empties it again if and only if the segment is next and no round returns on it; otherwise it is left as a jam |
| Jam.StaysEmptyOrJammed | handlers/tcp/tcp_block_buffer.c:33-43 | over any run a synchronized block whose queue is empty or jammed stays so |
| Jam.QueueEmptiesExactly | handlers/tcp/tcp.c:202-213 | after any run from an empty queue, the queue is empty if and only if every segment was taken when it arrived |
| Jam.JamIsForEver | handlers/tcp/tcp_block_buffer.c:33-43 | in a jam no run delivers a byte or changes the state again |
| Reassembly.NothingIsReassembled | handlers/tcp/tcp_block_buffer.c:33-43 | over every run that starts without a block, the receive queue of a synchronized block is empty or jammed |
| Reassembly.RunIsCalmOrWaiting | handlers/tcp/tcp_states.c:114-191 | the same from a connecting block, in every run that writes no bytes in SYN-SENT |
| Reassembly.CalmExactly | handlers/tcp/tcp_states.c:114-191 | from connecting on this holds over all runs if and only if no bytes are written in SYN-SENT |
| Reassembly.EarlyWriteUncorks | handlers/tcp/tcp_states.c:125-134 | with an early write a run opens the connection with nine segments queued, the first of them ready |
| Reassembly.LeavingSynSentExactly | handlers/tcp/tcp_states.c:148-181 | a block that opens is left empty or jammed if and only if what waits behind the SYN is not the segment to take next |
| Reassembly.RoomKeepsCalm | handlers/tcp/tcp_block_buffer.c:12-43 | which it never is while a block was free and no number wraps |
| Unopened.NeverOpensExactly | handlers/tcp/tcp_states.c:114-191 | as written, after its first segment a connecting block never leaves SYN-SENT if and only if that has neither SYN nor RST, or acknowledges nothing sent |
| Unopened.SynAckResets | handlers/tcp/tcp_states.c:377-381 | a SYN that acknowledges leaves a listening block that wants number 0 |
| Unopened.NeverListensExactly | handlers/tcp/tcp_states.c:364-402 | such a block never leaves LISTEN if and only if the next segment is numbered 2 or more |
| Resets.FinAckExactly | handlers/tcp/tcp_states.c:321-335 | the answer to a FIN acknowledges what has been received if and only if the FIN came in its place and without payload |
| Resets.FinOnOpeningExactly | handlers/tcp/tcp_states.c:206-337 | a FIN on the segment that completes the handshake is answered and counted, but the block is left in ESTABLISHED: its state is the one RFC 9293 asks for if and only if there was no FIN |
| Resets.ListenReset | handlers/tcp/tcp_states.c:377-381 | an acknowledgement in LISTEN is removed and answered by a reset with the number it acknowledges; writing it faults if and only if a block is free and the send queue's head is numbered higher |
| Reassembly.ListenResetsAsAsked | handlers/tcp/tcp_states.c:377-381 | over every run that starts without a block, every reset formed while listening answers the segment just read, with the number section 3.10.7.2 of RFC 9293 asks for |
| Resets.SynSentReset | handlers/tcp/tcp_states.c:125-132 | an unacceptable acknowledgement is answered by a reset numbered `send_next` and stays queued; nothing else changes, unless writing the reset faults |
| Resets.SynSentResetExactly | handlers/tcp/tcp_states.c:125-132 | no such reset ever has the number section 3.10.7.3 of RFC 9293 asks for, if and only if the SYN has been counted or no reset can be written |
| Resets.SynReceivedReset | handlers/tcp/tcp_states.c:298-301 | in SYN-RECEIVED the reset carries the acknowledged number and the connection goes on from it; writing it faults if and only if a block is free and the send queue's head is numbered higher |
| Resets.SynReceivedResetExactly | handlers/tcp/tcp_states.c:298-301 | every such reset costs the connection its numbering, if and only if something sent is unacknowledged |
| Resets.RefusedThenTaken | handlers/tcp/tcp_states.c:298-308 | unless that faulted, the refused acknowledgement completes the handshake when it comes again, if and only if it acknowledged what had not been sent |
| Resets.CloseConsumes | handlers/tcp/tcp_states.c:53-82 | the handler for CLOSED removes what it is given and answers each segment but a reset by one reset |
| TwoParty.ReadyIsExact | handlers/tcp/tcp_block_buffer.c:65-79 | with writes of at least two bytes, segments of the stream counted as ready chain exactly |
| TwoParty.RoundKeeps | handlers/tcp/tcp_states.c:194-361 | a round on a segment of the stream keeps both streams and leaves the rest of the batch in step or refused |
| TwoParty.BatchKeeps | handlers/tcp/tcp_states.c:194-361 | so does a batch |
| TwoParty.ReceiveKeeps | handlers/tcp/tcp.c:202-213 | so does a read, with and without the missing branch |
| TwoParty.ListenKeeps | handlers/tcp/tcp_states.c:364-402 | the SYN of the connecting side connects the listening side |
| TwoParty.SynSentKeeps | handlers/tcp/tcp_states.c:114-191 | its answer connects the connecting side |
| TwoParty.SendKeeps | handlers/tcp/tcp.c:126-168 | an application write extends its stream and disturbs nothing |
| TwoParty.StepKeeps | handlers/tcp/tcp.c:173-217 | the joint invariant survives every step |
| TwoParty.RunKeeps | handlers/tcp/tcp.c:173-217 | and so holds in every state of every run |
| TwoParty.StreamSafety | handlers/tcp/tcp_states.c:84-112 | bytes handed up are a prefix of the bytes the other side wrote |
| TwoParty.NumberSandwich | handlers/tcp/tcp_states.c:242-266 | peer `send_unacknowledged` <= own `receive_next` <= peer `send_next`, both ways, and `receive_next` counts the bytes delivered |
| TwoParty.NoUnsentAcks | handlers/tcp/tcp_states.c:245-250 | no segment in flight or queued acknowledges what has not been sent |
| TwoParty.NobodyResets | handlers/tcp/tcp_states.c:114-402 | neither side forms a reset or FIN, or loses its block |
| Counterexamples.SingleBytesBreakTheStream | handlers/tcp/tcp_block_buffer.c:71 | with single-byte writes a run delivers the second byte as the first |
| Counterexamples.EarlyDataBreaksTheStream | handlers/tcp/tcp_states.c:206-318 | with the missing branch added, data reaching SYN-RECEIVED is skipped and what follows is delivered in its place |
| Counterexamples.ReorderingFaults | handlers/tcp/tcp_block_buffer.c:33-43 | as written, a network that swaps two segments makes the process fault |
| Counterexamples.StreamSafetyExactly | handlers/tcp/tcp_states.c:84-112 | all runs are safe if and only if no single bytes are written and, with the branch added, no data reaches SYN-RECEIVED |
| Checksums.Ipv4Checksum | handlers/ipv4/ipv4.c:46-61 | the loop computes the sum with a carry after every word, and its complement is the checksum |
| Checksums.TcpChecksum | handlers/tcp/tcp_shared.c:24-44 | 32-bit accumulation over both headers does not overflow, and folding it gives the checksum |
| Checksums.FoldCarries | handlers/tcp/tcp_shared.c:39-41 | the fold loop terminates with the one's-complement value |
| Checksums.BothAgreeExactly | handlers/tcp/tcp_shared.c:31-41 | on all words, a carry after every word and folding a 32-bit sum agree if and only if the sum fits 32 bits or the carries lost cancel |
| Checksums.BothAgree | handlers/ipv4/ipv4.c:51-60 | they agree, on the one's-complement value, on any words a 16-bit length can count |
| Checksums.ByteOrderIndependence | handlers/tcp/tcp_shared.c:24-44 | swapping the bytes of every word swaps the bytes of the checksum |
| Checksums.VerifiesExactly | handlers/ipv4/ipv4.c:106-109 | words verify if and only if their checksum slot holds the checksum, or the other form of zero |
| Checksums.OneWordChanged | handlers/ipv4/ipv4.c:106-109 | changing one word goes unnoticed if and only if it exchanges the two forms of zero |
| Encapsulation.SealedHeaderVerifies | handlers/ipv4/ipv4.c:77-88 | every header filled in on writing verifies on reading |
| Encapsulation.PacketRoundTrip | handlers/tcp/tcp_shared.c:60-69 | the packet is accepted, and payload length, payload position and all segment fields come back |
| Encapsulation.OptionsRoundTrip | handlers/tcp/tcp_shared.c:60-69 | the same with TCP options of any length, and with the bits beside the header length set in any way |
| Encapsulation.PacketFindsItsConnection | handlers/tcp/tcp.c:76-81 | the id computed from a packet is that of the connection between its two ports and its source, and of no connection with other ports |
| Encapsulation.WrittenHeaderSays | handlers/ipv4/ipv4.c:77-88 | version, lengths, don't-fragment bit, hops and addresses read back in network order |
| Encapsulation.WrittenTcpHeaderSays | handlers/tcp/tcp.c:115-135 | ports, header length, checksum and urgent pointer read back |
| Encapsulation.AcceptedExactly | handlers/ipv4/ipv4.c:106-125 | a packet is passed on if and only if its header words add up to zero without being zero, there are five, hops are left and it is for us; and what is found wrong first |
| Encapsulation.DamagedIsRefused | handlers/ipv4/ipv4.c:106-109 | a written header changed in one word is refused, unless the change exchanges the two forms of zero |
| Encapsulation.OutBuffer.PutTcpHeader | handlers/tcp/tcp.c:91-137 | the header goes in front of the payload if there is room |
| Encapsulation.OutBuffer.PutIpHeader | handlers/ipv4/ipv4.c:64-88 | the filled header with its checksum goes in front if there is room |
| Encapsulation.Encapsulate | handlers/ipv4/ipv4.c:64-88 | the buffer holds the packet, if and only if both headers fit |
| ProtocolMap.PriorityMap.AddValue | handlers/protocol_map.c:6-23 | the first free slot takes the entry, a full table stays as it is |
| ProtocolMap.PriorityMap.GetValue | handlers/protocol_map.c:25-46 | the table and the result after a lookup whose scan ends in the given number of steps; otherwise the table is unchanged and the scan goes on |
| ProtocolMap.PriorityMap.Hit | handlers/protocol_map.c:31-42 | the slot found is counted, moved in front of a neighbour it has passed, and then read |
| ProtocolMap.ScanEndsExactly | handlers/protocol_map.c:28 | the scan with its 8-bit index ends if and only if one of the first 256 slots stops it |
| ProtocolMap.PriorityCountsHits | handlers/protocol_map.c:32 | over any run the priority of a used slot is the number of lookups that have found it, modulo 2^64 |
| ProtocolMap.MovesForwardExactly | handlers/protocol_map.c:31-40 | a lookup moves its entry one place forward if and only if, counting this one, it has been found more often than the one in front, and moves nothing else |
| ProtocolMap.LookupSurvivesReordering | handlers/protocol_map.c:31-40 | a lookup changes what no key means |
| ProtocolMap.FirstRegistrationStays | handlers/protocol_map.c:6-23 | a new entry is found under its key unless one was there before |
| ProtocolMap.ReturnedExactly | handlers/protocol_map.c:25-46 | after any run a lookup returns the value first registered under its key if and only if its scan ends and it does not, by the number of times they have been found, overtake an entry with another value |
| ProtocolMap.FirstLookupReturnsTheNeighbour | handlers/protocol_map.c:28-42 | after registrations alone, looking up any protocol but the first returns the handler of the one registered before it, and from the 257th on does not return |
| ProtocolMap.SecondReadsTheFirst | handlers/protocol_map.c:36-42 | after two registrations, looking up the second returns the first's handler |
| ProtocolMap.TableIsAssociationList | handlers/protocol_map.c:6-46 | over any run, lookups that never end included, the used slots are a prefix holding exactly what was registered, and the first entry with a key is its first registration |
| ArpTable.ResolutionList.InsertMapping | handlers/arp/arp.c:21-31 | the entry goes to the insert position, which moves on |
| ArpTable.ResolutionList.GetIpMapping | handlers/arp/arp.c:33-50 | the first slot with the address, up to the first free one |
| ArpTable.ResolutionList.Read | handlers/arp/arp.c:102-171 | merge, insert and reply for one packet; with a handler attached it sees the packet first, and takes it alone if it passes through |
| ArpTable.LookupAgrees | handlers/arp/arp.c:33-50 | scanning the ring finds what the FIFO map holds |
| ArpTable.ReadRefines | handlers/arp/arp.c:123-138 | a packet does to the ring what it does to the FIFO map, addresses stay distinct, used slots stay a prefix until full |
| ArpTable.InsertEvictsTheOldest | handlers/arp/arp.c:21-31 | inserting into a full map drops exactly the oldest entry |
| ArpTable.TableIsFifoMap | handlers/arp/arp.c:21-138 | over every run of packets from the empty table, lookups agree with the FIFO map |
| ArpTable.LatestAddressWins | handlers/arp/arp.c:127-138 | after a packet its sender resolves to its address if and only if the sender was known or the packet was for us |
| ArpTable.Resolve | handlers/arp/arp.c:102-171 | a host asks another for its address and reads the answer: it is addressed to the asker, and afterwards each table resolves the other host |
| ArpTable.Exchange | handlers/arp/arp.c:123-160 | the same of the tables as values, for every well-formed table |
| ArpTable.NoAnswerExactly | handlers/arp/arp.c:123-156 | there is no answer if and only if it is no request for us over Ethernet and IPv4, so none to an answer |
| SocketTable.IdsCollideExactly | handlers/tcp/tcp_shared.c:17-22 | two connections share an id if and only if their ports agree, whatever the remote addresses |
| SocketTable.Socket.Add | handlers/tcp/socket.c:73-83 | the first free slot takes the block, or none does |
| SocketTable.Socket.Get | handlers/tcp/socket.c:89-101 | the first block with the id |
| SocketTable.Socket.Delete | handlers/tcp/socket.c:107-120 | every slot with the id is cleared |
| SocketTable.AddedIsFoundExactly | handlers/tcp/socket.c:73-101 | a new block is found if and only if a slot was free, and no other lookup changes |
| SocketTable.DeletedIsGone | handlers/tcp/socket.c:107-120 | a deleted id is found nowhere, and no other lookup changes |

## Left out

- Engine: one remote endpoint and one connection at a time; the table of connections is a model of its own.
- TwoParty.StreamSafety: assumes that no sequence number reaches 2^32 - 1, since all comparisons are unsigned;
  application writes made from inside the delivery callback are modelled as coming right after the read.
- Batch.NoHoleDelivery: says nothing of segments with SYN, RST or FIN, which are covered round by round elsewhere.
- ReceiveWindow.RightEdgeIsFixed: FIN segments and segments whose numbers wrap are excluded.
- ReceiveWindow.ListenStartsTransfer: an initial number whose successor wraps is excluded.
- WindowUpdate.FreshExactly: the numbers of the failing run must not wrap; `ActiveOpenIsFresh` and `RunIsFresh` need
  no such condition.
- WindowUpdate.HandshakeCompletes: the failing half is stated for an empty queue, since behind a jam no further segment
  passes; `OpenedInBatchIsFresh` is the other half for any queue.
- Reassembly.CalmExactly: an initial number among the last three is excluded.
- Numbering.SegmentsTile: connecting over a link that refuses the SYN leaves it uncounted and is excluded.
- Encapsulation.PacketRoundTrip: the TCP checksum field is a parameter, because the engine does not validate it
  and computes it over the stored header area only.
- Checksums.TcpChecksum: lengths are rounded down to whole words, as in the code; the last odd byte is not summed.
- ProtocolMap.PriorityMap.GetValue: keys are not limited to 16 bits, and the steps a caller waits are a parameter.
- ArpTable.ResolutionList.Read: what an attached handler does with a packet is not modelled.
- Liveness and retransmission: the code has no timers and resends nothing.
- Locks and concurrent calls: every packet and every application call is one step.
- Handler dispatch, packet memory, the index of the packet stack, options, the urgent pointer.
- `tcp_socket_close`, `tcp_socket_abort` and `tcp_socket_status`, which are empty.
- DPDK, ports, rings, workers, main programs, Ethernet, DHCP, LLC, TLS, HTTP and pcapng handlers: input and output,
  unfinished, or with easy members only.
