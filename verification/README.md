# TAS / FlexTCP: verified model

TAS splits TCP into a fast path that runs on dedicated cores, a kernel process, and a library in each application. The
three share memory: a flow record and two circular buffers per connection, message queues, a flow table, and a queue
manager that paces transmission. This project models the parts of that design with the most state and proves what they
promise, for every input and every run. `dafny verify dfyconfig.toml` checks all of it.

## How the project is laid out

Operations that the program carries out in place are classes with methods. Each method is proved equal to a function on
values, and the properties are proved about those functions and about runs built from them.

- **The fast path as a protocol.** `FlowOps` says what a segment, a bump, a transmission and a timeout do to a flow
  record; `FlowState` does it in place on two byte arrays. `ConnOps` and `ConnState` are the application's side.
  `StreamHalves` relates the 32-bit sequence numbers and ring positions of a record to unbounded stream offsets.
  `Protocol` puts two endpoints and a network together, one that loses, duplicates, delays and reorders;
  `ProtocolInv` and `ProtocolRuns` prove what holds in all its runs. `ProtocolReplies` and `ProtocolCalls` say what each
  step of the fast path and each call of the application does, in stream offsets and by what is in the network.
  `ProtocolStall` tells when a connection stops receiving for good; `ProtocolExamples` has runs that get there.
  `ProtocolNotices` accounts for what the library is told, and `ProtocolSocket` puts the socket layer on top, from the
  peer's writes to what a socket returns. `TcpCommon` has the sequence number checks (section 3.4 of RFC 9293), `Ring` the
  circular copies, `Word` machine words.
- **Transmit credit.** `Wakeup` follows the credit of a flow over the queue managers of all cores and their forwarding
  rings; `WakeupExamples` has a run in which it overflows.
- **The queue manager.** `QmanSpec` is a priority queue over unbounded virtual time; `Qman` is the four-level skip list
  over 32-bit times that refines it, by way of `SkipList`. `QmanRuns`, `QmanTies` and `QmanPacing` prove order,
  conservation and pace, `QmanUpdates` what updates set and what a fire takes.
- **The flow table.** `FlowTable` is the hopscotch table with one writer and readers that probe between its memory writes;
  `FlowTableExamples` fills one until a flow is lost.
- **Congestion control.** `Cc` is window-based DCTCP, and the rate that makes the queue manager send a window per round
  trip.
- **Objects.** `ObjOps` and `ObjSend`: framed objects completed out of order in a shared send ring.
- **Timeouts.** `TimeoutSpec`, `TimeoutRuns`, and `Timeouts` with its doubly linked lists.
- **Scaling.** `RssBalance` and `Rss`: buckets, redirection table and steering table as cores come and go.
- **Sockets.** `SocketBuffer` (unread bytes in two pieces), `EpollSpec`, `EpollRuns`, `EpollReports` and `Epoll`
  (readiness lists, and that they report what was raised).
- **Packet memory.** `PacketMemSpec` and `PacketMem`: first-fit allocation from a linked free list.

## What turned out not to hold

In these places the code does not do what its comments or its callers expect. The model keeps the code, and states
exactly when the expectation is met, and gives an input or a run for which it is not.

- `tcp_trim_rxbuf` (flextcp-code/flexnic/tcp_common.h:132-139): a segment that wraps around and starts inside a window
  that does not is not cut at its end. `TcpCommon.TrimExactOutsideCorner` is the exact condition, and
  `StreamHalves.CornerHitsOldestByte` what is hit.
- A completely full receive ring looks empty (flextcp-code/stack/conn.c:563-570, flextcp-code/flexnic/fast_flows.c:755-764).
  What was announced is still read correctly, but the library cannot free it, and the receive window can stay closed for
  good: `ProtocolStall.StalledForeverExactly` tells exactly when, `ProtocolExamples.StallReached` gets there, and
  `ProtocolRuns.BumpTaken` shows when the accounting is exact.
- When a connection is confirmed the library asserts that the bytes announced before do not fill the receive ring
  (flextcp-code/stack/init.c:317 and 406). The peer decides that: `ProtocolRuns.ConfirmAbortsExactly`,
  `ProtocolExamples.ConfirmAborts`.
- The length of the out-of-order interval is passed on in 16 bits (flextcp-code/flexnic/fast_flows.c:554-555), so a longer
  interval may be dropped too early: `StreamHalves.InOrderCatchesUp`, `StreamHalves.LongIntervalDropped`.
- The room left in the peer's window is a difference that wraps around (flextcp-code/flexnic/tcp_common.h:207), and the
  window is taken to be the flow's own receive ring until a segment tells (flextcp-code/kernel/nicif.c:252). A window that
  shrinks below what is in flight is ignored: `ProtocolReplies.WindowObeyed`, `ProtocolReplies.WindowOverrun`.
- A moved entry of the flow table keeps its old distance (flextcp-code/kernel/nicif.c:667-675), although lookups rely on
  true distances: `FlowTable.MoveStale`, `FlowTable.TwoMovesFindable`. The eighth flow registered in an empty table can
  hide the second: `FlowTableExamples.SecondFlowLost`.
- The time of the next fire wraps around for very low rates: `QmanSpec.NewTsExact`, `QmanSpec.SlowRateCounterexample`.
- The 32-bit credit of a queue can wrap around, and then a flow is forgotten: `Wakeup.AdditionCoveredExactly`,
  `Wakeup.OverflowLosesWakeup`, `WakeupExamples.OverflowReached`.
- `window_to_rate` multiplies the round trip in 32 bits: `Cc.RatePacesWindowExactly`, `Cc.LongRoundTripOverruns`.
- The size of an object is added up in 32 bits: `ObjOps.TotalIsFrameExactly`. For some lengths nothing
  is reserved, `ObjOps.LongObjectReservesNothing`; for others a frame cut short, `ObjOps.LongerObjectIsCut`.
- The comment in `packetmem_free` says that the first successor is looked for; the block is put before its predecessor:
  `PacketMemSpec.FreeAscendingExactly`, `PacketMemSpec.FreeDoesNotCoalesce`.
- The search for the core with the fewest buckets starts from 255 (flextcp-code/flexnic/network.c:402), so a table of 512
  buckets is unbalanced after scaling down to two cores: `Rss.NicRss.ScaleDown`, `Rss.UnbalancedDown`. Scaling up by several
  cores can unbalance it as well: `RssBalance.UpBalancedExactly`, `Rss.UnbalancedUp`.

## What the protocol runs assume

Segments arrive less than 2^31 bytes after the stream position they were sent from, and do not meet the untrimmed wrap
case. Rings are shorter than 2^31 bytes. Both applications use the library as it is meant to be used: they write only what
they allocated and read only what was announced. Bumps may overtake each other; one is processed less than 2^31 - 2 bumps
behind and at most 2^30 ahead of the last one applied. The receive queue of an application may lose a notification, as it
can in the program when it is full.

## Model

| member | source | states |
|---|---|---|
| ProtocolRuns.HandedIsPrefix | flextcp-code/flexnic/fast_flows.c:387-587 | in every run with loss, duplication, reordering and delay, what each application has read and freed is a prefix of what the other one wrote |
| ProtocolRuns.UnreadIntact | flextcp-code/flexnic/fast_flows.c:387-587 | in every run the bytes received but not freed, and those of the out-of-order interval, sit in the receive ring exactly as the peer wrote them; the interval never overlaps them |
| ProtocolRuns.SenderRetains | flextcp-code/flexnic/fast_flows.c:356-385 | in every run each written byte the peer lacks is still in the send ring; its place is reused only once the peer holds it in order |
| ProtocolRuns.SenderAligned | flextcp-code/flexnic/fast_flows.c:178-194 | in every run, through sending, acknowledgements (also from the future), rewinds and timeouts, next position and next sequence number name the same stream offset |
| ProtocolRuns.SegmentsCarryStream | flextcp-code/flexnic/fast_flows.c:178-194 | every segment ever in the network carries exactly the stream bytes at its sequence number |
| ProtocolRuns.AcknowledgementsTrue | flextcp-code/flexnic/fast_flows.c:653-658 | no acknowledgement number in the network claims a byte the receiver does not have in order |
| ProtocolReplies.PayloadAcknowledged | flextcp-code/flexnic/fast_flows.c:342-346 | in every run a segment with payload, be it new, old, early or beyond the window, is answered by exactly one acknowledgement, with the sequence number, receive position and window of the new state and the mark of the segment; a segment without payload is not answered |
| ProtocolReplies.ThreeAnswersRewind | flextcp-code/flexnic/fast_flows.c:342-385 | end to end: payload that arrives three times without moving the receive position makes three acknowledgements; when the sender gets them in a row it is back at the first unacknowledged byte, with one drop counted and the rate halved at the first |
| ProtocolReplies.AckTaken | flextcp-code/flexnic/fast_flows.c:348-385 | in every run, what a segment does to the send half: first unacknowledged byte, send position (also for acknowledgements from the future), duplicates, drops and rate, in every case |
| ProtocolReplies.PayloadTaken | flextcp-code/flexnic/fast_flows.c:387-587 | in every run, what a segment does to the receive half: where the receive position and the out-of-order interval are afterwards, in every case |
| ProtocolReplies.WindowTaken | flextcp-code/flexnic/fast_flows.c:387-466 | in every run the peer's window is taken from a segment if and only if that contains or touches the next expected byte and is not the third duplicate |
| ProtocolReplies.ReceiveCounts | flextcp-code/flexnic/fast_flows.c:348-359 | acknowledgements, echoed marks and acknowledged bytes are counted for congestion control exactly |
| ProtocolReplies.AckBytesAreAcked | flextcp-code/flexnic/fast_flows.c:356-359 | in every run the counter of acknowledged bytes is what has been acknowledged since the start, up to wrap-around |
| ProtocolReplies.SendExact | flextcp-code/flexnic/fast_flows.c:98-194 | in every run a segment is sent if and only if something may be sent; it carries as much of that as fits a segment, from the send position on, with the current receive state, and moves the send position behind it |
| ProtocolReplies.TimeoutRewinds | flextcp-code/flexnic/fast_flows.c:780-829 | in every run a timeout takes the send position back to the first unacknowledged byte and keeps the end of what may be sent; if something was in flight a drop is counted and the rate halved at the first one, else nothing changes |
| ProtocolReplies.ResendsFromUna | flextcp-code/flexnic/fast_flows.c:780-829 | the segment sent next after a timeout carries the stream from the first unacknowledged byte on |
| ProtocolReplies.WindowUpdate | flextcp-code/flexnic/fast_flows.c:766-773 | in every run a bump makes the fast path send a window update if and only if it is applied, opens a closed window, and leaves nothing to send; the update has the new window |
| ProtocolReplies.WindowObeyed | flextcp-code/flexnic/tcp_common.h:194-214 | sending stays within the peer's window if and only if the bytes in flight before did: the room left is a difference that wraps around |
| ProtocolReplies.WindowOverrun | flextcp-code/flexnic/tcp_common.h:194-214 | a fresh flow that sends into a closed window with two bytes in flight |
| ProtocolSocket.SocketReadsStream | flextcp-code/sockets/context.c:246-287 | end to end, in every run: no receive event or read makes a socket abort; what its reads return is a prefix of what the peer wrote, covers all that was freed, and its pieces are the rest of what was announced, also when the ring is full |
| ProtocolSocket.EventsCarryStream | flextcp-code/stack/init.c:495-528 | the pieces of the ring that the library reports for a notification, or on confirmation, hold exactly the newly announced bytes of the peer's stream |
| ProtocolSocket.EventsCover | flextcp-code/stack/init.c:495-528 | the pieces are consecutive, none wraps around, and with what is not freed they fit into the ring, which is what SocketBuffer takes for granted |
| ProtocolNotices.NothingUnaccounted | flextcp-code/flexnic/fast_flows.c:589-626 | in every run the bytes received and those announced differ by exactly what pending notifications carry and lost ones carried; likewise for bytes acknowledged |
| ProtocolNotices.AllAnnounced | flextcp-code/flexnic/fast_flows.c:589-626 | if no notification was lost, taking all of them tells the library of every byte |
| ProtocolRuns.NothingRegresses | flextcp-code/flexnic/fast_flows.c:710-764 | over any stretch of a run nothing goes back: not the transmit head, not the right edge of the receive window, and none of the offsets acknowledged, received, announced to the application, shown to it, or read by it |
| ProtocolRuns.BumpTaken | flextcp-code/flexnic/fast_flows.c:710-764 | in every run a bump is applied exactly if it is newer than the last one applied; a stale one changes nothing; after an applied one the window accounts for what was read if and only if less than a whole ring was freed |
| ProtocolStall.StalledForeverExactly | flextcp-code/stack/conn.c:563-570 | a full ring looks empty: at any point of any run the receive window of a confirmed connection never opens again, whatever happens, if and only if it is stalled: window closed, nothing counted as unread, and what the application has freed, each notification and each bump still to come moving positions by nothing or by a whole ring |
| ProtocolStall.StallStays | flextcp-code/stack/conn.c:563-570 | through every continuation of a run a stalled connection stays so: nothing more is received or freed |
| ProtocolExamples.StallReached | flextcp-code/stack/conn.c:563-570 | runs from the initial state that end in a stall: a receive ring filled by one segment, the notification taken, pending, or lost |
| ProtocolRuns.RunInv | flextcp-code/flexnic/fast_flows.c:226-778 | every reachable state of the two endpoints and the network keeps the invariant behind the results above |
| ProtocolRuns.StepInv | flextcp-code/flexnic/fast_flows.c:226-778 | every action of either endpoint that meets the assertion on confirmation can be carried out (everything else the code takes for granted holds), keeps the invariant, and takes nothing back |
| ProtocolRuns.ConfirmAbortsExactly | flextcp-code/stack/init.c:315-317 | in every run the assertion made on confirmation fails if and only if as many bytes were announced before as the receive ring holds |
| ProtocolExamples.ConfirmAborts | flextcp-code/stack/init.c:404-406 | a run from the initial state in which it fails |
| ProtocolInv.BumpOrder | flextcp-code/flexnic/fast_flows.c:710-718 | the comparison of 32-bit counters orders bumps as they were issued, for any two less than 2^31 - 2 behind or at most 2^30 ahead |
| ProtocolInv.BumpOrderExactly | flextcp-code/flexnic/fast_flows.c:710-718 | a distance between two bumps is judged rightly whatever number the last one carries, if and only if it is less than 2^31 - 2 behind or at most 2^30 ahead |
| ProtocolInv.FreedIs | flextcp-code/flexnic/fast_flows.c:755-764 | the bytes freed as computed from ring positions are those freed by the application, except that a whole ring counts as nothing |
| ProtocolInv.ReadGood | flextcp-code/stack/conn.c:48-66 | the bytes the application reads at its tail are the next bytes of the peer's stream, and reading keeps the invariant |
| ProtocolInv.NotifyGood | flextcp-code/stack/init.c:454-542 | a notification moves the library's head and tail to stream offsets the fast path has reached, in whatever order notifications are taken |
| ProtocolInv.ConfirmGood | flextcp-code/stack/init.c:267-328 | bytes that arrive before the connection is confirmed are counted, and appear when it is, unless they fill the ring and the assertion fails |
| ProtocolCalls.WriteTakes | flextcp-code/stack/conn.c:68-125 | in every run the library takes as much of what is written as fits beside the bytes not known to be acknowledged, less one, and in one piece only up to the end of the ring; that is appended to the stream |
| ProtocolCalls.PushTakes | flextcp-code/stack/conn.c:127-144 | in every run bytes are handed over if and only if that many are written and not handed over |
| ProtocolCalls.ReadTakes | flextcp-code/stack/conn.c:48-66 | in every run a read succeeds if and only if that many bytes are announced and unread, a full ring counting as nothing, and gives the next bytes of what the peer wrote |
| ProtocolCalls.TellIssues | flextcp-code/stack/init.c:674-701 | in every run a bump has the next number and the ring positions of the bytes handed over and of the bytes read |
| ProtocolCalls.NotifyAnnounces | flextcp-code/stack/init.c:454-542 | in every run taking a notification makes exactly the bytes it counts readable, and room for as many to write as were acknowledged |
| StreamHalves.RxStepHolds | flextcp-code/flexnic/fast_flows.c:387-587 | any genuine payload, however old, early or overlapping, leaves only the peer's bytes in the counted part of the ring and in the out-of-order interval |
| StreamHalves.InOrderProgress | flextcp-code/flexnic/fast_flows.c:536-548 | a segment that contains the next expected byte moves the receive position over everything of it that fits |
| StreamHalves.CatchUpHolds | flextcp-code/flexnic/fast_flows.c:550-585 | after in-order bytes the out-of-order interval is kept, cut, dropped or taken over so that it still names bytes of the peer's stream |
| StreamHalves.OooStepHolds | flextcp-code/flexnic/fast_flows.c:400-433 | starting and extending the out-of-order interval on either side keeps it one stretch of the peer's stream |
| StreamHalves.OooStepStores | flextcp-code/flexnic/fast_flows.c:407-431 | out-of-order payload is kept if it starts the interval or extends it at either end, and else ignored |
| StreamHalves.InOrderCatchesUp | flextcp-code/flexnic/fast_flows.c:550-585 | in-order bytes that reach the interval take it over, if and only if they overlap it by no more than its length modulo 2^16 |
| StreamHalves.LongIntervalDropped | flextcp-code/flexnic/fast_flows.c:554-562 | three segments to a fresh record after which an interval of 65536 bytes is dropped for an overlap of one byte |
| StreamHalves.CornerHitsOldestByte | flextcp-code/flexnic/tcp_common.h:132-139 | in the untrimmed wrap case the segment is kept whole and its first surplus byte is bound for the oldest byte not yet freed |
| StreamHalves.GenuineAck | flextcp-code/flexnic/tcp_common.h:156-182 | a genuine acknowledgement is accepted exactly if it is not older than what is acknowledged, and moves that offset to the one it stands for |
| StreamHalves.AckStepHolds | flextcp-code/flexnic/fast_flows.c:356-385 | processing an acknowledgement, including the rewind after a third duplicate, keeps sequence number, ring position and head at their stream offsets |
| StreamHalves.RewindHolds | flextcp-code/flexnic/fast_flows.c:1054-1068 | a rewind goes back to the first unacknowledged byte, in sequence number and in ring position, and leaves the head where it is in the stream |
| StreamHalves.TransmitHolds | flextcp-code/flexnic/fast_flows.c:137-194 | the segment sent has the stream bytes at its sequence number, at most one MSS, none beyond the head |
| StreamHalves.NewHeadHolds | flextcp-code/flexnic/fast_flows.c:753-754 | a new head given as ring position names the stream offset the application meant |
| StreamHalves.AppendHolds | flextcp-code/stack/conn.c:68-144 | bytes the application appends to the send ring overwrite nothing unacknowledged |
| StreamHalves.DuplicateCounts | flextcp-code/flexnic/fast_flows.c:377-384 | one more duplicate acknowledgement is only counted, unless it is the third |
| StreamHalves.ThirdDuplicateRewinds | flextcp-code/flexnic/fast_flows.c:377-384 | of three duplicate acknowledgements received in a row the first two change neither bytes in flight nor rate, and the third resends from the first unacknowledged byte (section 3.2 of RFC 5681), halving the rate once |
| TcpCommon.TrimExactOutsideCorner | flextcp-code/flexnic/tcp_common.h:98-145 | for all windows and segment lengths the trim is the circular intersection of segment and window, if and only if the input is not in the wrap case that cuts nothing off the end |
| TcpCommon.TrimCornerCounterexample | flextcp-code/flexnic/tcp_common.h:132-139 | two bytes of room and four bytes kept |
| TcpCommon.TrimByDistance | flextcp-code/flexnic/tcp_common.h:98-145 | the four wrap cases agree with one formula over the signed distance of the segment from the window |
| TcpCommon.RxAckExact | flextcp-code/flexnic/tcp_common.h:156-182 | accepted are exactly the acknowledgements in the circular interval from the first unacknowledged byte to the buffered head |
| Ring.RoundTrip | flextcp-code/include/utils_circ.h:51-87 | what is written into a ring in one or two pieces is read back |
| Ring.WriteHolds | flextcp-code/flexnic/fast_flows.c:860-888 | writing stream bytes within one turn of the ring keeps all bytes held before |
| Ring.ReadHolds | flextcp-code/flexnic/fast_flows.c:831-858 | reading inside the held range returns the stream |
| Ring.WriteRing | flextcp-code/flexnic/fast_flows.c:860-888 | the split write equals the circular one |
| Ring.ReadRing | flextcp-code/flexnic/fast_flows.c:831-858 | the split read equals the circular one |
| FlowState.FlowRecord.constructor | flextcp-code/kernel/nicif.c:230-262 | a fresh record: whole receive window, both streams at their first byte |
| FlowState.FlowRecord.ReceiveAck | flextcp-code/flexnic/fast_flows.c:348-385 | the in-place updates refine AckStep, the function AckStepHolds and ThirdDuplicateRewinds are about |
| FlowState.FlowRecord.MoveAcked | flextcp-code/flexnic/fast_flows.c:360-375 | refines Acked, also when the acknowledgement is beyond the bytes in flight |
| FlowState.FlowRecord.ResetRetransmit | flextcp-code/flexnic/fast_flows.c:1054-1076 | refines the rewind |
| FlowState.FlowRecord.ReceivePayload | flextcp-code/flexnic/fast_flows.c:387-587 | refines RxStep, the function RxStepHolds is about |
| FlowState.FlowRecord.StoreOutOfOrder | flextcp-code/flexnic/fast_flows.c:400-433 | refines OooStep: the three cases of the interval, or the payload is ignored |
| FlowState.FlowRecord.StoreInOrder | flextcp-code/flexnic/fast_flows.c:536-587 | refines InOrderStep |
| FlowState.FlowRecord.CatchUp | flextcp-code/flexnic/fast_flows.c:550-585 | refines OooCatchUp |
| FlowState.FlowRecord.RxSeqWrite | flextcp-code/flexnic/fast_flows.c:890-900 | payload goes to the ring position of its sequence number |
| FlowState.FlowRecord.Packet | flextcp-code/flexnic/fast_flows.c:337-658 | the whole segment: acknowledgement, payload, window, notification, transmit credit and reply refine FlowOps.Packet, which AckTaken, PayloadTaken, WindowTaken, ReceiveCounts and PayloadAcknowledged pin down |
| FlowState.FlowRecord.Bump | flextcp-code/flexnic/fast_flows.c:710-775 | refines FlowOps.Bump: rejection of stale bumps, head, freed bytes, credit and window update, pinned down by BumpTaken and WindowUpdate |
| FlowState.FlowRecord.Transmit | flextcp-code/flexnic/fast_flows.c:137-194 | refines FlowOps.Transmit, pinned down by SendExact |
| FlowState.FlowRecord.Retransmit | flextcp-code/flexnic/fast_flows.c:780-829 | refines FlowOps.Retransmit, pinned down by TimeoutRewinds |
| ConnState.Connection.RxDone | flextcp-code/stack/conn.c:48-66 | frees exactly the bytes asked for, or fails and changes nothing |
| ConnState.Connection.TxAlloc | flextcp-code/stack/conn.c:68-93 | allocates a contiguous piece; one byte of the ring always stays free |
| ConnState.Connection.TxAlloc2 | flextcp-code/stack/conn.c:95-125 | allocates in one or two pieces that end and start at the ends of the ring |
| ConnState.Connection.TxSend | flextcp-code/stack/conn.c:127-144 | hands over exactly the bytes asked for, or fails and changes nothing |
| ConnState.Connection.ConnUpdate | flextcp-code/stack/init.c:454-542 | the received bytes are reported in one piece, or two at the end of the ring; the application is told if a full send buffer has room again; if there is too little room for these events, and only then, nothing happens |
| ConnState.Connection.MakeBump | flextcp-code/stack/init.c:674-701 | bumps are numbered in sequence and carry the current positions |
| Wakeup.NoLostWakeup | flextcp-code/flexnic/fast_flows.c:72-96 | in every run without overflow of the 32-bit credit: if a flow can send, its steering core holds credit or fires for all of that, or another core holds some, or the flow sits in a forwarding ring |
| Wakeup.HappenCovered | flextcp-code/flexnic/fast_flows.c:628-651 | each packet, bump, timeout, poll, fire, forwarding and steering keeps total credit at or above what can be sent |
| Wakeup.CreditExact | flextcp-code/flexnic/fast_flows.c:628-651 | a packet, bump or timeout hands out exactly the credit by which it raises what can be sent |
| Wakeup.TransmitSpends | flextcp-code/flexnic/fast_flows.c:128-194 | sending lowers what can be sent by exactly the bytes sent |
| Wakeup.AddCreditTotal | flextcp-code/flexnic/qman.c:247-280 | an addition of credit is complete if it does not wrap around, and else loses exactly 2^32 |
| Wakeup.AdditionCoveredExactly | flextcp-code/flexnic/qman.c:247-280 | with or without overflow, total credit covers what can be sent after an addition if and only if what is left of the total does |
| Wakeup.OverflowLosesWakeup | flextcp-code/flexnic/qman.c:247-280 | an addition that wraps the only credit to zero leaves a flow that can send and that no core knows of |
| WakeupExamples.OverflowReached | flextcp-code/flexnic/qman.c:247-280 | a run from a fresh flow, of four bumps and three future acknowledgements, after which the flow can send and no core knows |
| QmanRuns.FiresInOrder | flextcp-code/flexnic/qman.c:408-470 | over any updates and polls fires happen in nondecreasing virtual time, between the virtual time at the start and at the end |
| QmanRuns.PollServes | flextcp-code/flexnic/qman.c:408-471 | a poll with room left leaves nothing overdue: virtual time has caught up with real time, no unlimited queue is left if they came last, and every rate-limited queue left fires strictly later, or was fired from the unlimited list by this poll |
| QmanTies.FiresInListOrder | flextcp-code/flexnic/qman.c:308-335 | over any updates and polls a queue with credit fires before every queue behind it on its list, unless its credit is set anew |
| QmanTies.TiesFireInListingOrder | flextcp-code/flexnic/qman.c:370-382 | of two rate-limited queues with credit the one with the smaller key fires first, and with equal keys the one listed earlier |
| QmanRuns.CreditConserved | flextcp-code/flexnic/qman.c:481-502 | bytes fired plus credit left equals credit at the start plus credit added, for updates that add |
| QmanRuns.CreditListed | flextcp-code/flexnic/qman.c:247-332 | a queue with credit is on exactly one of the two lists, once, and no queue is ever on two, even when its rate changes while it is listed |
| QmanPacing.PacingBound | flextcp-code/flexnic/qman.c:337-342 | with rate and chunk unchanged, successive fires of a queue are apart by what the bytes of the earlier one take at the rate |
| QmanPacing.WindowPerRoundTrip | flextcp-code/flexnic/qman.c:408-502 | a queue whose rate spreads a window over a round trip fires in a round trip of real time at most the window and one last chunk, up to a nanosecond at the rate per fire |
| QmanPacing.ExecChunks | flextcp-code/flexnic/qman.c:481-502 | while its chunk is unchanged, no fire of a queue is longer |
| QmanSpec.NewTsExact | flextcp-code/flexnic/qman.c:337-342 | the next fire time lies as far ahead as it should if and only if that is less than 2^31 ns (or just 2^31, in half of the cases) |
| QmanSpec.SlowRateCounterexample | flextcp-code/flexnic/qman.c:337-342 | a full segment at 1 kbps: the computed time lies in the past |
| QmanSpec.RelTimeExact | flextcp-code/flexnic/qman.c:537-569 | for times less than 2^31 ns apart the relative time is their distance |
| Qman.QmanThread.Poll | flextcp-code/flexnic/qman.c:202-219 | polling both lists equals polling the abstract priority queue: same fires in the same order, same next state, whatever the random levels |
| Qman.QmanThread.PollSkiplist | flextcp-code/flexnic/qman.c:408-471 | the loop over due queues equals the abstract one, advancing virtual time to each queue fired and never beyond the smallest key left |
| Qman.QmanThread.PollNolimit | flextcp-code/flexnic/qman.c:308-335 | unlimited queues fire in order of activation |
| Qman.QmanThread.Set | flextcp-code/flexnic/qman.c:221-284 | an update equals the abstract one, which SetSets and SetLists pin down: attributes by flag, and activation only of a queue that was unlisted and has credit |
| Qman.QmanThread.ActivateSkiplist | flextcp-code/flexnic/qman.c:344-406 | a queue is inserted behind all queues that fire no later, on every level up to its own |
| Qman.QmanThread.ActivateNolimit | flextcp-code/flexnic/qman.c:286-306 | a queue is appended to the unlimited list |
| Qman.QmanThread.Fire | flextcp-code/flexnic/qman.c:481-511 | one chunk is taken from the credit and the next time is set; with credit left the queue is listed again |
| Qman.QmanThread.FindPreds | flextcp-code/flexnic/qman.c:370-382 | the top-down search finds, on every level, the last queue that fires no later |
| Qman.QmanThread.LinkLevels | flextcp-code/flexnic/qman.c:384-402 | after linking every level is the sublist of the level below of the queues that reach it |
| Qman.QmanThread.RemoveFirst | flextcp-code/flexnic/qman.c:438-443 | the first queue leaves every level it is on |
| QmanUpdates.SetSets | flextcp-code/flexnic/qman.c:247-274 | an update gives a queue the rate, chunk and tag its flags ask for, sets its credit or adds to it modulo 2^32, and touches no other queue |
| QmanUpdates.SetLists | flextcp-code/flexnic/qman.c:276-280 | an update lists an unlisted queue if and only if it has credit now, for its own time, neither in the past nor more than a chunk ahead; it moves no listed queue |
| QmanUpdates.AttributesLastSet | flextcp-code/flexnic/qman.c:221-284 | over any updates and polls each queue has the rate, chunk and tag that an update set last |
| QmanUpdates.PollFiresWhole | flextcp-code/flexnic/qman.c:481-502 | at any time: a poll fires whole chunks of the size last set, with the tag last set, except for the rest at the end of a queue's credit |
| QmanUpdates.FiresAgainExactly | flextcp-code/flexnic/qman.c:337-406 | a rate-limited queue with credit left is due again when its chunk has passed at its rate, neither before nor after |
| SkipList.LinkedAppended | flextcp-code/flexnic/qman.c:286-306 | appending to a linked chain keeps the others linked |
| FlowTable.FlowHashTable.FlowSlotAlloc | flextcp-code/kernel/nicif.c:602-686 | refines SlotAlloc, for every table; a reader at whatever times between the memory writes of the call finds every flow that was no further from home than its entry says; the registered flows are the same multiset; the slot returned is free and at the reported distance, below the reach; it fails only if the five neighbourhoods from home on were taken, or no entry before the hole could be moved there; with a slot free in reach nothing moves; the displacement loop terminates |
| FlowTable.FlowHashTable.ConnectionAdd | flextcp-code/kernel/nicif.c:203-272 | refines AddFlow, for every table: registering adds exactly the new flow, found from the last write on, while no reader ever misses another one that is no further from home than its entry says |
| FlowTable.FlowHashTable.FindMovable | flextcp-code/kernel/nicif.c:645-663 | the furthest entry before the hole, within the neighbourhood, that may move there by its stored distance, or none; the hole comes closer and never jumps beyond the home slot |
| FlowTable.FlowHashTable.FindFree | flextcp-code/kernel/nicif.c:611-637 | the first free slot in range, with all slots before it taken |
| FlowTable.FlowHashTable.Move | flextcp-code/kernel/nicif.c:665-680 | the three writes of a move, in their order |
| FlowTable.MovesFound | flextcp-code/flexnic/fast_flows.c:1097-1137 | a flow that moves forward once, written in its new slot before the old one is cleared, is met by every reader that probes in order |
| FlowTable.ExactAllFound | flextcp-code/kernel/nicif.c:602-686 | with exact distances at the start of a call, no reader misses any flow |
| FlowTable.FoundExactly | flextcp-code/flexnic/fast_flows.c:1097-1137 | a quiet reader finds a flow if and only if one of the slots within reach of its home shows it |
| FlowTable.MoveKeeps | flextcp-code/kernel/nicif.c:639-681 | one move keeps every flow within reach at all times, and brings the hole closer |
| FlowTable.MoveConserves | flextcp-code/kernel/nicif.c:665-680 | a move changes no registered flow |
| FlowTable.MoveFindable | flextcp-code/kernel/nicif.c:665-680 | after a move the flow is found if and only if its true distance from home stays within reach |
| FlowTable.MoveStale | flextcp-code/kernel/nicif.c:665-675 | after any move the table no longer has exact distances, as the entry keeps its old one |
| FlowTable.TwoMovesFindable | flextcp-code/kernel/nicif.c:649-675 | two calls that each move a flow, as their checks allow, leave it findable if and only if its true steps together stay within reach |
| FlowTableExamples.SecondFlowLost | flextcp-code/kernel/nicif.c:602-686 | eight flows registered in an empty table, all with success, after which the second is no longer found |
| FlowTableExamples.AddCrowded | flextcp-code/kernel/nicif.c:637-681 | with the slots within reach of home taken and the next one free, the flow behind home moves three slots on |
| FlowTable.OutOfReach | flextcp-code/kernel/nicif.c:639-642 | the guard of the displacement loop says exactly that the hole is out of reach |
| FlowTable.AddRegisters | flextcp-code/kernel/nicif.c:265-270 | the two writes of a new flow add it, at its true distance, and make it found |
| Cc.WindowInRange | flextcp-code/kernel/cc.c:188-260 | after any number of control intervals the window is at least a segment and at most the send buffer |
| Cc.FloorKeptExactly | flextcp-code/kernel/cc.c:249-258 | the check at the end of an update holds if and only if the send buffer holds a segment |
| Cc.CongestionNeverGrows | flextcp-code/kernel/cc.c:205-247 | any sign of congestion ends slow start, never lets the window grow, and costs at most half of it |
| Cc.CalmNeverShrinks | flextcp-code/kernel/cc.c:205-247 | without any sign of congestion the window does not shrink |
| Cc.LossHalves | flextcp-code/kernel/cc.c:215-256 | with drops or a retransmission the new window is exactly half of the old one, raised to a segment and capped by the send buffer, and the marked fraction is kept |
| Cc.FractionFollowsMarks | flextcp-code/kernel/cc.c:220-232 | with marks the fraction moves from its old value towards the marked share of the acknowledgements by the weight's part of the gap, to within rounding |
| Cc.AverageMoves | flextcp-code/kernel/cc.c:226-231 | one step of the moving average goes the weight's part of the way, to within rounding |
| Cc.MarksReduce | flextcp-code/kernel/cc.c:234-256 | marks cut the window by half the averaged fraction, to within rounding, raised to a segment and capped by the send buffer |
| Cc.CalmAdds | flextcp-code/kernel/cc.c:203-246 | without congestion the window grows by the acknowledged bytes in slow start and by a segment per window after it, to within rounding, or stays where that would overflow |
| Cc.GrowthPerWindow | flextcp-code/kernel/cc.c:200-246 | a window of acknowledged bytes doubles the window in slow start, and adds a segment to it after that |
| Cc.CutIsRfc8257 | flextcp-code/kernel/cc.c:236-239 | the cut is by half the marked fraction (section 3.3 of RFC 8257), to within a byte and a unit of the fraction |
| Cc.Average | flextcp-code/kernel/cc.c:227-234 | the moving average lies between its old value and the new sample |
| Cc.Marked | flextcp-code/kernel/cc.c:220-225 | the marked fraction, rounded down, and never above one |
| Cc.MarksAreMonotone | flextcp-code/kernel/cc.c:218-239 | more marks never leave a larger window |
| Cc.WindowToRate | flextcp-code/kernel/cc.c:263-281 | the largest rate in kbps that does not exceed the window per sending time |
| Cc.RatePacesWindowExactly | flextcp-code/kernel/cc.c:263-281 | for all windows and links a round trip at the rate carries no more than the window, if and only if the round trip in nanoseconds fits into 32 bits |
| Cc.LongRoundTripOverruns | flextcp-code/kernel/cc.c:263-281 | a longer round trip wraps around, and one segment is overrun |
| Cc.RateNeverUnlimited | flextcp-code/kernel/cc.c:263-281 | a window of a segment never gives the rate 0, which the queue manager takes for no limit |
| Cc.PacedByWindow | flextcp-code/kernel/cc.c:263-281 | a flow at the rate of its window fires in a round trip at most the window and one last chunk, up to rounding: the control loop and the queue manager together |
| Cc.Connection.WinUpdate | flextcp-code/kernel/cc.c:188-260 | the in-place update refines Update, without overflow of its 64-bit products, and keeps the window in range; LossHalves, MarksReduce and CalmAdds pin Update down |
| Cc.Connection.Sample | flextcp-code/kernel/cc.c:218-234 | refines the average of the marked fraction |
| Cc.Connection.constructor | flextcp-code/kernel/cc.c:178-186 | two segments, slow start, and the rate for the configured round trip |
| ObjOps.LongestCompletedPrefix | flextcp-code/stack/conn.c:304-353 | for any interleaving of threads the objects exposed are the longest prefix, in order of allocation, of which all are complete |
| ObjOps.ExposedOnceInOrder | flextcp-code/stack/conn.c:304-353 | what is exposed are whole objects with what their owners filled in; later operations only add to it |
| ObjOps.StatusIsCompleted | flextcp-code/stack/conn.c:258-353 | the header flags tell exactly which objects are complete, and payloads are what was filled in |
| ObjOps.TotalIsFrameExactly | flextcp-code/stack/conn.c:258-300 | the size reserved is that of the ranges handed to the owner if and only if header and payload together fit into 32 bits, and then the header has the right length |
| ObjOps.HeaderIsTotalExactly | flextcp-code/stack/conn.c:258-300 | the frame the header describes is what was reserved if and only if it fits with the length cut to 32 bits |
| ObjOps.LongerObjectIsCut | flextcp-code/stack/conn.c:258-300 | an object of 2^32 + 5 bytes for which 13 bytes are reserved |
| ObjOps.LongObjectReservesNothing | flextcp-code/stack/conn.c:266-300 | an object of 2^32 - 8 bytes for which nothing is reserved |
| ObjOps.HeaderRoundTrip | flextcp-code/stack/conn.c:279-284 | length, flags and destination length survive the header encoding |
| ObjSend.ObjConnection.TxAlloc | flextcp-code/stack/conn.c:258-302 | succeeds exactly if header, payload and one byte fit; the object of the length asked for goes behind all others, open |
| ObjSend.ObjConnection.TxSend | flextcp-code/stack/conn.c:304-353 | refines Complete: the object at the head is exposed with the completed ones behind it, any other is only flagged; the scan terminates, also over headers that wrap around |
| ObjSend.ObjConnection.Fill | flextcp-code/stack/conn.c:286-292 | the owner of an open object writes its payload without touching anything else |
| ObjSend.ObjConnection.TxDone | flextcp-code/stack/init.c:657-661 | acknowledged bytes leave the ring, only from the exposed part |
| ObjSend.ObjConnection.ExposedBytes | flextcp-code/stack/conn.c:327-345 | the bytes from tail to head are whole frames of exposed objects in order of allocation |
| ObjSend.ObjConnection.Positions | flextcp-code/stack/conn.c:318-327 | an open object lies at the head if and only if it is the first one not exposed |
| TimeoutRuns.FiresInOrderNeverEarly | flextcp-code/utils/timeout.c:58-123 | in every run, with handlers that arm and disarm, timers fire in order of deadline, those of one deadline in the order of arming, and none early |
| TimeoutRuns.FiresOnceUnlessDisarmed | flextcp-code/utils/timeout.c:58-158 | each timer armed is exactly once fired, disarmed, due or pending |
| TimeoutRuns.NoneLate | flextcp-code/utils/timeout.c:58-80 | after a poll that fires all that is due, every timer past its deadline was fired or disarmed |
| TimeoutRuns.DisarmTakes | flextcp-code/utils/timeout.c:125-158 | in every state disarming takes away one armed timer of that name, pending or due, and no other |
| TimeoutSpec.RelTimeExact | flextcp-code/utils/timeout.c:213-245 | for times less than 2^27 us apart the relative time is their distance |
| TimeoutSpec.MoveDueSplits | flextcp-code/utils/timeout.c:176-201 | the due list gets exactly the timers whose deadline has passed, and the order of all is kept |
| TimeoutSpec.ArmPlace | flextcp-code/utils/timeout.c:100-103 | the unsigned comparison finds the last timer that is not later |
| TimeoutSpec.ArmKeeps | flextcp-code/utils/timeout.c:88-123 | arming keeps the pending timers sorted by true deadline, later armed ones behind |
| TimeoutSpec.DisarmKeeps | flextcp-code/utils/timeout.c:125-158 | disarming keeps the order of the others |
| TimeoutSpec.NextIsEarliest | flextcp-code/utils/timeout.c:160-174 | the time to sleep is exactly until the earliest deadline, and zero if and only if one has passed |
| Timeouts.TimeoutManager.ArmTs | flextcp-code/utils/timeout.c:88-123 | the linked lists refine Arm: due timers move, the new one is linked in at its place; out of range nothing happens |
| Timeouts.TimeoutManager.Disarm | flextcp-code/utils/timeout.c:125-158 | the linked lists refine Disarm, telling from their ends which list the timer is in |
| Timeouts.TimeoutManager.MoveDueTimeouts | flextcp-code/utils/timeout.c:176-201 | the linked lists refine MoveDue |
| Timeouts.TimeoutManager.PollTs | flextcp-code/utils/timeout.c:58-80 | at most 64 due timers leave the list, in order |
| Timeouts.TimeoutManager.NextTs | flextcp-code/utils/timeout.c:160-174 | refines Next |
| Timeouts.LinkIn | flextcp-code/utils/timeout.c:105-122 | linking a node in keeps the list doubly linked |
| Timeouts.LinkOut | flextcp-code/utils/timeout.c:129-157 | unlinking a node keeps the rest doubly linked |
| Rss.NicRss.ScaleUp | flextcp-code/flexnic/network.c:428-465 | counts, redirection table, steering table and the NIC agree afterwards; each new core has its share, other buckets stay; a balanced table stays balanced if and only if the remainder of the division is at most the old number of cores; the search terminates |
| Rss.NicRss.ScaleDown | flextcp-code/flexnic/network.c:467-500 | the same agreement, buckets of remaining cores stay, and a balanced table stays balanced if and only if one core is left or there are at most 255 buckets per core plus one |
| Rss.UnbalancedDown | flextcp-code/flexnic/network.c:467-500 | a table of 512 buckets, spread over three cores and scaled down to two, is unbalanced |
| Rss.UnbalancedUp | flextcp-code/flexnic/network.c:428-465 | a table of 128 buckets, scaled up from one core to seven, is unbalanced |
| Rss.NicRss.RetaSetup | flextcp-code/flexnic/network.c:502-544 | all copies agree and counts differ by at most one |
| Rss.NicRss.CoreMin | flextcp-code/flexnic/network.c:400-412 | a smallest count is found, unless all are 255 or more, when it is core 0 |
| Rss.NicRss.CoreMax | flextcp-code/flexnic/network.c:414-426 | a largest count is found |
| Rss.NicRss.Search | flextcp-code/flexnic/network.c:441-453 | the circular search finds a bucket of the core and terminates |
| Rss.NicRss.Give | flextcp-code/flexnic/network.c:445-457 | one bucket moves in all copies and both counts |
| RssBalance.UpBalancedExactly | flextcp-code/flexnic/network.c:428-457 | balance after scaling up, if and only if the remainder is at most the old number of cores |
| RssBalance.OneCoreKeepsBalance | flextcp-code/flexnic/network.c:428-457 | adding one core always keeps the balance |
| RssBalance.DownUnbalanced | flextcp-code/flexnic/network.c:467-492 | with more than one core left and more than 255 buckets per core plus one, balance is lost; Rss.NicRss.ScaleDown has both directions |
| RssBalance.GiveKeepsBalance | flextcp-code/flexnic/network.c:400-412 | giving to the core found keeps the balance while counts are within its limit |
| EpollRuns.ReadyIsActive | flextcp-code/sockets/epoll.c:79-206 | in every run each socket has one registration at most, and one whose pending events meet its mask is on the active list |
| EpollReports.PassReportsDue | flextcp-code/sockets/epoll.c:79-345 | in every run, as a function of the calls made: an event raised, not cleared since and in the mask of its socket is reported by the next pass with room, with the data given on registration |
| EpollReports.PendingIsRaised | flextcp-code/sockets/epoll.c:324-351 | in every run the pending events of a socket are those raised and not cleared since |
| EpollReports.RegisteredIs | flextcp-code/sockets/epoll.c:140-203 | in every run the registrations are those added and not deleted since, each with its data and the mask last given |
| EpollReports.SetRecords | flextcp-code/sockets/epoll.c:324-345 | raising events adds them to the pending ones of that socket and touches no other |
| EpollReports.ClearForgets | flextcp-code/sockets/epoll.c:347-351 | clearing events takes them from the pending ones of that socket and touches no other |
| EpollRuns.PassIsComplete | flextcp-code/sockets/epoll.c:278-296 | one pass reports no registration twice, each with its pending events, and all that are ready if there is room |
| EpollRuns.NoStarvation | flextcp-code/sockets/epoll.c:278-296 | one that stays ready is reported within as many passes as the length of the active list divided by the room, rounded up |
| EpollRuns.PositionAdvances | flextcp-code/sockets/epoll.c:278-296 | a pass that does not report a ready registration moves it forward by its room |
| EpollRuns.PositionKept | flextcp-code/sockets/epoll.c:324-466 | no other call moves an active registration back |
| EpollSpec.SetInv | flextcp-code/sockets/epoll.c:324-345 | activating only for new events is enough |
| EpollSpec.WaitReports | flextcp-code/sockets/epoll.c:278-296 | what one pass reports, in any state with the invariant |
| Epoll.EpollInstance.WaitPass | flextcp-code/sockets/epoll.c:278-296 | the loop refines Wait |
| Epoll.EpollInstance.CtlAdd | flextcp-code/sockets/epoll.c:140-176 | refines Add; a registered socket is refused |
| Epoll.EpollInstance.CtlModify | flextcp-code/sockets/epoll.c:177-190 | refines Modify; an unregistered socket is refused |
| Epoll.EpollInstance.CtlDelete | flextcp-code/sockets/epoll.c:191-203 | refines Delete; an unregistered socket is refused |
| Epoll.EpollInstance.EpollSet | flextcp-code/sockets/epoll.c:324-345 | refines SetEvents, pinned down by SetRecords and ReadyIsActive |
| Epoll.EpollInstance.EpollClear | flextcp-code/sockets/epoll.c:347-351 | refines ClearEvents, pinned down by ClearForgets |
| PacketMemSpec.BlocksPartitionMemory | flextcp-code/kernel/packetmem.c:36-141 | after any allocations and frees every byte of the memory is in exactly one block, free or live |
| PacketMemSpec.LiveDisjoint | flextcp-code/kernel/packetmem.c:36-86 | no two live blocks share a byte, and none leaves the memory |
| PacketMemSpec.AllocFailsExactly | flextcp-code/kernel/packetmem.c:36-86 | an allocation fails if and only if no free block is long enough; what it hands out is the beginning of the first such block |
| PacketMemSpec.FreeAscendingExactly | flextcp-code/kernel/packetmem.c:88-111 | a list in the order of addresses stays so if and only if the freed block lies below all others |
| PacketMemSpec.FreeDoesNotCoalesce | flextcp-code/kernel/packetmem.c:88-141 | all memory free, in two blocks, and an allocation of all of it fails |
| PacketMemSpec.FreeOwners | flextcp-code/kernel/packetmem.c:88-141 | freeing and merging change the owner of no other byte |
| PacketMemSpec.FreeMerges | flextcp-code/kernel/packetmem.c:116-141 | if no free block ended where the next one in the list begins, none does after a free |
| PacketMem.FreeList.Alloc | flextcp-code/kernel/packetmem.c:36-86 | the linked list refines Alloc |
| PacketMem.FreeList.Release | flextcp-code/kernel/packetmem.c:88-111 | the linked list refines Free |
| PacketMem.FreeList.Merge | flextcp-code/kernel/packetmem.c:116-141 | the linked list refines MergeAround |
| SocketBuffer.ReadsWithoutGap | flextcp-code/sockets/context.c:246-287 | for every interleaving of arrivals and reads the abort for a third piece is not reached, reads return the stream without gap or repeat, and the two pieces are the rest of it |
| SocketBuffer.ReceivedShape | flextcp-code/sockets/context.c:246-287 | arriving bytes extend the first piece, start the second at the beginning of the ring, or extend it |
| SocketBuffer.TakeReads | flextcp-code/sockets/transfer.c:141-156 | a read returns the next unread bytes across both pieces |
| SocketBuffer.SocketConnection.EvConnReceived | flextcp-code/sockets/context.c:246-287 | refines OnReceived; the branch of the abort is dead |
| SocketBuffer.SocketConnection.RecvSimple | flextcp-code/sockets/transfer.c:141-156 | returns the next bytes of the stream, as many as asked for and there |
| SocketBuffer.SocketConnection.RecvMsg | flextcp-code/sockets/transfer.c:66-86 | fills the buffers one after the other with the next bytes of the stream |

## Left out

- Packet headers, checksums, DPDK buffers, doorbells and sleeping: input and output.
- Timestamps, round trip estimation and ECN negotiation in segments; only the mark echoed in a reply is kept.
- Object connections inside the fast path (flextcp-code/flexnic/fast_flows.c:468-534): they are not consistent with
  out-of-order receive. The object ring of the library is modelled.
- `tcp_valid_rxseq` (flextcp-code/flexnic/tcp_common.h:23-80), which is not compiled when out-of-order receive is on.
- The kernel's handshake, routing, ARP and configuration; a connection starts with the record the kernel writes.
- When the library decides to issue a bump; in the model it may do so at any time.
- Weak memory: stores become visible in program order.
- TIMELY, rate-based DCTCP and constant rates, and the kernel's decision when to retransmit; a retransmission may happen at
  any time.
- Removal of flows from the flow table, which the program does not have, and the packing of distance and identifier into one
  word.
- FlowState.FlowRecord.Bump: requires that the positions of a bump lie in the rings, as the program takes for granted;
  `ProtocolRuns.StepInv` shows that they always do in a run.
- ProtocolRuns.HandedIsPrefix: does not cover runs that meet the untrimmed wrap case, in which the oldest unread byte can
  be overwritten.
- FlowTable.FlowHashTable.FlowSlotAlloc: promises nothing to readers of a flow that lies further from home than its entry
  says, because the program does not keep distances exact from call to call; `FlowTableExamples.SecondFlowLost` shows such a
  flow, and `FlowTable.FoundExactly` says when it is found.
- FlowState.FlowRecord.ReceivePayload: requires a segment outside the untrimmed wrap case, in which the program writes beyond
  the window; `StreamHalves.CornerHitsOldestByte` says what it hits. The same holds for `FlowState.FlowRecord.Packet`.
- Qman.QmanThread.Set: requires that a chunk takes less than 2^31 ns at the new rate; `QmanSpec.NewTsExact` says what happens
  otherwise.
- QmanPacing.PacingBound: requires that the chunk of a queue takes less than 2^31 ns at its rate and that polls are less
  than 2^31 ns apart, beyond which 32-bit times do not tell past from future.
- Timeouts.TimeoutManager.PollTs: handlers that arm or disarm while the method runs are not part of the method; the runs of
  `TimeoutRuns` have them between any two fires.
- Timeouts.TimeoutManager.ArmTs: requires that the timer is not armed already, which would corrupt the lists in the program
  as well. The abort for a time out of range is a result here.
- ObjSend.ObjConnection.TxAlloc: requires that header and payload fit into 32 bits; `ObjOps.TotalIsFrameExactly` and
  `ObjOps.HeaderIsTotalExactly` say what happens otherwise. Freeing objects on the receiving side works the same way and
  is not repeated.
- Cc.Connection.WinUpdate: requires a sending time other than zero and a send buffer of at least a segment, as the assertions
  of the program do.
- Event flags that `epoll_ctl` refuses as unsupported.
- Epoll.EpollInstance.WaitPass: the lists are sequences here, so their linking in place is not captured; the doubly linked
  lists of `Timeouts` show that part. The time-out of `epoll_wait` is left out, as are file descriptors of the system.
- Epoll.EpollInstance.EpollSet: one epoll instance; the program does the same for each instance the socket is registered
  with.
- PacketMem.FreeList.Alloc: allocation of the handles themselves does not fail here.
- Sending through sockets, which splits buffers the way `Ring` does.
