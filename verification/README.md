# A verified model of the user-space TCP/IP stack

This project models the protocol code of the stack in Dafny and proves what that code promises: the
TCP transport from sender to receiver, the router, the ARP side of the network interface, and the TCP
segment codec with its checksum. `dafny verify dfyconfig.toml` checks everything.

## How it is built

Each stateful component appears twice.

* A **specification** as a value: a datatype with absolute, unbounded numbers, whose functions say what
  an operation does to the whole state (`Stream`, `Assembly`, `Receiver`, `Sender`, `Peer`, `Interface`,
  the route table with its linear `Scan`).
* The **implementation** as a class with the fields and loops of the program: the ring buffer and the
  interval map of the Reassembler, the queue of 32-bit messages of the TCPSender, the trie nodes of the
  Router, the three tables of the NetworkInterface, the chunk lists of Parser and Serializer. Every
  method's contract equates the new abstract state (`Model()`) and everything transmitted with the
  specification function applied to the old one. So exchanging two values, skipping a step or taking
  the wrong branch in a method breaks its contract, and all theorems about the specification hold of
  the class.

What the specification functions mean is stated a second time by theorems that do not mention them: the
windows, the cutting into segments, the duplicate counter, the timer and the fate of every datagram, frame
and byte are described from the inputs and from the history of a run.

The theorems about the specifications build on each other as follows.

| Files | Content |
|---|---|
| `Common.dfy`, `Messages.dfy` | bytes, integer widths, constants, chunks; the two halves of a TCP message |
| `WrappingIntegers.dfy` | 32-bit numbers: unwrapping returns the nearest number, and exactly when it does not |
| `ByteStream.dfy` | the flow-controlled stream |
| `Intervals.dfy`, `RingImage.dfy`, `ReassemblerModel.dfy`, `Reassembler.dfy`, `Arrivals.dfy` | ring and interval map refine a map from index to byte; arrival order is irrelevant |
| `TcpReceiver.dfy` | segments to stream indices; the advertised right edge never moves left |
| `SenderModel.dfy`, `SenderProofs.dfy`, `SenderRuns.dfy`, `TcpSender.dfy` | window, queue, timer and Reno state machine: invariant for arbitrary input, no stall |
| `Pushing.dfy`, `Congestion.dfy`, `LossRecovery.dfy` | what a push transmits within both windows; how fast the window opens; duplicates, fast retransmit and timeouts over whole runs |
| `Following.dfy`, `PeerModel.dfy`, `TcpPeer.dfy`, `Network.dfy`, `EndToEnd.dfy`, `Progress.dfy`, `Closing.dfy`, `LateAck.dfy` | one direction, one peer, two peers with a network between them: safety over all runs, progress, both sides closing, and a run in which progress ends |
| `RouterModel.dfy`, `Forwarding.dfy`, `Router.dfy` | the trie walk is the linear longest-prefix scan; queues are drained exactly once, and every datagram has its fate |
| `InterfaceModel.dfy`, `InterfaceRuns.dfy`, `InterfaceReplies.dfy`, `NetworkInterface.dfy` | address resolution over whole runs: conservation, order, throttling, freshness, requests and replies |
| `Buffers.dfy`, `Checksum.dfy`, `TcpSegment.dfy` | byte buffers across chunks, Internet checksum, segment codec |

## The network and its hypotheses

`Network.System` holds two peers and everything each of them ever transmitted. Any of these messages may
arrive at any time, any number of times, or never; applications write, read and close, time passes, and
either stream may fail. `EndToEnd.Reachable` quantifies over all finite runs of such steps from two fresh
peers. Runs may be longer than 2^32 bytes. The hypotheses are:

* nothing is written after the stream was closed, and no more is read than is buffered;
* a delivered message is less than 2^31 numbers behind the party that unwraps it (that it is not too far
  ahead is proved), and numbers stay below 2^64 - 2^32, from where `unwrap` can overflow;
* writing or closing is followed by a push in the same step, as the socket loop does it
  (util/tcp_minnow_socket_impl.hh:102-119);
* the initial retransmission timeout is positive; a route's prefix has at most 32 bits.

## What the proofs say about the code

* `unwrap` returns the nearest 64-bit number for every checkpoint below 2^64 - 2^32, and beyond that for
  all but the exactly described cases in which its last addition overflows (`UnwrapIsNearest`); one such
  case is given (`RunsOffAtTheTop`).
* A segment with its computed checksum is always accepted, whatever the pseudo-header sum: adding the
  complement never carries out of 32 bits, because 2^32 - 1 is a multiple of 65535 (`ComplementAccepts`).
* Two branches are dead. The Reassembler never meets the entry that src/reassembler.cc:109-112 would step
  over, and the TCPSender never reaches the assignment in src/tcp_sender.cc:192-198, because `ackno_` has
  been raised before. Both are proved where they stand (`AddInterval`, `SettleTimer`).
* One turn of the flush loop leaves nothing at the front (`FlushFront` restores the whole invariant), so
  every insertion pushes one run at most (`FlushContiguous`).
* A closed window is probed without backing off and without limit; only timeouts into an open window count
  towards giving up, and the ninth one raises the error (`TickKeeps`).
* Progress is proved for every error-free state with data in flight, and its condition is exact: a fair
  round is possible and advances exactly if the receiving peer is still there and the sender does not give
  up at this timeout, that is, it has attempts left or faces a closed window (`RoundAdvances`). The receiving
  peer is gone exactly if it has sent and received everything and its linger time is over
  (`DeafMeansLingeredOut`). Both failures are reachable without any error before: when the last
  acknowledgement is lost, a peer may linger out while the other side's FIN is still outstanding and has
  attempts left (`ReceiverCanBeGone`), and eight retransmissions may be lost (`LastAttemptIsReached`). While
  both peers go on hearing of each other within the linger time, both streams are delivered and both peers
  leave without an error (`BothSidesClose`).
* What the Reassembler knows is, over every run of arrivals and reads and for streams of any length, exactly
  what lay before the window's edge when it arrived (`KeptIsKnown`).
* After a timeout the sender keeps to one segment until something new is acknowledged or a third duplicate
  arrives (`CollapsedUntilOpened`); the latter sets the window to 4000 bytes at once (`ThreeInARow`), because
  src/tcp_sender.cc:169 adds three segments to the threshold.
* A push saves a short segment only where the congestion window is the smaller one; up to the edge of the
  advertised window short segments are sent (`PushTransmits`).
* The network interface can lose datagrams: a send that finds the request for its next hop expired drops
  whatever still waits there (`SecondSendDrops`), and nothing else does (`NothingIsLostUnlessExpired`).
* The documentation mentions an adaptive estimate of the round-trip time; the sender has none, and the model
  follows the code: the timeout is the initial one times a power of two.

## Model

| member | source | states |
|---|---|---|
| WrappingIntegers.UnwrapIsNearest | src/wrapping_integers.cc:12-25 | the unwrapped number represents the 32-bit one and no other representative is closer to the checkpoint, if and only if the computation does not run off the end of 64 bits |
| WrappingIntegers.RunsOffAtTheTop | src/wrapping_integers.cc:22 | a concrete input at which the last addition overflows: 0 is returned from the largest checkpoint although 2^64 - 2^32 represents the same number and is nearer |
| WrappingIntegers.UnwrapOfWrap | src/wrapping_integers.cc:6-25 | unwrapping undoes wrapping for every number less than 2^31 away from the checkpoint |
| ByteStreams.ByteStream.constructor | src/byte_stream.cc:7-9 | a new stream is empty, open and free of errors |
| ByteStreams.ByteStream.Push | src/byte_stream.cc:12-25 | exactly the part of the bytes that fits is appended to all bytes ever pushed |
| ByteStreams.ByteStream.Close | src/byte_stream.cc:28-31 | closing changes nothing but the closed flag |
| ByteStreams.ByteStream.AvailableCapacity | src/byte_stream.cc:40-43 | the capacity less what is pushed and not popped |
| ByteStreams.ByteStream.Peek | src/byte_stream.cc:55-59 | the view is everything pushed and not yet popped, in order |
| ByteStreams.ByteStream.Pop | src/byte_stream.cc:62-66 | popping removes that many of the oldest bytes and frees their capacity |
| ByteStreams.ByteStream.IsFinished | src/byte_stream.cc:69-72 | finished means closed and popped to the end |
| Intervals.LowerBound | src/reassembler.cc:97 | the first entry whose start is at least the key |
| Intervals.TotalIsCount | src/reassembler.cc:116-121 | in a merged map the running sum of lengths is the number of distinct indices covered |
| Intervals.MergeStep | src/reassembler.cc:108-118 | absorbing a touching entry keeps the covered set, the gaps and the running count right |
| Intervals.InsertStep | src/reassembler.cc:120-121 | inserting the grown range restores a sorted map with gaps that covers the union |
| RingImage.StorePiece | src/reassembler.cc:81-87 | one copied piece, up to the wrap point at most, extends what is stored from the offset on and disturbs no other slot |
| RingImage.FrontRun | src/reassembler.cc:134-153 | the bytes read for the front entry are the longest contiguous run of known bytes |
| RingImage.FlushStep | src/reassembler.cc:134-160 | one turn of the flush loop has the effect of appending the longest run to the output, and the stream has room for it |
| RingImage.StoreStep | src/reassembler.cc:39-47 | copying the clipped piece and recording its range has the effect of storing the substring into the map from index to byte, newest byte winning |
| ReassemblerModel.Run | src/reassembler.hh:25-27 | the run consists of known bytes only and ends at the first unknown index or at the window's edge |
| ReassemblerModel.RunIsUnique | src/reassembler.hh:25-27 | these clauses determine the run |
| ReassemblerModel.NothingToStore | src/reassembler.cc:34-37 | a substring that misses the window, is empty, or ends past 64 bits leaves nothing behind |
| ReassemblerModel.NewestByteWins | src/reassembler.cc:11-50 | for arbitrary substrings, contradictory ones included: afterwards the bytes inserted are known wherever they meet the window, every other index is as before, and what is written ends where the next byte is unknown |
| Reassemblers.Reassembler.constructor | src/reassembler.hh:13-17 | a new reassembler holds nothing |
| Reassemblers.Reassembler.Insert | src/reassembler.cc:11-50 | ring, interval map and counters afterwards represent exactly the map from index to byte after the insertion, and output and closing agree with it |
| Reassemblers.Reassembler.CountBytesPending | src/reassembler.cc:54-57 | the counter is the number of distinct indices pending |
| Reassemblers.Reassembler.InitializeRing | src/reassembler.cc:60-67 | laying out the ring changes nothing that the reassembler means |
| Reassemblers.Reassembler.CopyIntoRing | src/reassembler.cc:70-88 | byte k of the data is at the slot that lies offset plus k places after the front, modulo the ring size; all other slots keep their bytes |
| Reassemblers.Reassembler.AddInterval | src/reassembler.cc:91-122 | the covered set becomes the old one united with the new range, entries stay sorted, non-empty and separated, the count stays exact |
| Reassemblers.Reassembler.FlushFront | src/reassembler.cc:140-159 | one entry is consumed, its run reaches the output, and afterwards no entry starts at the front |
| Reassemblers.Reassembler.FlushContiguous | src/reassembler.cc:125-165 | afterwards the longest run has been written, nothing writable is held back, and the stream is closed if its end is reached; at most one entry of the map has been consumed, the first |
| Arrivals.KeptIsKnown | src/reassembler.hh:25-37 | over every run of true, overlapping, repeated substrings and of reads, for every capacity and every text shorter than 2^64: the bytes known are exactly those that lay before the window's edge when they arrived, the output is the longest gapless prefix of them, the rest is pending, and the stream is closed exactly when all of it is written and its end was seen |
| Arrivals.NothingArrivedIsLost | src/reassembler.hh:25-37 | after any sequence of true, overlapping, repeated substrings that fit the window, the output is the longest gapless prefix of what arrived, the rest is pending, and the stream is closed exactly when all of it and its end arrived |
| Arrivals.OrderIsIrrelevant | src/reassembler.hh:25-37 | two runs in which the same substrings arrive, in whatever order and number, end in the same state |
| ReceiverModel.InsertOnlyAppends | src/tcp_receiver.cc:38 | an insertion only ever appends to the output and never reopens it |
| ReceiverModel.ReceiveKeepsRightEdge | src/tcp_receiver.cc:6-62 | acknowledgement plus window does not decrease, whatever segment arrives |
| ReceiverModel.PopKeepsRightEdge | src/tcp_receiver.cc:51-59 | reading moves the right edge to the right or not at all, and leaves the acknowledgement alone |
| ReceiverModel.RightEdgeNeverMovesLeft | src/tcp_receiver.cc:6-62 | over every run of arrivals and reads after SYN, the right edge and the acknowledgement number are non-decreasing |
| TCPReceivers.TCPReceiver.Receive | src/tcp_receiver.cc:6-40 | SYN, RST and FIN handling and the computed stream index are those of the specification |
| TCPReceivers.TCPReceiver.Send | src/tcp_receiver.cc:42-62 | the message holds the wrapped acknowledgement number, the capped window and the reset flag |
| SenderProofs.FillStops | src/tcp_sender.cc:41-84 | when the filling loop stops with nothing in flight, SYN, all bytes and any FIN have been sent; the silly-window test neither loses the SYN nor blocks |
| SenderProofs.FillSends | src/tcp_sender.cc:37-94 | a composed segment is next in line, quotes the stream truthfully, and stays within the effective window |
| Pushing.PushObeysBothWindows | src/tcp_sender.cc:30-37 | after a push the numbers in flight are at most what they were or the congestion window, and at most what they were or the advertised window, a closed one counting as one |
| Pushing.NothingBeyondTheWindows | src/tcp_sender.cc:30-99 | at every event of every run, numbers enter flight by a push only, and only within both windows as they are then |
| Pushing.NeverBeyondAllOffers | src/tcp_sender.cc:30-99 | over every run the numbers in flight never exceed the largest window that was advertised |
| Pushing.PushTransmits | src/tcp_sender.cc:21-99 | a push transmits the oldest segment again if a fast retransmit is pending, and then exactly what it queues: segments that continue the numbers, all but the last with 1000 bytes and none with more, with RST exactly after an error, until a window is full or nothing is left; it saves a short segment only at the edge of a smaller congestion window that cannot take all bytes |
| Pushing.ClosedWindowIsProbed | src/tcp_sender.cc:30-37 | into a closed window a push sends exactly one number, if nothing is in flight and there is something to send, and nothing new otherwise |
| SenderProofs.PushKeeps | src/tcp_sender.cc:21-100 | push keeps the invariant, never raises the numbers in flight above the effective window, never stalls, and first resends the oldest segment when a fast retransmit is pending |
| SenderProofs.ReleaseKeeps | src/tcp_sender.cc:178-187 | releasing leaves a gapless tiling whose oldest segment contains the acknowledged number |
| SenderProofs.EmptyQueue | src/tcp_sender.cc:178-191 | the queue is empty exactly when everything sent is acknowledged, and exactly when nothing is in flight |
| SenderProofs.ReceiveKeeps | src/tcp_sender.cc:110-200 | for arbitrary messages the whole sender invariant is kept; only a number between the acknowledged and the next one moves the acknowledgement, and then back-off ends |
| SenderProofs.TickKeeps | src/tcp_sender.cc:202-226 | the timer fires exactly after the current timeout, resends the segment that contains the acknowledged number, and the timeout stays the initial one times two to the number of retransmissions; a closed window is probed without backing off, and only exceeding the last attempt fails the stream |
| SenderProofs.WriteKeeps | util/tcp_minnow_socket_impl.hh:102-108 | writing and closing keep the sender's invariant |
| SenderRuns.EveryRunIsSound | src/tcp_sender.cc:21-226 | after every run of writes, pushes, ticks and arbitrary acknowledgements: the outstanding segments tile the numbers in flight, at most 65535, and quote the stream; the queue is empty exactly if all is acknowledged, else its oldest segment holds the acknowledged number; the timer runs exactly if the queue is not empty, below its timeout; both congestion windows are at least one MSS |
| SenderRuns.RunExtends | src/tcp_sender.cc:21-226 | over every such run nothing sent is taken back, no acknowledgement is forgotten, and nothing follows a FIN |
| Congestion.AvoidGrowsSlowly | src/tcp_sender.cc:139-151 | the growth for an acknowledgement, times the window before, is at most MSS times the bytes acknowledged |
| Congestion.AvoidGrowsEnough | src/tcp_sender.cc:139-151 | the growth is no less than that bound, measured at the window reached, but for less than one byte a segment acknowledged |
| Congestion.NewAckOpens | src/tcp_sender.cc:121-152 | a new acknowledgement opens the window by what it acknowledges below the threshold, by both bounds above it, not at all for the SYN alone, and leaves the threshold |
| Congestion.HeardGrows | src/tcp_sender.cc:110-176 | in congestion avoidance any message but a third or later duplicate grows the window by no more than that bound for what it newly acknowledges, and leaves the threshold alone |
| Congestion.GrowthOverRun | src/tcp_sender.cc:21-226 | the same bound, relative to the starting window, over every run of writes, pushes, ticks and arbitrary messages in which no loss is detected, that is without a timeout into an open window and without a third duplicate |
| Congestion.OneSegmentPerWindow | src/tcp_sender.cc:139-151 | over every such run, as long as no more than the starting window is acknowledged, the window opens by at most one MSS |
| Congestion.ThirdDuplicateResends | src/tcp_sender.cc:154-176 | exactly the third duplicate in a row arms the fast retransmit if it is not armed already, halves the window, and makes the next push resend the segment that contains the repeated number |
| LossRecovery.EventReacts | src/tcp_sender.cc:121-223 | what each event does to duplicate counter, threshold, congestion window and pending retransmit: duplicates one, two, three and later, new acknowledgements, timeouts, and nothing else |
| LossRecovery.TimerReacts | src/tcp_sender.cc:122-225 | the timer counts the time while something is outstanding, starts at zero when it fires or something new is acknowledged, doubles its timeout only against an open window, and is set back by new acknowledgements only |
| LossRecovery.CounterCounts | src/tcp_sender.cc:121-223 | over every run from a fresh sender the counter is the number of messages that repeated the acknowledged number while something was outstanding, since the last new acknowledgement or counted timeout |
| LossRecovery.ThirdDuplicateArms | src/tcp_sender.cc:21-171 | over every such run a fast retransmit is pending exactly from the third of these on until the next push; it halves the window, and that push begins with the segment that contains the repeated number |
| LossRecovery.ThreeInARow | src/tcp_sender.cc:153-171 | from any state without duplicates and with something outstanding, three repeated acknowledgements arm the fast retransmit and halve the window, and two do nothing |
| LossRecovery.NewAckForgives | src/tcp_sender.cc:121-130 | a new acknowledgement clears the count, so that two events after it cannot arm it |
| LossRecovery.TimeoutCollapses | src/tcp_sender.cc:202-224 | a retransmission into an open window that does not give up sets the window to one segment, the threshold to half the window or one segment, and the count to zero; any other tick leaves all three |
| LossRecovery.CollapsedUntilOpened | src/tcp_sender.cc:21-224 | over every run a window of one segment stays so exactly as long as nothing new but the SYN is acknowledged and no third duplicate arrives, and so long no more than one segment is in flight unless it was before |
| LossRecovery.TimeoutThrottles | src/tcp_sender.cc:202-224 | that is the case after every such timeout, for the following push and for every such run |
| TCPSenders.TCPSender.constructor | src/tcp_sender.hh:17-23 | the initial state |
| TCPSenders.TCPSender.MakeEmptyMessage | src/tcp_sender.cc:102-108 | an empty segment with the next number, and RST after an error |
| TCPSenders.TCPSender.Push | src/tcp_sender.cc:21-100 | the loop terminates, and transmits exactly the specification's segments with 32-bit numbers |
| TCPSenders.TCPSender.OpenWindow | src/tcp_sender.cc:142-151 | the loop in whole segments computes the congestion-avoidance window |
| TCPSenders.TCPSender.Release | src/tcp_sender.cc:178-187 | comparing unwrapped 32-bit numbers drops exactly the segments that are acknowledged in full |
| TCPSenders.TCPSender.Receive | src/tcp_sender.cc:110-200 | the new state is that of the specification for the acknowledgement read near the next number; numbers beyond it are ignored |
| TCPSenders.TCPSender.Tick | src/tcp_sender.cc:202-226 | never reads the front of an empty queue, and transmits and backs off as specified |
| ReceiverModel.SynAndResetAreNoted | src/tcp_receiver.cc:6-62 | over every run of arbitrary segments and reads: acknowledgements are sent exactly once a SYN has arrived, the first one fixes the zero point, and the reset flag is sent exactly once a reset has arrived or the inbound stream has failed |
| Following.InsertQuotes | src/reassembler.cc:11-50 | inserting a true quotation keeps output, pending bytes and end mark true to the sender's text |
| Following.AckWithinSent | src/tcp_receiver.cc:53-59 | the receiver acknowledges nothing that was not sent, and acknowledges FIN exactly when it holds and has closed the whole stream |
| Following.IndexIsMeant | src/tcp_receiver.cc:32-36 | unwrapping near the receiver's checkpoint yields the stream index that the sender meant |
| Following.ReceiveFollows | src/tcp_receiver.cc:6-40 | a truthful segment leaves the receiver knowing only true things about the sender's stream, whatever was lost or reordered before |
| Following.ReceiveAdvances | src/tcp_receiver.cc:6-40 | the segment that contains the expected number raises the acknowledgement if one byte fits |
| PeerModel.PushFacts | util/tcp_peer.hh:30 | everything a push transmits is truthful, carries the receiver's present acknowledgement, and clears the pending reply |
| PeerModel.TickFacts | util/tcp_peer.hh:31-35 | the same for a tick, which moves the clock and leaves the receiver alone |
| PeerModel.ReceiveFacts | util/tcp_peer.hh:50-83 | an active peer hands both halves on, pushes, answers whatever wants an answer, and drops lingering exactly when the inbound stream finished first |
| PeerModel.ReplyIsDue | util/tcp_peer.hh:50-83 | an active peer answers exactly the messages that occupy sequence numbers and keep-alives, with what there is to push or else with one empty segment at the next number, and everything it transmits acknowledges what it has received by then |
| PeerModel.ResetEndsConnection | util/tcp_peer.hh:50-83 | an active peer fails, and becomes inactive, exactly when a message resets either half; the newest window is used |
| TCPPeers.TCPPeer.constructor | util/tcp_peer.hh:89-104 | the initial state of sender, receiver and flags |
| TCPPeers.TCPPeer.Push | util/tcp_peer.hh:15-30 | the sender's messages leave dressed with acknowledgement and window, and clear the pending reply |
| TCPPeers.TCPPeer.Write | util/tcp_minnow_socket_impl.hh:102-119 | taking over bytes, closing at the end, and pushing are the specification's write step |
| TCPPeers.TCPPeer.Read | util/tcp_minnow_socket_impl.hh:139-148 | popping what the application took changes the inbound stream only |
| TCPPeers.TCPPeer.Tick | util/tcp_peer.hh:31-35 | state and retransmission after a tick |
| TCPPeers.TCPPeer.HasAckno | util/tcp_peer.hh:36 | an acknowledgement exists exactly once SYN was seen |
| TCPPeers.TCPPeer.Active | util/tcp_peer.hh:39-48 | active means no error, and unfinished business or lingering |
| TCPPeers.TCPPeer.Receive | util/tcp_peer.hh:50-83 | state and everything transmitted after an arriving message, inactive peers included |
| Network.AckIsMeant | src/tcp_sender.cc:117-118 | an arriving acknowledgement is read as the number its sender meant, and lies within what was sent |
| Network.ActsKeepsInv | util/tcp_peer.hh:13-105 | a peer that acts truthfully keeps the invariant of both directions |
| Network.StepKeepsInv | util/tcp_peer.hh:26-83 | every write, read, tick, failure or delivery at a peer keeps the invariant of the whole system |
| Network.StepExtends | util/tcp_peer.hh:26-83 | no step at a peer takes back anything sent, acknowledged or received |
| Network.InitialInv | util/tcp_peer.hh:89-104 | two fresh peers satisfy it |
| EndToEnd.EitherSide | util/tcp_peer.hh:13-105 | reachability is symmetric in the two peers |
| EndToEnd.PrefixSafety | src/tcp_sender.cc:21-200 | in every reachable state each side has received a prefix of what the other wrote, and sees it closed only when it has all of it |
| EndToEnd.OnlyWritingWrites | util/tcp_minnow_socket_impl.hh:102-119 | only a write at a side changes what that side has written, by appending what its buffer takes; nothing transmitted is taken back |
| EndToEnd.AckSoundness | src/tcp_sender.cc:115-187 | in every reachable state the acknowledged number is at most the receiver's and that at most the next one, and whatever left the retransmission queue has been assembled, FIN included |
| EndToEnd.CleanClose | util/tcp_peer.hh:39-83 | a peer that becomes inactive without an error has had its FIN acknowledged, the other side holds and has closed its whole stream, and it holds the other side's |
| EndToEnd.NobodyIsLeftWaiting | util/tcp_peer.hh:79-82 | a peer that leaves without lingering leaves nobody waiting: the other side's stream is fully acknowledged to it |
| EndToEnd.LingerEnds | util/tcp_peer.hh:39-48 | once both streams are done, a peer that hears nothing more is active for exactly ten timeouts after the last message if it lingers, else inactive at once, and leaves without an error |
| Progress.TimeoutRetransmits | src/tcp_sender.cc:202-226 | waiting for the timeout transmits the segment that contains the acknowledged number |
| Progress.DeafMeansLingeredOut | util/tcp_peer.hh:39-54 | while one side waits for an acknowledgement, the other is inactive exactly if it has sent and received everything and ten timeouts have passed since the last message |
| Progress.NobodyAnswers | util/tcp_peer.hh:50-54 | with an inactive receiver no fair round is possible |
| Progress.LastAttemptFails | src/tcp_sender.cc:211-218 | a timeout into an open window after the last attempt fails the stream, and the round acknowledges nothing |
| Progress.RoundAdvances | src/tcp_sender.cc:21-226 | from any error-free state with data in flight, a fair round is possible and acknowledges at least one more number if and only if the other peer is active and attempts are left or the window is closed; it then leaves both sides healthy, and leads to such a state or to one with everything acknowledged |
| Progress.ClosedStreamIsDelivered | src/tcp_sender.cc:21-226 | a closed stream of L bytes is delivered and acknowledged within L + 2 fair rounds, less the numbers acknowledged already, for every receive capacity of at least one, under that same condition; without it no number of rounds delivers it |
| Progress.FirstWriteIsReady | util/tcp_minnow_socket_impl.hh:102-119 | the first write on a fresh connection puts something in flight and leaves both sides healthy |
| Progress.ConnectionDelivers | src/tcp_sender.cc:21-226 | what is written on a fresh connection and closed is delivered and acknowledged within L + 2 fair rounds, for every receive capacity of at least one |
| LateAck.ReceiverCanBeGone | util/tcp_peer.hh:39-83 | a reachable state without any error, with equal clocks, in which one side's FIN is outstanding after three lost retransmissions, and the other side has received it and lingered out, so that no fair round is possible |
| LateAck.LastAttemptIsReached | src/tcp_sender.cc:202-218 | a reachable error-free state in which the other side is active and the next timeout gives up |
| Closing.CalmRound | util/tcp_peer.hh:39-83 | when both sides have closed, are healthy and have heard of each other within the linger time, a round in either direction advances it and keeps all of that |
| Closing.DeliveredStaysForever | src/tcp_receiver.cc:53-59 | a stream that is delivered and acknowledged in full stays so over every run |
| Closing.BothSidesClose | util/tcp_peer.hh:39-83 | from any such state there is a run of at most L + 2 and M + 2 fair rounds and the two linger times after which both streams are delivered and acknowledged and both peers are inactive without an error |
| Closing.ConnectionCloses | util/tcp_minnow_socket_impl.hh:102-119 | from a fresh connection on which both applications write and close there is such a run, after which each side has exactly what the other side's buffer took |
| RouterModel.ScanIsLongestMatch | src/router.cc:8-13 | the scan finds the most recent route among those of greatest prefix length that apply, and none exactly when none applies |
| RouterModel.PathsAgree | src/router.cc:20-29 | walking the same bits means agreeing in the shifted high-order bits |
| RouterModel.DeepestStep | src/router.cc:19-32 | adding a route changes the walk exactly as it changes the scan |
| RouterModel.DeepestIsScan | src/router.cc:50-69 | the route at the deepest node on the walk is the scan's |
| Routers.Router.constructor | src/router.hh:36-54 | an empty table and no interface |
| Routers.Router.AddInterface | src/router.hh:16-20 | appends an interface with an empty queue and returns its index |
| Routers.Router.AddRoute | src/router.cc:14-33 | grows the trie so that it represents the table with the route appended; an equal prefix is replaced |
| Routers.Router.Lookup | src/router.cc:50-69 | the walk returns the scan's longest-prefix match for every destination |
| Routers.Router.Route | src/router.cc:36-83 | everything sent, all queues left, and whether an unknown interface stopped the routing, are as specified for every table and queues, and settle the fate of every datagram in order |
| Forwarding.FateOfOne | src/router.cc:45-79 | a datagram is dropped exactly if its time to live is at most one or no route applies; else it leaves with one hop less, otherwise unchanged, by the interface of the most recent of the longest routes that apply, for that route's next hop, or for its destination if there is none |
| Forwarding.EveryFateIsSettled | src/router.cc:36-83 | for every table, all queues and any number of interfaces: in order, every datagram has that fate, once, up to the first whose route names no existing interface; that one is lost and what comes after is left |
| Forwarding.EachDatagramOnce | src/router.cc:38-81 | when routes name existing interfaces, all queues are emptied, and what leaves is the fate of each datagram, once and in order |
| InterfaceModel.SendKeeps | src/network_interface.cc:32-80 | no address is both resolved and waited for, and whoever waits has asked |
| InterfaceModel.ReceiveKeeps | src/network_interface.cc:83-137 | the same for arriving frames |
| InterfaceModel.TickKeeps | src/network_interface.cc:140-152 | the same for passing time, with no expired mapping left |
| InterfaceRuns.NothingLost | src/network_interface.cc:32-114 | for one event and hop, what waited and what is newly accepted is afterwards on the wire or waits, in that order; only a send that finds the request expired drops what waited |
| InterfaceRuns.EveryDatagramAccounted | src/network_interface.cc:32-114 | over whole runs the datagrams accepted for a hop split exactly into sent, dropped and waiting ones, each with one fate; the sent ones followed by the waiting ones keep the order of acceptance; every dropped one was accepted before a later send to that hop that found the request expired |
| InterfaceRuns.NothingIsLostUnlessExpired | src/network_interface.cc:52-78 | over every run, what was sent followed by what waits is exactly what was accepted, in order, if and only if nobody waits whenever a send finds the request for that hop expired |
| InterfaceRuns.SecondSendDrops | src/network_interface.cc:52-55 | a concrete run that loses a datagram: send, wait 5000 ms without an answer, send again |
| InterfaceRuns.RequestsAreSpaced | src/network_interface.cc:52-76 | over whole runs two requests for one address are at least 5000 ms apart |
| InterfaceRuns.CacheIsLatest | src/network_interface.cc:101-152 | over whole runs the cache holds the latest mapping heard, exactly while it is younger than 30000 ms |
| InterfaceRuns.FramesGoToLatest | src/network_interface.cc:32-114 | every IPv4 frame for a hop goes to the address in its latest ARP message, less than 30000 ms old, and comes from the interface's own |
| InterfaceReplies.RunIsAnswered | src/network_interface.cc:83-137 | over whole runs: the ARP replies transmitted are one for each request that reached the interface and asked for its address, in order and none else, each to the asker and with both addresses of both sides; and the datagrams received are exactly those of the IPv4 frames that reached it, in order |
| InterfaceReplies.RequestsAreMade | src/network_interface.cc:52-76 | over whole runs a request is transmitted exactly by a send whose next hop was not heard of for 30000 ms and not asked for in 5000 ms; it is broadcast and names the hop |
| InterfaceReplies.NothingElse | src/network_interface.cc:83-152 | an event that neither sends nor brings an ARP message to the interface transmits nothing |
| NetworkInterfaces.NetworkInterface.constructor | src/network_interface.cc:15-26 | empty tables |
| NetworkInterfaces.NetworkInterface.SendDatagram | src/network_interface.cc:32-80 | tables and frames after a send |
| NetworkInterfaces.NetworkInterface.ServePending | src/network_interface.cc:106-114 | the loop sends everything that waited, in order, and clears the queue |
| NetworkInterfaces.NetworkInterface.RecvFrame | src/network_interface.cc:83-137 | tables and frames after an arriving frame |
| NetworkInterfaces.NetworkInterface.Tick | src/network_interface.cc:140-152 | erasing entry by entry leaves exactly the mappings that have not expired |
| Checksums.SumConcat | util/checksum.hh:15-25 | cutting the data anywhere leaves the sum as it is, if the parity is carried over |
| Checksums.Fold | util/checksum.hh:27-36 | folding ends with 16 bits, keeps the remainder modulo 65535, and yields zero only for zero |
| Checksums.ComplementAccepts | util/checksum.hh:27-36 | adding the complement to a 32-bit sum never carries out of 32 bits and always gives an accepted sum |
| Checksums.InternetChecksum.constructor | util/checksum.hh:14 | starts from the given sum at an even position |
| Checksums.InternetChecksum.Add | util/checksum.hh:15-25 | adds the big-endian 16-bit words modulo 2^32, from either parity |
| Checksums.InternetChecksum.AddAll | util/checksum.hh:38-43 | adding chunk by chunk is adding the concatenation |
| Checksums.InternetChecksum.Value | util/checksum.hh:27-36 | the folding loop terminates with the complement of the folded sum |
| Buffers.ReadBack | util/parser.hh:72-112 | reading a number back from its big-endian bytes gives the number |
| Buffers.WriteBack | util/parser.hh:72-112 | writing a number read from bytes gives the bytes |
| Buffers.BufferList.constructor | util/parser.hh:24-34 | the list holds the concatenated chunks |
| Buffers.BufferList.RemovePrefix | util/parser.cc:16-28 | drops exactly that many bytes across chunks, or all |
| Buffers.BufferList.Buffer | util/parser.cc:87-100 | the views concatenate to what is left |
| Buffers.BufferList.DumpAll | util/parser.cc:70-85 | the chunks handed over concatenate to what was left |
| Buffers.Parser.constructor | util/parser.hh:61 | a parser without error over the chunks |
| Buffers.Parser.Integer | util/parser.hh:72-92 | reads the number across chunk boundaries; too few bytes or an earlier error leave the variable and the input alone and set the error |
| Buffers.Parser.ConcatenateAllRemaining | util/parser.cc:117-131 | returns all that is left in one piece |
| Buffers.Serializer.Integer | util/parser.hh:103-112 | appends the big-endian bytes |
| Buffers.Serializer.Flush | util/parser.cc:133-139 | moves gathered bytes to the output without changing the content |
| Buffers.Serializer.Buffer | util/parser.cc:141-155 | appends a chunk after everything gathered before |
| Buffers.Serializer.Finish | util/parser.cc:164-168 | returns chunks, none empty, that concatenate to all that was written |
| TCPSegments.FieldsOfEncoding | util/tcp_segment.cc:24-82 | every field of an encoded segment is decoded to what was encoded, both reset flags to their disjunction |
| TCPSegments.FieldBytes | util/tcp_segment.cc:67-82 | each field stands at its offset of section 3.1 of RFC 9293, most significant byte first |
| TCPSegments.RefusedExactly | util/tcp_segment.cc:12-59 | a datagram is refused exactly if its sum is not a positive multiple of 65535, or it is shorter than a header, or its data offset is less than five |
| TCPSegments.OptionsAreSkipped | util/tcp_segment.cc:51-58 | options between header and payload change nothing in the decoded segment |
| TCPSegments.ChecksumAdds | util/tcp_segment.cc:84-93 | the checksum field adds its own value to the sum |
| TCPSegments.RoundTrip | util/tcp_segment.cc:12-93 | for every segment and every pseudo-header sum, decoding the segment that carries its computed checksum returns it with merged reset flags |
| TCPSegments.OneByteErrorIsDetected | util/tcp_segment.cc:14-20 | changing one byte of an accepted datagram makes it refused, as long as the sums stay within 32 bits |
| TCPSegments.TCPSegment.Serialize | util/tcp_segment.cc:67-82 | appends the encoding |
| TCPSegments.TCPSegment.ComputeChecksum | util/tcp_segment.cc:84-93 | sets the checksum that cancels the sum of pseudo-header and segment, and nothing else |
| TCPSegments.TCPSegment.Parse | util/tcp_segment.cc:12-59 | reports an error exactly when the datagram is to be refused, and otherwise fills in the decoded segment |

## Left out

- Sockets, file descriptors, TUN and TAP devices, the event loop, threads and applications: input and output. Only the order in which the socket loop calls a peer is kept.
- LossyFdAdapter: its randomness is replaced by the network's freedom to lose, repeat and reorder.
- Address, DNS and `Ref`: an address is its 32-bit number, borrowed strings are values.
- Debug output, `to_string` and `pretty_print`: presentation.
- 64-bit overflow of byte counts, times, timeouts, `cwnd_` and `ssthresh_`: these are unbounded numbers here. Wrap-around is modelled where the protocol depends on it: sequence numbers, `unwrap`, stream indices and end marks in the Reassembler, checksum sums.
- Closing without a push when the local socket is shut down (util/tcp_minnow_socket_impl.hh:125-128): a closed stream then waits for the next arriving message; the runs here push after every close.
- Window deflation at the end of fast recovery (section 3.2 of RFC 5681, step 6): the code only resets the duplicate counter (src/tcp_sender.cc:130), and nothing more is claimed.
- That the sender respects the receiver's present right edge under reordering: the code takes the window of whatever message arrives last (src/tcp_sender.cc:113), so it does not.
- Streams that contradict themselves (FIN at two positions, data under the number of the SYN): the end-to-end theorems speak about messages that the modelled sender produced. The invariants of receiver, reassembler and sender hold for arbitrary messages.
- The checksum of an IPv4 header after forwarding (src/router.cc:48 lowers the time to live without recomputing it), and the refusal of frames that cannot be parsed (src/network_interface.cc:96 and 100 do not ask): datagrams and ARP messages arrive well formed.
- The fields of IPv4 and ARP headers that do not influence forwarding or resolution.
- `BufferList::truncate` and `Parser::string`: the segment codec uses neither.
- Buffers.Parser.constructor: requires that no chunk is empty, since reading a byte at an empty chunk is undefined in the program; `Serializer` makes no empty chunk.
- Buffers.BufferList.constructor: requires that no chunk is empty, for the same reason.
- Buffers.BufferList.DumpAll: says nothing about the list afterwards, whose strings have been moved away.
- ByteStreams.ByteStream.Pop: requires that no more is popped than is buffered; the program does not check it.
- TCPSenders.TCPSender.Receive: requires the next number to be below 2^64 - 2^32, from where `unwrap` can overflow.
- TCPSenders.TCPSender.Release: the same requirement, as it unwraps stored numbers near the next one.
- TCPPeers.TCPPeer.Receive: the same requirement on its sender.
- Routers.Router.AddRoute: requires a prefix length of at most 32; beyond that the program shifts by a negative amount.
