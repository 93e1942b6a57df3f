# Verified model of kcpss: the KCP transport, the Snappy codec, and the sessions on top

The program tunnels many byte streams ("sessions") over one reliable message transport, KCP, which runs over UDP
datagrams; the Snappy codec is built in with it. This project models those three parts in Dafny and proves what they
promise.

**KCP** (`depends/kcp`). `Kcp.dfy` states every operation of the control block as a function, over sequence numbers
that either wrap at 32 bits, as in the code, or never do. `ControlBlock.dfy` is the control block as an object,
updated in place in the loops of the code; each method is proved to compute its function, down to the bytes it puts
out. Its segments are nodes on four circular linked lists: `Queues.dfy` has the list operations and `SegmentLists.dfy`
the walks that compare numbers and link, unlink and move nodes.

`Connection.dfy` puts two endpoints on a network that is the collection of all datagrams ever sent: a step may deliver
any of them, at any time, any number of times, so loss, repetition, delay and reordering are all in it. `Channel.dfy`,
`Buffers.dfy` and `Connection.dfy` hold the invariant of such runs over unbounded numbers, and from it: delivery is a
prefix of what was sent, and nothing is lost by an acknowledgement. `Progress.dfy` and `Delivery.dfy` are about what
can still happen: from every reachable state, however much was lost and however closed the windows, everything can be
delivered. `Congestion.dfy` keeps the congestion window consistent, with `WideSegments.dfy` as the run that shows what
that depends on and `CongestionRuns.dfy` as the exact account of it; `Growth.dfy` says when it grows and by how much.

What each operation does is also said without its function: `Receiving.dfy` what `ikcp_recv` answers and when,
`FlowControl.dfy` how many fragments a flush numbers and what window is behind it, `Resending.dfy` which segments a
flush sends and when they are due again, `FastAcks.dfy` how skipped segments are counted, `Sampling.dfy` which
round-trip times reach the estimator, `Announcing.dfy` when the window is announced, and `Framing.dfy` how segments
and datagrams are laid out.

`ByteRuns.dfy` has the endpoints as they are, with numbers that wrap and datagrams of bytes. What it can say of all
its runs it says there and in `Datagrams.dfy` (every datagram fits and parses), `Acknowledgements.dfy` (each
acknowledgement goes out once), `CongestionRuns.dfy`, `TimingRuns.dfy` (flush pacing, round-trip times), and
`Probing.dfy` and `ProbeRuns.dfy` (window probes, with `ClosedWindow.dfy` as a run in which one goes out). `Wire.dfy`,
`Wrapping.dfy` and `Refinement.dfy` show that these runs are the wrapped images of unbounded ones as long as nothing
is half the ring late, `TimelyRuns.dfy` what the unbounded invariants then say in 32-bit words, `Lateness.dfy` what
the network has to do for that, and `Alike.dfy` exactly which late segments make a difference. `Simulation.dfy` drives
two control block objects through any run, and finds their lists whole at every point of it. `Timing.dfy` is about
clocks.

**Sessions** (`source/udp.cpp`, `source/codec.h`). `Session.dfy`, `Udp.dfy` and `NibbleCodec.dfy` cut writes into
framed messages, hand received messages to their sessions, and code and decode streams; the bytes of every session
survive the whole stack. `Exchange.dfy` drives two `udp` objects through any interleaving of calls.

**Snappy** (`depends/snappy`). `SnappyFormat.dfy` defines what a compressed stream stands for, one tag at a time
(sections 1, 2.1 and 2.2 of the Snappy compressed format description), and what the decoder makes of it. Every fast
routine is proved against a simple meaning: word-wise match lengths (`FindMatch.dfy`, `BitScan.dfy`), wide copies with
slop (`IncrementalCopy.dfy`), tags stored wider than they are (`Emit.dfy`), the hash-table compressor (`Search.dfy`,
`Compressor.dfy`), a decompressor that stitches tags together from chunks (`Decompressor.dfy`), and four writers
behind one contract (`Writers.dfy`). `Snappy.dfy` joins them: round trip, output bound, small output for input that
repeats itself, and independence of chunks and writers.

Conditions. Windows are below 2^16, the receive window is at least 128 and `mss` at least 1 (`Kcp.ValidCfg`); both
ends have the same conversation number. The network does not corrupt or forge. The host is little-endian, allocation
succeeds, and inputs to Snappy are shorter than 2^32 bytes. What is said of timely runs holds while no datagram
carries a number half the ring late (`Refinement.TimelyRun`); `Refinement.AncientAckIsTaken` shows why,
`Alike.DecidesAlike` what exactly goes wrong for a later one, and `Lateness.PromptIsTimely` that it is enough for
datagrams to be delivered within a billion segments, if at all.

Where the code and what is said about it differ, the model follows the code:

- The comment at depends/snappy/snappy.cc:194-196 says `IncrementalCopy` has to handle lengths other than 4 to 64.
  With plenty of slop it copies four blocks of 16 bytes and no more. `IncrementalCopy.Completes` is exactly when it
  does all of it, and `IncrementalCopy.LongCopyStops` a case in which it does not.
- A literal length field of 0xffffffff wraps to a length of 0 (depends/snappy/snappy.cc:854) and is accepted as an
  empty literal, where the format description has one of 2^32 bytes. `SnappyFormat.WrapIsAccepted` has the stream, and
  `Snappy.UncompressedIsDescribed` says exactly where decoder and description part. The compressor keeps to the
  description (`Snappy.RoundTrip`).
- The remark at depends/kcp/ikcp.c:1139-1141 reads as if `ikcp_update` should be called at the time `ikcp_check`
  returns; it may not flush then. `Timing.CheckAnswerMayNotFlush` is a case, `LateFlush.CheckedTooSoon` a run that
  leads to it, `Timing.CheckAnswerFlushes` says exactly when it flushes, and `Timing.CheckIsSafe` what can be relied
  on: before that time it would do nothing.
- The `incr` and `cwnd` of the congestion control agree only while windows fit a 32-bit word in bytes
  (`Congestion.WindowFits`; every `mss` that fits a UDP datagram meets it for `fastresend` up to 48).
  `WideSegments.WideRunBreaks` is a run in which they come apart; `Congestion.GrowCwndExactly` and
  `Congestion.AfterFlushExactly` say exactly which steps keep them together, and `CongestionRuns.BracketExactly` that
  a run is in order exactly as long as all of its steps do.
- The codec's word loops stop short of the last whole word (`i + 8 < size`, `i + 4 < size`); the byte loop does the
  rest.

## Model

| member | source | states |
|---|---|---|
| `Connection.DeliveryIsPrefix` | depends/kcp/ikcp.c:336-520 | In every run over a network that loses, repeats and reorders, and in both directions, the messages `ikcp_recv` has returned are a prefix of those `ikcp_send` accepted: same bytes, boundaries and order, each once |
| `Connection.NothingLost` | depends/kcp/ikcp.c:553-587 | In every run each number below `snd_nxt` is still in the sender's buffer, in the receiver's reordering buffer, or below the receiver's `rcv_nxt`; so an acknowledgement never deletes what the receiver lacks |
| `Connection.BuffersStaySorted` | depends/kcp/ikcp.c:543-707 | In every run, at either end, both buffers are strictly sorted and inside their windows, and the receive queue never exceeds the window |
| `Connection.RunInv` | depends/kcp/ikcp.c:723-1104 | The whole invariant (both directions: stream, windows, sortedness, no loss, packets in flight) holds after every run |
| `Connection.FlowStep` | depends/kcp/ikcp.c:723-1104 | One action at one end, whichever it is, keeps both directions of the invariant |
| `Connection.InputPacketKeeps` | depends/kcp/ikcp.c:764-830 | One segment that came from the peer keeps both directions, and moves `snd_una` and the received set only forward |
| `Connection.FlowFlush` | depends/kcp/ikcp.c:901-1104 | A flush keeps both directions, with every segment it sends added to what the network may deliver |
| `Connection.RecvReturnsNext` | depends/kcp/ikcp.c:336-410 | A successful `ikcp_recv` returns exactly the sender's next message, never part of one and never two joined |
| `Receiving.ReceivesExactly` | depends/kcp/ikcp.c:336-410 | In every run, for either side, `ikcp_recv` is -1 exactly when nothing is queued, -2 exactly when some fragment of the next message is missing, and -3 exactly when that is complete and longer than the buffer; otherwise it is the peer's next message, its length as the code, and it is added to what the user has |
| `Receiving.ReceivesExactly32` | depends/kcp/ikcp.c:336-410 | The same of the 32-bit program, in every timely run |
| `Receiving.RecvExactly` | depends/kcp/ikcp.c:336-410 | From any queue: the three errors, each exactly when, and no change; else the bytes of the head message, which leaves the queue unless only peeked at, everything behind it staying in order |
| `Receiving.RecvAnnounces` | depends/kcp/ikcp.c:373-407 | The peer is to be told of the window exactly when a successful receive found the queue full and left it with room |
| `Connection.HeadMessage` | depends/kcp/ikcp.c:418-443 | The receive queue starts at a message boundary; `ikcp_peeksize` succeeds exactly when the whole next message is queued, and then its size and bytes are that message's |
| `Connection.FullQueueHasMessage` | depends/kcp/ikcp.c:418-443 | A receive queue that is full holds a complete message, because no message has 128 fragments or more |
| `Progress.NoDeadlock` | depends/kcp/ikcp.c:764-822 | From every reachable state with data outstanding, in either direction, either the receiver's user has a message to take, or some datagram already sent, delivered, acknowledged and answered, strictly advances `snd_una` |
| `Progress.RoundTripAdvances` | depends/kcp/ikcp.c:764-822 | With room in the queue: deliver a datagram with the oldest segment, flush the peer, deliver its ack; `snd_una` goes up |
| `Progress.RunSendsAll` | depends/kcp/ikcp.c:1019-1074 | In every run each outstanding segment has been put on the wire at least once |
| `Progress.WindowsHold` | depends/kcp/ikcp.c:991-1013 | In every run and either direction `rcv_nxt <= snd_nxt <= rcv_nxt + rcv_wnd + snd_wnd`, `snd_nxt <= snd_una + snd_wnd`, and `snd_una <= rcv_nxt` whenever the receive queue has room |
| `Channel.Windows` | depends/kcp/ikcp.c:804-821 | The same window relations for one direction, from the invariant of that direction |
| `Channel.CutShape` | depends/kcp/ikcp.c:486-518 | Fragments of a message joined give it back; their `frg` fields count down to 0; every one but the last has exactly `mss` bytes, the last is empty only for an empty message, and there are as few of them as hold the message |
| `Channel.SendExactly` | depends/kcp/ikcp.c:448-520 | A message is accepted exactly when it has at most `127 * mss` bytes, and refused with -2 and no change otherwise; what is queued is that message, in full pieces but for the last, and as few of them as will hold it |
| `FlowControl.FlushNumbersExactly` | depends/kcp/ikcp.c:986-1013 | From any state: a flush numbers fragments in order, each fewer than the smallest of `snd_wnd`, `rmt_wnd` and (but for `nocwnd`) `cwnd` past `snd_una`, and leaves one queued only when the next number would not be |
| `FlowControl.FlushesInWindow` | depends/kcp/ikcp.c:986-1013 | In every run of the 32-bit program, for either side: a flush numbers a fragment only inside the window last advertised by the peer, its own `snd_wnd`, and `cwnd` unless that is off, and stops only at the edge of these or with nothing queued |
| `FlowControl.RunFlows` | depends/kcp/ikcp.c:767-838 | In every run, however late its datagrams, `rmt_wnd` is the window in the last segment taken in, 128 before the first, and what is outstanding is consecutive numbers, at most `snd_wnd` of them |
| `FlowControl.AdvertisesRoom` | depends/kcp/ikcp.c:911-938 | In every run each segment put out, of whatever kind, advertises exactly the free places of the receive queue and acknowledges everything below `rcv_nxt` |
| `Channel.ApplyUnaKeeps` | depends/kcp/ikcp.c:574-587 | A cumulative ack not above the receiver's `rcv_nxt` keeps the sending half and loses nothing |
| `Channel.ApplyAckKeeps` | depends/kcp/ikcp.c:553-572 | An ack for a number the receiver holds keeps the sending half and loses nothing |
| `Channel.FillWindowKeeps` | depends/kcp/ikcp.c:991-1013 | Numbering queued fragments gives each the number of its place in the stream, and stays in the window |
| `Channel.ParseDataKeeps` | depends/kcp/ikcp.c:660-707 | A fragment inside the window is held afterwards, nothing held is dropped, and the queue stays the contiguous piece of the stream that follows what was taken |
| `Channel.InputPushKeeps` | depends/kcp/ikcp.c:804-822 | A data segment, old, new or beyond the window, keeps the receiving half; it is acknowledged when before the end of the window |
| `Channel.MoveReadyKeeps` | depends/kcp/ikcp.c:391-403 | Moving segments to the receive queue keeps the stream contiguous and leaves none behind that could move |
| `Buffers.DropBelowIsFilter` | depends/kcp/ikcp.c:574-587 | `ikcp_parse_una`, which stops at the first segment it keeps, removes exactly the segments below `una` |
| `Buffers.RemoveAckIsRemoval` | depends/kcp/ikcp.c:553-572 | `ikcp_parse_ack`, which stops at the first larger number, removes exactly the acknowledged number |
| `Buffers.InsertSegIsSetInsert` | depends/kcp/ikcp.c:660-693 | The backward scan of `ikcp_parse_data` is insertion into a sorted set; a repeated number changes nothing, the first copy stays |
| `Buffers.BumpFastackKeepsShape` | depends/kcp/ikcp.c:589-609 | Counting skipped segments changes no number and no bytes |
| `Buffers.FlushBufPackets` | depends/kcp/ikcp.c:1019-1074 | Everything a flush sends carries the number, `frg` and bytes of a buffered segment, and the current `una`, window and time |
| `Wire.HeaderRoundTrip` | depends/kcp/ikcp.c:879-889 | Decoding a segment header undoes encoding it, whatever bytes follow |
| `Wire.InputOfEncoded` | depends/kcp/ikcp.c:735-842 | `ikcp_input` parses a packed datagram with return value 0 into exactly the packed segments, in order |
| `Wire.PackFlattens` | depends/kcp/ikcp.c:926-1080 | Packing into datagrams loses, repeats and reorders no segment |
| `Wire.PackFits` | depends/kcp/ikcp.c:1055-1080 | No datagram is empty or larger than the mtu, if no single segment is |
| `Framing.HeaderLayout` | depends/kcp/ikcp.c:879-889 | Each header field stands little-endian at its offset, cut to its width: conv 0, cmd 4, frg 5, wnd 6, ts 8, sn 12, una 16, len 20 |
| `Framing.PacksTight` | depends/kcp/ikcp.c:926-938 | A datagram is closed only when the next segment would not fit it |
| `Framing.InputStops` | depends/kcp/ikcp.c:735-764 | What the four exits of the loop return, after any good segments: 0, -1 without any segment or for a foreign conversation, -2 for data cut short, -3 for an unknown command; the good segments stay applied |
| `Serial.SnDiffWraps` | depends/kcp/ikcp.c:126-128 | For numbers less than half the ring apart, `_itimediff` of the wrapped numbers is the true difference, and equal words mean equal numbers (section 3.2 of RFC 1982) |
| `Serial.TimeDiffOfWrapped` | depends/kcp/ikcp.c:126-128 | `_itimediff` of wrapped numbers is the signed 32-bit reading of their true difference, for all numbers |
| `Wrapping.ApplyUnaWraps` | depends/kcp/ikcp.c:543-587 | On 32-bit numbers the una scan makes the decisions it makes on unbounded ones, for any `una` at most 2^31 behind |
| `Wrapping.ApplyAckWraps` | depends/kcp/ikcp.c:553-572 | So do the guard and the scan of `ikcp_parse_ack` |
| `Wrapping.ParseFastackWraps` | depends/kcp/ikcp.c:589-609 | So does `ikcp_parse_fastack` |
| `Wrapping.InsertSegWraps` | depends/kcp/ikcp.c:670-693 | So does the backward scan of `ikcp_parse_data` |
| `Wrapping.InputPushWraps` | depends/kcp/ikcp.c:804-822 | So do the two window tests of an incoming data segment and all that follows them |
| `Wrapping.MoveReadyWraps` | depends/kcp/ikcp.c:391-403 | So does moving segments to the receive queue |
| `Wrapping.InputPacketWraps` | depends/kcp/ikcp.c:764-830 | So does one whole turn of the loop of `ikcp_input` |
| `Wrapping.FlushWraps` | depends/kcp/ikcp.c:901-1104 | A 32-bit flush sends the wrapped image of what the unbounded one sends, and leaves the wrapped image of its state |
| `Wrapping.RecvWraps` | depends/kcp/ikcp.c:336-410 | `ikcp_recv` returns the same at both widths |
| `Refinement.Refines` | depends/kcp/ikcp.c:126-128 | Every run of the 32-bit program over byte datagrams is the wrapped image of the same run with unbounded numbers, as long as no number arrives half the ring late |
| `Refinement.DeliveryIsPrefix32` | depends/kcp/ikcp.c:336-520 | The delivery promise for the program as it is: 32-bit numbers, byte datagrams |
| `TimelyRuns.NothingLost32` | depends/kcp/ikcp.c:553-587 | In every timely run of the 32-bit program, going on from the word the receiver waits for, each word up to the sender's next is that of a segment in the sender's buffer or the receiver's, and there are at most two windows of them |
| `TimelyRuns.BuffersStaySorted32` | depends/kcp/ikcp.c:543-707 | In every such run both buffers of either side are strictly ordered by the serial comparison and inside their windows, also where numbers wrap |
| `TimelyRuns.WindowsHold32` | depends/kcp/ikcp.c:991-1013 | The window relations, by words and serial comparison |
| `TimelyRuns.NoDeadlock32` | depends/kcp/ikcp.c:764-822 | After every such run with data outstanding, in either direction, either the receiver's user has a message to take or there is a way to go on, sending no message and delivering nothing late, that moves `snd_una` forward |
| `ByteRuns.DatagramsFit` | depends/kcp/ikcp.c:926-1080 | In every run of the 32-bit program, however late datagrams arrive, each datagram is nonempty and at most `mtu` bytes |
| `ByteRuns.DatagramsParse` | depends/kcp/ikcp.c:735-842 | In every such run each datagram holds the segments its flush packed into it, and a block of the same conversation, in any state, parses it with return value 0 into exactly those segments, in order |
| `ByteRuns.RunSound` | depends/kcp/ikcp.c:723-1104 | In every such run, for both ends: all a flush reads fits the header (`frg` because `count < 128`), and every datagram put out is one that fits and parses |
| `Datagrams.FlushParses` | depends/kcp/ikcp.c:901-1080 | From any state whose fields fit, every datagram of a flush fits the mtu and parses |
| `Datagrams.InputSound` | depends/kcp/ikcp.c:723-874 | Whatever bytes come in, well-formed or not, that keeps the state one whose fields fit |
| `Datagrams.ParsesMeans` | depends/kcp/ikcp.c:735-842 | What it means for a datagram to parse: any block of the conversation returns 0 and does what the segments, in order, call for |
| `Refinement.RunFits` | depends/kcp/ikcp.c:448-520 | The same for the unbounded program, with windows and times that are words |
| `Refinement.AncientAckIsTaken` | depends/kcp/ikcp.c:553-572 | Why lateness has to be bounded: an ack a whole ring old is ignored by the unbounded program and removes a live segment in the 32-bit one |
| `Alike.DecidesAlike` | depends/kcp/ikcp.c:553-707 | In every reachable state, for every segment the peer has put out, however late it comes: its `una`, its acknowledgement and its data are each handled alike at 32 bits and with unbounded numbers if and only if a condition on the number and the block's own edges holds |
| `Alike.PacketsAlike` | depends/kcp/ikcp.c:764-822 | A whole segment, however late, has the same effect at both widths whenever each of its numbers meets its condition |
| `Alike.InFlightExactly` | depends/kcp/ikcp.c:553-557 | The guard of `ikcp_parse_ack` agrees at the two widths exactly when the number is outstanding or its residue is that of none that is |
| `Alike.ParseAckExactly` | depends/kcp/ikcp.c:553-572 | An acknowledgement removes the same segment, or none, at the two widths if and only if its number is outstanding or the buffer lacks the number with its residue |
| `Alike.ApplyUnaExactly` | depends/kcp/ikcp.c:543-587 | A cumulative acknowledgement does the same if and only if it is not behind `snd_una`, nothing is outstanding, or it is seen behind |
| `Alike.InputPushExactly` | depends/kcp/ikcp.c:660-707 | A data segment does the same if and only if it is not behind `rcv_nxt`, is seen behind both window edges, or has the residue of one already held |
| `Lateness.PromptIsTimely` | depends/kcp/ikcp.c:126-128 | If no datagram is delivered more than 2^30 - 2^18 segments after it was put out, the run is timely, although late data may have been acknowledged late again |
| `Delivery.PossibleDelivery` | depends/kcp/ikcp.c:336-1135 | From every reachable state there is a way to go on, sending nothing new, after which both users have received everything; it needs no late datagram |
| `Delivery.PossibleDelivery32` | depends/kcp/ikcp.c:336-1135 | The same for the 32-bit program after any timely run |
| `Delivery.WindowReopens` | depends/kcp/ikcp.c:940-983 | From every reachable state with nothing outstanding, fragments waiting and room at the receiver, the next fragment can be numbered, though the window was last seen closed: the peer is asked, and answers |
| `Delivery.Acked` | depends/kcp/ikcp.c:1028-1037 | Letting the resend time of the oldest segment come, and delivering it and the ack that answers it, advances `snd_una` |
| `Delivery.Reopened` | depends/kcp/ikcp.c:940-1013 | The same for a closed window: probe, window announcement, and the fragment is numbered |
| `Probing.ProbesStayOk` | depends/kcp/ikcp.c:940-983 | In every run of the 32-bit program, for both ends: between calls no question is pending, and the wait is 0 or between 7 and 120 seconds |
| `Probing.FlushAsks` | depends/kcp/ikcp.c:961-983 | A flush asks the peer for its window exactly when the schedule says so, and leaves no question pending |
| `Probing.ProbeStep` | depends/kcp/ikcp.c:940-959 | One flush: a closed window schedules a question 7 seconds on; one is asked only when its time has come, and puts the next off by half as long again, up to 120 seconds |
| `Probing.ProbesArePaced` | depends/kcp/ikcp.c:940-959 | Whatever the peer advertises meanwhile, `n` questions take at least `n` times 7 seconds |
| `Probing.ProbesBackOff` | depends/kcp/ikcp.c:940-959 | While the peer has no room, `n` questions take at least the first `n` of the growing waits |
| `ProbeRuns.AsksArePaced` | depends/kcp/ikcp.c:940-983 | In every run of the 32-bit program whose clock does not go back, `n` WASK segments in a side's datagrams take at least `n` times 7 seconds from its first flush to its last |
| `ProbeRuns.AsksBackOff` | depends/kcp/ikcp.c:940-983 | While the peer goes on advertising no room, from the first flush that finds none, the WASK segments put out take at least the first of the growing waits, as many as there are of them |
| `ClosedWindow.QuestionIsReached` | depends/kcp/ikcp.c:940-983 | A run from the start that gets there: 128 messages the user does not take close the window, and 7 seconds after the first flush that finds it closed one WASK segment goes out, which is as early as the bound allows |
| `ProbeRuns.AsksAreScheduled` | depends/kcp/ikcp.c:940-983 | In every run the WASK segments put out are as many as the schedule, taken through the run's flushes in turn, asks; and the schedule is where that leaves it |
| `ProbeRuns.FlushAsksOnce` | depends/kcp/ikcp.c:961-969 | A flush puts out one WASK segment when the schedule says so and none otherwise |
| `Announcing.StepAnnounces` | depends/kcp/ikcp.c:824-828 | An action that flushes puts out one WINS segment exactly when one was owed, and leaves none owed; any other leaves one owed exactly when it was, a WASK was taken in, or a receive made room in a full queue |
| `ProbeRuns.FlushTellsOnce` | depends/kcp/ikcp.c:971-983 | A flush puts out one WINS segment when one is owed and none otherwise |
| `Acknowledgements.AcksGoOutOnce` | depends/kcp/ikcp.c:926-938 | In every run of the 32-bit program, the acks on the wire followed by the acks pending are exactly those the arrived data segments called for, each once, in push order |
| `Acknowledgements.FlushSendsAcks` | depends/kcp/ikcp.c:926-938 | A flush turns the pending acks, in order, into ack segments and keeps none |
| `Acknowledgements.InputLoopOwes` | depends/kcp/ikcp.c:735-842 | Of any bytes, the acks added are those the segments in them call for, up to the first bad header |
| `Acknowledgements.InputPacketOwes` | depends/kcp/ikcp.c:804-806 | At either width, a data segment before the end of the window adds exactly one ack; nothing else adds any |
| `Congestion.CongestionHolds` | depends/kcp/ikcp.c:848-871 | In every run `(cwnd-1)*mss < incr < (cwnd+1)*mss`, `ssthresh >= 2`, for segments small enough that a window of them fits 32 bits |
| `Congestion.GrowCwndKeeps` | depends/kcp/ikcp.c:848-871 | Growth keeps that bracket, the guard `incr < mss` never fires in congestion avoidance, and a window that grew is not above `rmt_wnd` |
| `Congestion.AvoidanceKeeps` | depends/kcp/ikcp.c:855-864 | Congestion avoidance: the ceiling division gives a window whose byte bracket holds again, one to three segments up at most |
| `Congestion.AfterFlushKeeps` | depends/kcp/ikcp.c:1082-1103 | The end of a flush, after a timeout, a fast retransmission, both or neither, restores the bracket and `ssthresh >= 2` |
| `Congestion.GrowCwndExactly` | depends/kcp/ikcp.c:848-871 | From any state that meets the bracket, for any segment size, one step of growth keeps it if and only if none of the words that decide it overflows |
| `Congestion.AfterFlushExactly` | depends/kcp/ikcp.c:1082-1103 | The end of a flush keeps the bracket if and only if there was a timeout, no fast retransmission, or the window it sets fits 32 bits in bytes |
| `Congestion.WideSegmentsWrap` | depends/kcp/ikcp.c:855-864 | Without the size condition it fails: a concrete state with segments of almost 2^31 bytes in which the byte count wraps |
| `CongestionRuns.BracketExactly` | depends/kcp/ikcp.c:723-1135 | In every run of the 32-bit program, for any segment size and lateness, all of a side's states have `incr` within a segment of `cwnd` if and only if none of its steps overflowed a word that decides them; the first step that does leaves the bracket broken |
| `CongestionRuns.StepExactly` | depends/kcp/ikcp.c:723-1135 | One action of any kind, from a state in the bracket, keeps it if and only if it meets the condition of its kind |
| `WideSegments.WideRunBreaks` | depends/kcp/ikcp.c:848-871 | That state is reached: a run of two messages and their acks after which window and byte count have come apart |
| `Timing.Pacing` | depends/kcp/ikcp.c:1111-1135 | After a flush at `ta`, the first of a block or a later one, `n` more flushes by `tb` need `(n-1)*interval < tb - ta`, for any non-decreasing calls |
| `Timing.PacingFromStart` | depends/kcp/ikcp.c:218-279 | The first call flushes, and `n` flushes since the block was made take more than `n - 2` intervals |
| `TimingRuns.UpdatesArePaced` | depends/kcp/ikcp.c:1111-1135 | In every run of the 32-bit program whose clock does not go back, any two flushes that `ikcp_update` makes for a side are further apart than one interval for each flush between them |
| `TimingRuns.DueAreCalls` | depends/kcp/ikcp.c:1111-1135 | For a side that flushes only through `ikcp_update` these are all of its flushes |
| `Timing.FlushesArePaced` | depends/kcp/ikcp.c:1121-1134 | Over any non-decreasing calls each flush moves the next flush time up by at least the interval |
| `Timing.TickPace` | depends/kcp/ikcp.c:1121-1134 | One call flushes only once the flush time has come, and then sets it one interval later or one interval after now |
| `Timing.CheckIsSafe` | depends/kcp/ikcp.c:1146-1182 | With no call in between, `ikcp_update` at any time before the answer of `ikcp_check` neither flushes nor finds a segment due |
| `Timing.CheckAnswerFlushes` | depends/kcp/ikcp.c:1111-1182 | Called at the time `ikcp_check` answered, `ikcp_update` flushes if and only if it was never called, a flush was overdue, the clock was far off, or the next flush comes no later than any resend time and within an interval |
| `Timing.CheckAnswerMayNotFlush` | depends/kcp/ikcp.c:1111-1182 | A state in which it does not: a segment is to be resent before the next flush |
| `LateFlush.CheckedTooSoon` | depends/kcp/ikcp.c:1111-1182 | A run from the start that gets there: a segment sent by a late flush is to be resent 40 ms before the next flush, `ikcp_check` answers with that time, and `ikcp_update` then puts nothing out |
| `Timing.ResendWaitBounds` | depends/kcp/ikcp.c:1167-1175 | The scan of `ikcp_check` reports Due exactly when some resend time has come, else a wait that is positive and no longer than any of them |
| `Timing.EstimatesStayBounded` | depends/kcp/ikcp.c:525-541 | Over any samples in `[0, R]`, `R < 2^28`, `rx_srtt` and `rx_rttval` stay in `[0, R]` and `rx_rto` in `[rx_minrto, 60000]` |
| `TimingRuns.EstimatesHold` | depends/kcp/ikcp.c:525-541 | In every run of the 32-bit program in which no acknowledgement delivered to a side carries a time more than `R` ms before its clock, `rx_srtt` and `rx_rttval` stay in `[0, R]` in all of its states, and `rx_rto` is the first one or in `[rx_minrto, 60000]` |
| `Timing.UpdateAckIsEstimate` | depends/kcp/ikcp.c:525-541 | No 32-bit operation overflows: the machine estimator is that of sections 2.2 and 2.3 of RFC 6298 with G = `interval` |
| `Sampling.RttIsSampled` | depends/kcp/ikcp.c:769-771 | In every run of the 32-bit program the estimator holds what `ikcp_update_ack` makes of one sample per acknowledgement segment taken in, in order: the time since its time stamp, unless that lies ahead; nothing else touches it |
| `Sampling.RttIsEstimated` | depends/kcp/ikcp.c:525-541 | When acknowledgements are fresh enough for no word to overflow, those are the estimates of RFC 6298 over all the samples of the run |
| `Sampling.InputSampled` | depends/kcp/ikcp.c:723-874 | Of any bytes: the samples are those of the acknowledgement segments in them, up to the first bad header |
| `Timing.TickExactly` | depends/kcp/ikcp.c:1111-1135 | A call flushes if and only if it is the first, the flush time has come, or the clock is more than 10 seconds behind that time; the next is then due one interval after that time, or after now when that has passed too or the clock is 10 seconds off, and else stays due when it was |
| `Timing.CheckIsTight` | depends/kcp/ikcp.c:1146-1182 | The answer of `ikcp_check` is no earlier than it must be: it is now if a flush or a resend is due or the clock is off, and else one interval on, the flush time, or the resend time of some segment, whichever is soonest |
| `Resending.FlushesExactly` | depends/kcp/ikcp.c:1015-1103 | In every run of the 32-bit program, segment by segment: a flush sends one if and only if it is new, its resend time has come, or `fastresend` acknowledgements passed it over (and `fastlimit` allows); a timeout adds `rx_rto` to its `rto`, or half of that with `nodelay`, and each send puts off the next by the rule of its kind; the others stay as they are. The data segments put out are these, in order; the link is given up exactly at the `dead_link`-th send; after a timeout `cwnd` is 1, after a fast resend half of what is in flight plus the resend count |
| `Resending.FlushExactly` | depends/kcp/ikcp.c:901-1104 | The same of one flush from any state, at either width of numbers |
| `Resending.DueIsSent` | depends/kcp/ikcp.c:1053-1069 | A segment that is due is on the wire |
| `FastAcks.SkipsCounted` | depends/kcp/ikcp.c:589-609 | In every run, each segment that a datagram leaves in the send buffer was there before, and counts one more skip exactly when some acknowledgement in the datagram is for a later number |
| `FastAcks.TracksHighest` | depends/kcp/ikcp.c:773-803 | What is passed on to `ikcp_parse_fastack` is the highest number acknowledged in the datagram |
| `Growth.InputGrows` | depends/kcp/ikcp.c:838-871 | A datagram that moves `snd_una` while `cwnd` is below the peer's window makes one step of growth, and any other none: one segment below the threshold; from there on the byte count grows by a segment's share of the window and a sixteenth, and `cwnd` to what holds it, up to the peer's window |
| `ControlBlock.ControlBlock.constructor` | depends/kcp/ikcp.c:218-279 | A fresh block is the initial value, its output empty |
| `ControlBlock.ControlBlock.Send` | depends/kcp/ikcp.c:448-520 | Returns and queues, in place, what the specification does, which `Channel.SendExactly` pins: -2 without any change for a message over `127 * mss` bytes, else its fewest fragments |
| `ControlBlock.ControlBlock.PeekSize` | depends/kcp/ikcp.c:418-443 | -1 unless a whole message is at the head; else its size |
| `ControlBlock.ControlBlock.Recv` | depends/kcp/ikcp.c:336-410 | Walks, joins and unlinks in place to the result of the specification, which `Receiving.RecvExactly` pins: the three error codes and exactly when, or the message, its fragments taken off unless peeking |
| `ControlBlock.ControlBlock.UpdateAck` | depends/kcp/ikcp.c:525-541 | The new estimator state, with truncating division and 32-bit clamping as written |
| `ControlBlock.ControlBlock.ParseUna` | depends/kcp/ikcp.c:574-587 | The send half is what the specified scan leaves, the receive half what it was |
| `ControlBlock.ControlBlock.ParseAck` | depends/kcp/ikcp.c:553-572 | The guard, and the walk behind it, leave the specified send half, and the receive half as it was |
| `ControlBlock.ControlBlock.ParseFastack` | depends/kcp/ikcp.c:589-609 | The guard, and the walk that counts in place behind it, leave the specified send half |
| `ControlBlock.ControlBlock.AckPush` | depends/kcp/ikcp.c:614-648 | Appends one pair to the ack list, in an array that doubles when it is full, and keeps all earlier ones |
| `ControlBlock.ControlBlock.ParseData` | depends/kcp/ikcp.c:660-707 | Window test, insertion and moving to the receive queue, in place, compute the specification |
| `ControlBlock.ControlBlock.MoveReady` | depends/kcp/ikcp.c:391-403 | The loop that moves segments between the two lists computes the specification, and keeps the counters at the lengths |
| `ControlBlock.ControlBlock.InputPacket` | depends/kcp/ikcp.c:764-838 | One turn of the loop, in place: window, una, then what the command calls for; the window is pinned by `FlowControl.RunFlows`, the sample by `Sampling.PacketSampled`, acks by `Acknowledgements.InputPacketOwes` |
| `ControlBlock.ControlBlock.GrowCwnd` | depends/kcp/ikcp.c:849-870 | Slow start, congestion avoidance and the cap, on wrapping 32-bit words |
| `ControlBlock.ControlBlock.Input` | depends/kcp/ikcp.c:723-874 | Parsing bytes in a loop with its four exits computes the specification, state and return code, which `Framing.InputStops`, `Sampling.InputSampled` and `Acknowledgements.InputLoopOwes` pin; segments before a bad one stay applied |
| `ControlBlock.ControlBlock.FlushAcks` | depends/kcp/ikcp.c:926-936 | The pending acks go out in order, a datagram leaving whenever the next would not fit |
| `ControlBlock.ControlBlock.ScheduleProbe` | depends/kcp/ikcp.c:940-959 | The schedule changes as `ProbeWindow` says, which `Probing` shows to be: 7 seconds, then half as long again up to 120, one question for each wait |
| `ControlBlock.ControlBlock.FillWindow` | depends/kcp/ikcp.c:990-1013 | The loop that moves queued fragments into the send buffer computes the specification |
| `ControlBlock.ControlBlock.Prepare` | depends/kcp/ikcp.c:1023-1053 | Which of the three causes, if any, sends a segment now, and the segment as it is sent |
| `ControlBlock.ControlBlock.FlushData` | depends/kcp/ikcp.c:1019-1074 | The loop over the send buffer: new contents, datagrams, loss, fast retransmission and counters |
| `ControlBlock.ControlBlock.Settle` | depends/kcp/ikcp.c:1082-1103 | The congestion state at the end of a flush |
| `ControlBlock.ControlBlock.Flush` | depends/kcp/ikcp.c:901-1104 | A flush leaves the specified state and has put out the specified segments, packed into datagrams in one reused buffer; `FlowControl.FlushNumbersExactly` and `Resending.FlushExactly` say what these are without naming the specification |
| `ControlBlock.ControlBlock.Update` | depends/kcp/ikcp.c:1111-1135 | `ikcp_update`: the clock, and a flush when one is due |
| `ControlBlock.ControlBlock.Check` | depends/kcp/ikcp.c:1146-1182 | `ikcp_check` returns the specified time |
| `ControlBlock.EncodeHeader` | depends/kcp/ikcp.c:879-889 | Writes the eight header fields, in order and little-endian, and leaves the bytes before them alone |
| `Simulation.Simulate` | depends/kcp/ikcp.c:723-1135 | Two objects driven by any run are at every step what the byte-level model says, and so deliver prefixes as long as no number is half the ring late |
| `Simulation.Drive` | depends/kcp/ikcp.c:218-1182 | Two objects driven by any run end in the states of the 32-bit byte model; and there, for each of them, the four linked lists that all of the run's walks, links and unlinks have left are whole rings of as many segments as their counters say, with no node on two |
| `Queues.Add` | depends/kcp/ikcp.h:157-161 | Four assignments put a node after any node of a ring: a ring again, `next` and `prev` inverse |
| `Queues.AddTail` | depends/kcp/ikcp.h:163-167 | The same before the head, which makes it the last |
| `Queues.Del` | depends/kcp/ikcp.h:171-175 | Unlinking leaves a ring without the node, and the node without links |
| `Queues.IsEmpty` | depends/kcp/ikcp.h:183 | The head is its own successor exactly when it is alone |
| `Queues.Queue.Push` | depends/kcp/ikcp.c:999-1001 | Appends to a list and its counter |
| `Queues.Queue.InsertAfter` | depends/kcp/ikcp.c:682-685 | Links a node in after the k-th segment, as `iqueue_add(&newseg->node, p)` does, with the counter |
| `Queues.Queue.Unlink` | depends/kcp/ikcp.c:561-565 | Takes the node of the k-th segment off the list and the counter; the others keep their order, and the node is no longer the list's |
| `Queues.Queue.Set` | depends/kcp/ikcp.c:1033-1061 | Assigns to a segment's fields where it is on its list, and to no other's |
| `Queues.Transfer` | depends/kcp/ikcp.c:697-703 | Unlinks the first segment of one list and makes it the last of another; between them they keep the nodes they had |
| `Queues.Queue.IsCircular` | depends/kcp/ikcp.h:157-191 | A list is one ring: `next` and `prev` lead round it in opposite directions, only the head is no segment, and the counter is the number of segments |
| `SegmentLists.Segments.IsWellLinked` | depends/kcp/ikcp.c:218-279 | The four lists of a block are such rings, and no node is on two of them or twice on one |
| `SegmentLists.Segments.ParseUna` | depends/kcp/ikcp.c:574-587 | Unlinks nodes from the front of `snd_buf` while their number is below `una`: the specified scan, the other three lists untouched |
| `SegmentLists.Segments.RemoveAck` | depends/kcp/ikcp.c:559-571 | Walks `snd_buf` comparing `sn`, unlinks the node it stops at on equality, and gives up at the first larger number |
| `SegmentLists.Segments.BumpFastack` | depends/kcp/ikcp.c:595-608 | Walks `snd_buf` and counts in place in every segment it passes |
| `SegmentLists.Segments.FindSlot` | depends/kcp/ikcp.c:670-680 | Walking `rcv_buf` back from its tail ends at a segment with the same number or at the node the new one goes after |
| `SegmentLists.Segments.Insert` | depends/kcp/ikcp.c:670-688 | The new segment is linked in there, unless it is a repeat: the specified insertion |
| `SegmentLists.Segments.MergeFragments` | depends/kcp/ikcp.c:363-386 | Joins the first message's pieces node by node, and unlinks each unless peeking |
| `SegmentLists.Segments.NumberOne` | depends/kcp/ikcp.c:990-1013 | Moves the first node of `snd_queue` to the tail of `snd_buf` and fills in its fields; the list keeps its contents |
| `Session.StreamsSurvive` | source/udp.cpp:84-142 | For any interleaving of writes over any sessions, with datagrams lost, repeated and reordered, the bytes a session has received are a prefix of the bytes written to it, in both directions |
| `Session.CodedStreamsSurvive` | source/udp.cpp:84-142 | With the codec on top, coded in write-side pieces and decoded in read-side ones, the plain bytes survive as well |
| `Exchange.Exchange` | source/udp.cpp:84-142 | Two `udp` objects driven by any interleaving of writes, reads and timers hand their callbacks what the model says, and so, while nothing is half the ring late, each session a prefix of what was written to it on the other side |
| `Exchange.HandedHolds` | source/udp.cpp:134-140 | Passing over empty messages loses nothing for any session |
| `Session.ReceivedOfSplit` | source/udp.cpp:84-96 | The messages of one write hand its own session the whole buffer, and every other session nothing |
| `Session.SplitExactly` | source/udp.cpp:84-96 | Every message of a write but the last is full, exactly MTU long; the last is empty only for an empty write; so there are as few messages as hold the write |
| `Session.FrameLayout` | source/udp.h:30-35 | The session number and the size stand little-endian in the first and second four bytes of a message, the data after them |
| `Receiving.ReadLeavesNothing` | source/udp.cpp:127-142 | After a read in any timely run no complete message is left waiting: the peer has sent none more, or part of the next is missing from the receive queue |
| `Receiving.StreamsComplete` | source/udp.cpp:84-142 | Once a side has taken as many messages as were sent, every session has all the bytes written to it |
| `Udp.SendAllAnswers` | source/udp.cpp:84-96 | A write returns what `ikcp_send` says of its last message: 0 if that fits 127 segments, -2 if not |
| `Exchange.HandedOnce` | source/udp.cpp:134-140 | Each message received is handed on once, but for the empty ones |
| `Session.ParseOfFrame` | source/udp.h:30-35 | Reading a session header undoes writing it |
| `Session.SplitFits` | source/udp.cpp:84-96 | No message of a write is longer than MTU, so the receive buffer is never too small |
| `Session.SentIsMessages` | source/udp.cpp:84-96 | What the transport has accepted is exactly the messages of the writes, in order |
| `Udp.Udp.Send` | source/udp.cpp:84-96 | The send loop over one reused segment buffer sends the frames of the specification, as few and as full as `Session.SplitExactly` says, and returns the last answer, `Udp.SendAllAnswers` |
| `Udp.Udp.OnRead` | source/udp.cpp:127-142 | Takes in the datagram and hands on every complete message in order, passing over empty ones |
| `Udp.SendAllIsSends` | source/udp.cpp:84-96 | The send loop is the events of a write, in the model of the transport |
| `Udp.DrainedIsDrain` | source/udp.cpp:127-142 | The receive loop is the events of draining, in that model |
| `NibbleCodec.Encode` | source/codec.h:42-61 | At every length the eight-byte, four-byte and single-byte loops together swap the nibbles of each byte, and touch nothing past `size` |
| `NibbleCodec.Swap64IsBytewise` | source/codec.h:44-49 | Masking and shifting a word of eight bytes swaps the nibbles of each |
| `NibbleCodec.Swap32IsBytewise` | source/codec.h:50-55 | The same for four bytes |
| `NibbleCodec.SwapAllTwice` | source/codec.h:62 | Decoding, which is encoding, undoes encoding |
| `NibbleCodec.SwapOfFlattened` | source/codec.h:42-61 | Where a stream is cut for coding does not matter |
| `NibbleCodec.DecodeUndoesEncode` | source/codec.h:42-62 | A stream encoded in one set of chunks and decoded in another comes back |
| `Snappy.RoundTrip` | depends/snappy/snappy.cc:988-1055 | For every input shorter than 2^32 bytes, in any chunks and with any hash functions into the tables, the compressed form means the input by the format description, uncompressing it gives the input back, and it is at most `32 + n + n/6` bytes long; input that repeats itself comes to about three bytes in 64 |
| `Snappy.Compress` | depends/snappy/snappy.cc:988-1055 | The output stands for the input by the format description, and with every store made on the way stays within MaxCompressedLength. Input with a period of up to 32 bytes, in windows that the hash tells apart, takes at most 3 bytes for 64, 50 a block, and 5 |
| `Snappy.RunIsPatterned` | depends/snappy/snappy.cc:565-600 | A run of one byte, of any length, is such input, with any hash |
| `Snappy.UncompressedIsDescribed` | depends/snappy/snappy.cc:957-981 | Decoder and format description differ exactly on the streams the decoder accepts that hold a literal tag with length field 0xffffffff; everything else they take or refuse alike, with the same bytes |
| `Snappy.WrapIsUncompressed` | depends/snappy/snappy.cc:851-872 | A stream of six bytes on which they differ |
| `Snappy.CompressBlock` | depends/snappy/snappy.cc:999-1050 | One block's output stands for that block by itself, so its copies name bytes of their own block only; repetitive input is small in every block |
| `Snappy.NextFragment` | depends/snappy/snappy.cc:1001-1028 | A block is put together from the source's chunks without losing or repeating a byte |
| `Snappy.TableBits` | depends/snappy/snappy.cc:442-454 | The table size is the least power of two that is at least the block size, but never below 2^8 or above 2^14 |
| `Snappy.SnappyHashIntoTable` | depends/snappy/snappy.cc:90-96 | The hash the code uses is one of the functions allowed: it stays in the table |
| `Snappy.InternalUncompress` | depends/snappy/snappy.cc:957-981 | Verdict and output are those of the byte string alone: independent of how the source cuts it and of the writer |
| `Snappy.UncompressToArray` | depends/snappy/snappy.cc:1315-1323 | Into an array just large enough: accepts exactly the streams that `SnappyFormat.Decode` gives a meaning, and gives their bytes |
| `Snappy.UncompressToSink` | depends/snappy/snappy.cc:1590-1616 | Block by block into a sink: the same |
| `Snappy.UncompressToBuffers` | depends/snappy/snappy.cc:1235-1246 | Into buffers of any sizes with room in all: the same |
| `Snappy.IsValidCompressed` | depends/snappy/snappy.cc:1365-1374 | Accepts exactly the streams that `SnappyFormat.Decode` gives a meaning |
| `Snappy.Agree` | depends/snappy/snappy.cc:957-981 | The four writers, each given the same bytes cut its own way, agree: on the verdict, and the first three on the bytes |
| `Compressor.CompressFragment` | depends/snappy/snappy.cc:535-661 | For any hash into the table the output decodes to the fragment; every store, the over-wide ones included, stays in `n + n/65 + 3` bytes; the nested loops end. A fragment of period `p` becomes one literal of `p` bytes and the fewest copies that make the rest |
| `Compressor.Scan` | depends/snappy/snappy.cc:580-600 | The scan ends at the first probe of its schedule whose four bytes equal those at the last earlier position with that hash, or when the next probe would come within 15 bytes of the end; a match has 16 bytes still ahead: both asserts of the loop |
| `Search.PeriodIsFound` | depends/snappy/snappy.cc:551-600 | The first scan of input with a period of up to 32, in windows that the hash tells apart, misses until it is one period in, and then finds the start of the input |
| `Search.ByteByByte` | depends/snappy/snappy.cc:568-590 | The first 32 bytes of a scan are probed one by one |
| `Compressor.CopyMatch` | depends/snappy/snappy.cc:619-633 | The longest match is emitted, as the fewest copies of identical earlier bytes, gaining back what a literal may have cost |
| `Compressor.EmitMatches` | depends/snappy/snappy.cc:619-647 | Copies as long as one follows another, and leaves the last two positions in the table; a match that could go on to the end of the input does, and ends the loop |
| `Compressor.Round` | depends/snappy/snappy.cc:553-651 | One turn of the main loop keeps the output the compressed form of the input so far, and tight |
| `Compressor.MatchIsRepeat` | depends/snappy/snappy.cc:622-627 | A match, overlapping or not, is what repeating from the candidate gives |
| `Emit.EmitLiteral` | depends/snappy/snappy.cc:337-375 | Writes the tag and the bytes of a literal, on the 16-byte fast path too |
| `Emit.LiteralTagMeans` | depends/snappy/snappy.cc:350-372 | The tag means a literal of that length, for every length below 2^32 |
| `Emit.EmitCopyAtMost64` | depends/snappy/snappy.cc:378-397 | Writes the two- or three-byte tag, storing four bytes for it |
| `Emit.CopyTagMeans` | depends/snappy/snappy.cc:378-397 | The tag means a copy with that offset and length, in both forms |
| `Emit.EmitCopy` | depends/snappy/snappy.cc:400-428 | Splitting a copy of any length into pieces of 64, 60 and a rest of at least 4 has the effect of the whole, in fewer bytes than it covers and no more pieces than one for each 64 bytes begun; two bytes for a short copy from near |
| `Emit.Log2FloorNonZero` | depends/snappy/snappy-stubs-internal.h:432-447 | Halving search gives the logarithm: `2^log <= n < 2^(log+1)` |
| `SnappyFormat.RepeatIsPeriodic` | depends/snappy/snappy.cc:149-160 | A copy leaves every new byte equal to the one `offset` before it |
| `SnappyFormat.PeriodicIsRepeat` | depends/snappy/snappy.cc:149-160 | And is the only continuation that does |
| `SnappyFormat.RepeatTwice` | depends/snappy/snappy.cc:400-428 | Splitting a copy in two changes nothing |
| `SnappyFormat.ElementsDiffer` | depends/snappy/snappy.cc:851-856 | Decoder and description read a tag alike if and only if it is not a literal with length field 0xffffffff, which the decoder takes for an empty literal |
| `SnappyFormat.DecodeIsDescribed` | depends/snappy/snappy.cc:795-895 | A stream means what the decoder makes of it, unless the decoder meets such a tag: then it means nothing |
| `SnappyFormat.WrapIsAccepted` | depends/snappy/snappy.cc:851-872 | The tag, and a stream of five bytes, on which they differ |
| `SnappyFormat.DescribedConcat` | depends/snappy/snappy.cc:999-1050 | A stream that means something can be followed by another |
| `SnappyFormat.DescribedInContext` | depends/snappy/snappy.cc:999-1050 | A block that means something by itself means the same bytes after others |
| `SnappyFormat.CharTable` | depends/snappy/snappy-internal.h:187-209 | Every one of the 256 entries is what the tag format makes of its byte |
| `SnappyFormat.EntryFields` | depends/snappy/snappy-internal.h:174-187 | The three fields of an entry are the tag's extra bytes, length and high offset bits |
| `IncrementalCopy.CopyBack` | depends/snappy/snappy.cc:182-332 | For every offset, length and slop: nothing at or past `buf_limit` is stored; the bytes up to the limit are those of copying one by one if the copy completes, which it does for every length up to 64; where it does not complete (longer, with slop for whole blocks), everything past four blocks is left as it was |
| `IncrementalCopy.LongCopyStops` | depends/snappy/snappy.cc:285-306 | A copy that does not complete: 80 bytes from 8 back with 16 bytes of slop |
| `IncrementalCopy.CopySlow` | depends/snappy/snappy.cc:149-160 | The byte loop continues the pattern |
| `IncrementalCopy.Widen` | depends/snappy/snappy.cc:252-268 | Doubling the pattern reaches eight bytes within eleven, and keeps it a whole number of periods |
| `IncrementalCopy.CopyWide` | depends/snappy/snappy.cc:285-332 | Overlapping copies of 8 and 16 bytes and the slow tail continue the pattern |
| `IncrementalCopy.TiledIsRepeat` | depends/snappy/snappy.cc:149-160 | A pattern continued is what copying one by one gives |
| `FindMatch.FindMatchLength64` | depends/snappy/snappy-internal.h:91-138 | Exactly the longest common prefix before the limit, the flag says below 8, and no byte at or past the limit is read |
| `FindMatch.FindMatchLength32` | depends/snappy/snappy-internal.h:140-162 | The same for the four-byte version |
| `FindMatch.MatchIsLongest` | depends/snappy/snappy-internal.h:70-88 | The length returned is the largest that agrees |
| `FindMatch.FirstDifference64At` | depends/snappy/snappy-internal.h:117-128 | The lowest set bit of the XOR of two words, by eight, is the first byte that differs |
| `FindMatch.FirstDifference32At` | depends/snappy/snappy-internal.h:151-154 | The same for four bytes |
| `BitScan.FindLSBSetNonZero` | depends/snappy/snappy-stubs-internal.h:453-466 | The shifting search finds the lowest set bit |
| `BitScan.FindLSBSetNonZero64` | depends/snappy/snappy-stubs-internal.h:470-480 | So does its 64-bit form, half by half |
| `BitScan.FirstDifference` | depends/snappy/snappy-internal.h:151-154 | The byte with the lowest differing bit is the first byte that differs |
| `Varint.Encode32` | depends/snappy/snappy-stubs-internal.h:547-573 | The five-way branch writes the base-128 digits, least significant first |
| `Varint.Parse32` | depends/snappy/snappy-stubs-internal.h:507-545 | The unrolled reader computes the specification, and never looks past the end |
| `Varint.ReadOfDigits` | depends/snappy/snappy-stubs-internal.h:485-573 | Reading undoes writing, whatever follows, in at most five bytes |
| `Source.Source.Peek` | depends/snappy/snappy-sinksource.cc:69-72 | Shows the next chunk; empty exactly at the end |
| `Source.Source.Skip` | depends/snappy/snappy-sinksource.cc:74-77 | Consumes exactly the bytes skipped |
| `Decompressor.Decompressor.RefillTag` | depends/snappy/snappy.cc:898-955 | Succeeds exactly when a whole tag is left, in any chunks, and keeps the bytes to come; end of input and truncation are told apart |
| `Decompressor.Decompressor.Stitch` | depends/snappy/snappy.cc:919-941 | The scratch bytes and what follows are the input still to come |
| `Decompressor.Decompressor.AppendLiteral` | depends/snappy/snappy.cc:858-876 | A literal is passed on whole across any chunks, or refused exactly when the input or the room is too short |
| `Decompressor.Decompressor.TakeTag` | depends/snappy/snappy.cc:826-892 | One tag does what the format says it does, and fails exactly when the format says so |
| `Decompressor.Decompressor.DecompressAllTags` | depends/snappy/snappy.cc:795-895 | `eof` at the end exactly when the whole input is well-formed and fits, and the writer then holds what the format says |
| `Decompressor.Decompressor.ReadUncompressedLength` | depends/snappy/snappy.cc:762-786 | Byte by byte across chunks it reads the number, and fails exactly where the flat reader does |
| `Decompressor.Decompressor.OverflowsExactly` | depends/snappy/snappy.cc:721-728 | The mask table finds an overflow exactly when the value would not fit 32 bits |
| `Decompressor.LowBytesOf` | depends/snappy/snappy.cc:708-719 | However many bytes were loaded, only the low ones of the tag matter |
| `Writers.Writer.Append` | depends/snappy/snappy.cc:1114-1120 | All four: succeeds exactly within the expected length, and then appends |
| `Writers.Writer.TryFastAppend` | depends/snappy/snappy.cc:1146-1159 | All four: may decline and then changes nothing; never taken without five spare bytes, as the decoder relies on |
| `Writers.Writer.AppendFromSelf` | depends/snappy/snappy.cc:1161-1230 | All four: succeeds exactly when the offset is inside the output and the length fits, and then repeats |
| `ArrayWriter.ArrayWriter.AppendFromSelf` | depends/snappy/snappy.cc:1292-1306 | In a flat array: the same, by the wide copy |
| `ScatteredWriter.ScatteredWriter.Append` | depends/snappy/snappy.cc:1442-1452 | Across as many new blocks as it takes |
| `ScatteredWriter.ScatteredWriter.SlowAppend` | depends/snappy/snappy.cc:1485-1513 | The block loop keeps blocks full up to the last, and the output their concatenation |
| `ScatteredWriter.ScatteredWriter.SlowAppendFromSelf` | depends/snappy/snappy.cc:1516-1538 | Byte by byte, with source and destination in any blocks, it repeats |
| `ScatteredWriter.ScatteredWriter.AppendFromSelf` | depends/snappy/snappy.cc:1467-1479 | In one block or across them: the same effect |
| `ScatteredWriter.ScatteredWriter.Flush` | depends/snappy/snappy.cc:1556-1566 | The sink gets exactly the output, block after block |
| `IOVecWriter.IOVecWriter.AppendNoCheck` | depends/snappy/snappy.cc:1122-1144 | Across buffers of any sizes, empty ones included, it appends |
| `IOVecWriter.IOVecWriter.Locate` | depends/snappy/snappy.cc:1166-1182 | Walking back finds the buffer and place of any earlier byte |
| `IOVecWriter.IOVecWriter.AppendFromSelf` | depends/snappy/snappy.cc:1161-1230 | Piece by piece, from earlier buffers and within the current one, it repeats |
| `IOVecWriter.IOVecWriter.BuffersHold` | depends/snappy/snappy.cc:1064-1093 | The buffers read in order hold the output |
| `Validator.Validator.AppendFromSelf` | depends/snappy/snappy.cc:1354-1361 | Counting alone gives the verdict that writing gives |

## Left out

- Sockets, the event loop, timers, the proxy and its handshake (source/Acceptor.cpp, source/Reactor.cpp, source/kcpss.cpp, source/socks5.h): foreign calls and plumbing.
- `udp_server` and its maps of endpoints and control blocks (source/udp.cpp:150-209): only the shared `udp` part is modelled.
- KCP's stream mode, changing the mtu or the windows of a running connection, the allocator hooks, allocation failure and logging.
- SSSE3 and BMI2 code, big-endian byte orders, compiler built-ins for bit scans, alignment padding; the INI reader and the logger.
- Throughput, and how small the output of Snappy is for input that repeats itself less regularly than `Snappy.Patterned` says.
- SegmentLists.Segments.Insert: takes a new node only for a segment it keeps, where the code allocates one first and frees it again for a repeat; freeing itself is not modelled, an unlinked node is just on no list.
- Connection.DeliveryIsPrefix: is about unbounded numbers, as are the other invariants of `Connection` and `Progress` and `Congestion.CongestionHolds`; `Refinement.Refines` makes each state of a timely 32-bit run the wrapped image of one they speak of, and `Refinement.DeliveryIsPrefix32` and `TimelyRuns` say the main ones in 32-bit words.
- Congestion.CongestionHolds: is for configurations in which the largest window fits 32 bits in bytes; `CongestionRuns.BracketExactly` is for all.
- Delivery.PossibleDelivery: says what can happen next, not that the network delivers, that the user takes messages, or that time passes.
- FastAcks.SkipsCounted: is about unbounded numbers; `Wrapping.ParseFastackWraps` and `Refinement.Refines` carry it to timely runs of the program.
- Receiving.ReadLeavesNothing: is about timely runs; `Receiving.RecvExactly` is about any queue.
- Lateness.PromptIsTimely: measures age in segments numbered since, not in time; the bound is sufficient, not the largest possible.
- Alike.PacketsAlike: goes one way: two mistakes within one segment can cancel. For each number by itself `Alike.DecidesAlike` is exact.
- Timing.Pacing: counts flushes over calls with a clock that does not go back; the times are unbounded numbers of which the code sees the low 32 bits. So do `TimingRuns.UpdatesArePaced`, `Probing.ProbesArePaced` and `ProbeRuns.AsksArePaced`.
- Session.StreamsSurvive: is about messages framed by `udp::send`. For a message shorter than its header says, or than a header, the program passes on what an earlier message left in the buffer; `Session.Parse` takes only the bytes that are there.
- Udp.Udp.OnRead: records what is handed to the session callback, which is code outside this model.
- Snappy.InternalUncompress: after a failure says nothing about the output, on which the writers do differ.
- Snappy.Compress: writes into one array large enough for the whole; the working memory is allocated per block rather than once, and the sink's own buffer and the block scratch buffer are the same array.
- Snappy.UncompressToSink: always takes the block-by-block path; the flat one is `Snappy.UncompressToArray`.
- FindMatch.FindMatchLength64: reads its words through little-endian functions of the bytes, not through pointer casts.
- Decompressor.Decompressor.ReadUncompressedLength: bit masks and shifts are written as quotients, remainders and multiples of powers of two.
