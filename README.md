# A verified model of a teaching TCP/IP stack

This project models the core of a small user-space TCP/IP stack written in C++ for a
computer-networks course, and proves properties of the model. The layers, from
the bottom up, are:

- **ByteStreams** (`byte_stream.dfy`). The bounded byte stream: a writer pushes at most
  `capacity` unread bytes, a reader peeks and pops, and the closed and error flags are
  sticky. The ghost history `popped` lets every contract speak of the whole stream
  `Written()`, not only of the counters.
- **WrappingIntegers** (`wrapping_integers.dfy`). The 32-bit sequence numbers of TCP
  (section 3.4 of RFC 9293), and the translation between them and 64-bit absolute
  indices. `Wrap`, and `Unwrap` relative to a checkpoint, are written with the C++
  unsigned wrap-around made explicit.
- **Reassemblers** (`reassembler.dfy`). The reassembler takes out-of-order, overlapping
  substrings. It keeps the part inside the output's window in an ordered map of
  disjoint pending substrings, and writes the contiguous prefix to the output stream.
  The map is a Dafny `map`. Its `lower_bound` and `upper_bound` queries are the
  methods `LowerBound` and `Floor`. A ghost history of every call lets the invariant
  state where each stored or written byte came from.
- **TCPMessages** (`tcp_messages.dfy`). The sender's segment and the receiver's
  acknowledgment.
- **TCPReceivers** (`tcp_receiver.dfy`). The receiver:
  - it learns the initial sequence number (ISN) from the first SYN;
  - it maps each segment to a stream index for the reassembler;
  - it reports the ackno and the 16-bit window.
- **TCPSenders** (`tcp_sender.dfy`). The sender with its retransmission timer:
  - it cuts the outbound stream into segments that fit the window;
  - it keeps the ready and outstanding queues;
  - it retires acknowledged segments;
  - on expiry it retransmits with exponential backoff (section 5.5 of RFC 6298).
- **NetworkInterfaces** (`network_interface.dfy`). The network interface that resolves
  next-hop IPv4 addresses to Ethernet addresses with ARP (RFC 826). It keeps:
  - an ARP cache with time to live;
  - the requests still pending;
  - the datagrams waiting for a resolution;
  - a FIFO of outbound frames.

  Each operation is first a function on the value `Interface`. A method of the class
  `NetworkInterface` then performs the same change in place, and its `ensures` ties it
  to that function.

How the model is built:

- **Mutable objects** (the byte stream, the reassembler, the receiver, the sender and its
  timer, the network interface) are classes. Their methods state the new state. Most
  state it field by field. The reassembler's `Place`, `Assemble`, `Admit` and `Insert`,
  and the receiver's `Receive`, state it through the predicates `Placed` and
  `Assembled`. These fix which byte is stored or written at every index and which
  entries of the old map survive. They do not fix how newly stored bytes are split into
  map entries (see "## Left out").
- **Loops of the source** are `while` loops with invariants. These are the reassembler's
  rear-overlap pass and drain loop, the sender's push and retire loops, and the
  interface's flush and tick loops.
- **Integers.** The source's 64-bit and 32-bit integers are `u64` and `u32`, subsets of
  `int`. Every wrap-around that the source's unsigned arithmetic can produce is written
  out with `%` or an explicit conditional, except for the byte stream's counters. The
  byte stream's capacity and its counters of bytes pushed and popped, which only grow,
  are `nat`, so the byte stream itself does not model their wrap (see "## Left out").
  The reassembler, receiver and sender, which use those counters, require the stream
  to stay below 2^64 bytes.

## Model

| member | source | states |
|---|---|---|
| WrappingIntegers.Wrap | src/wrapping_integers.cc:5-8 | the 32-bit wire value is (ISN + n) mod 2^32 |
| WrappingIntegers.WrapPeriodic | src/wrapping_integers.cc:5-8 | absolute indices 2^32 apart wrap to the same wire value |
| WrappingIntegers.OffsetOfWrap | src/wrapping_integers.cc:12 | the 32-bit offset of a wrapped index from the checkpoint is its true distance, or that plus 2^32 when it lies below the checkpoint |
| WrappingIntegers.Unwrap | src/wrapping_integers.cc:10-20 | for every checkpoint, the unwrapped index wraps back to the same wire value (the 64-bit sum of line 13 and the fold of line 16 both move the result by multiples of 2^32) |
| WrappingIntegers.UnwrapOfWrap | src/wrapping_integers.cc:10-20 | round trip: an index within 2^31 of the checkpoint is recovered from its wire value, unless the 64-bit sum wraps |
| WrappingIntegers.UnwrapAtCheckpoint | src/wrapping_integers.cc:10-20 | an index unwrapped at itself as checkpoint is recovered |
| WrappingIntegers.UnwrapOverflowsNearTop | src/wrapping_integers.cc:13-17 | next to 2^64 the 64-bit sum wraps and the round trip fails (2^64-2 comes back as 2^32-2) |
| WrappingIntegers.UnwrapBounds | src/wrapping_integers.cc:13-17 | the result lies in [checkpoint - 2^31, checkpoint + 2^32); a result 2^31 or more above the checkpoint is below 2^32 |
| WrappingIntegers.UnwrapShape | src/wrapping_integers.cc:13-17 | the three possible outcomes of the conditional fold, as relations to checkpoint + offset |
| WrappingIntegers.UnwrapIsNearest | src/wrapping_integers.cc:10-20 | there is no 64-bit index with the same wire value closer to the checkpoint, and on a tie the smaller one is returned |
| ByteStreams.ByteStream.constructor | src/byte_stream.cc:7 | an empty, open stream of the given capacity |
| ByteStreams.ByteStream.AvailableCapacity | src/byte_stream.cc:39-42 | the room left plus the bytes buffered equals the capacity |
| ByteStreams.ByteStream.BytesPushed | src/byte_stream.cc:44-47 | the number of bytes ever accepted, that is, the length of the whole stream |
| ByteStreams.ByteStream.Peek | src/byte_stream.cc:49-52 | the bytes popped so far followed by the peeked bytes are the whole stream |
| ByteStreams.ByteStream.IsFinished | src/byte_stream.cc:54-58 | finished exactly when closed and nothing is buffered |
| ByteStreams.ByteStream.Pop | src/byte_stream.cc:66-75 | no change when errored or empty; otherwise the first len bytes move from the buffer to the popped history, and the stream is unchanged |
| ByteStreams.ByteStream.BytesBuffered | src/byte_stream.cc:77-81 | the number of unread bytes, never above the capacity |
| ByteStreams.ByteStream.BytesPopped | src/byte_stream.cc:83-87 | the number of bytes handed to the reader so far |
| ByteStreams.ByteStream.Push | src/byte_stream.cc:9-22 | nothing is accepted when the stream is closed or errored; otherwise the longest prefix of the data that fits is appended to the buffer and the stream |
| ByteStreams.ByteStream.IsClosed | src/byte_stream.cc:34-37 | the closed flag; it has no contract of its own, and `Push`, `Close` and the reassembler's `CloseIfDone` state how it changes |
| ByteStreams.ByteStream.HasError | src/byte_stream.cc:60-64 | the error flag; it has no contract of its own, and `SetError` and every method that keeps `error == old(error)` state how it changes |
| ByteStreams.ByteStream.Close | src/byte_stream.cc:24-27 | the stream becomes closed, and the invariant is kept |
| ByteStreams.ByteStream.SetError | src/byte_stream.cc:29-32 | the stream becomes errored, and the invariant is kept |
| TCPMessages.TCPSenderMessage.SequenceLength | src/tcp_sender.cc:66 | payload length plus one for each flag; zero exactly for a flagless empty segment |
| TCPReceivers.StartIndex | src/tcp_receiver.cc:16-18 | the stream index of the first payload byte, in 64 bits; the segment's absolute sequence number recovered from it (one more, or itself for a SYN) wraps back to the segment's seqno |
| TCPReceivers.StartIndexOfWrap | src/tcp_receiver.cc:16-18 | a segment at absolute sequence number a, near the checkpoint, maps to stream index a - 1, or to a when it carries the SYN |
| TCPReceivers.SynPayloadStartsAtZero | src/tcp_receiver.cc:12-18 | the payload of the first SYN starts at stream index 0 |
| TCPReceivers.WindowSize | src/tcp_receiver.cc:25-26 | the window is the room left, capped at 65535 |
| TCPReceivers.TCPReceiver.Receive | src/tcp_receiver.cc:6-20 | ignores segments before the first SYN, whose seqno becomes the ISN; otherwise records one reassembler call at `StartIndex` of the unwrapped seqno, with FIN as last flag, and the reassembler's effect on its map, its next index and the inbound stream is `Assembled` for that call; the inbound stream is closed exactly when it was closed or the reassembler is closed, and its error flag is unchanged; the invariants are kept |
| TCPReceivers.TCPReceiver.Send | src/tcp_receiver.cc:22-41 | no ackno before the SYN; otherwise the ackno is the wrapped bytes-pushed + 1, plus 1 once the stream is closed; the window is capped at 65535 |
| TCPReceivers.TCPReceiver.AcknoUnwraps | src/tcp_receiver.cc:32-38 | the peer, unwrapping the ackno near its own position, recovers the absolute sequence number the receiver expects next |
| TCPSenders.SumSeqLenDropFirst | src/tcp_sender.cc:104-105 | retiring the oldest outstanding segment lowers the in-flight sum by exactly its length |
| TCPSenders.SumSeqLenSuffix | src/tcp_sender.cc:97-107 | what is left after retiring segments never carries more sequence numbers than before |
| TCPSenders.WellCutAt | src/tcp_sender.cc:50-77 | each segment of one push is back to back with its predecessors, non-empty, within the payload bound; SYN only first at sequence number 0; FIN only last |
| TCPSenders.ProgressedStep | src/tcp_sender.cc:70-76 | emitting a non-empty segment advances the next seqno and uses up budget by its length, and keeps the run well cut |
| TCPSenders.FilledAppend | src/tcp_sender.cc:58-65 | a segment whose payload length and FIN follow from the budget and the bytes its predecessors left extends a filled run |
| TCPSenders.FilledAt | src/tcp_sender.cc:58-65 | in a filled run, the i-th segment has the payload length and FIN prescribed by the budget and the bytes left after the first i segments |
| TCPSenders.SentAt | src/tcp_sender.cc:50-77 | in a well-cut, filled run whose payloads are the front of the buffer, the i-th segment is `Segment` of the state left by the first i segments |
| TCPSenders.SentAll | src/tcp_sender.cc:50-77 | the same for every segment of the run |
| TCPSenders.Timer.constructor | src/tcp_sender.hh:10-11 | a stopped timer at zero |
| TCPSenders.Timer.Expired | src/tcp_sender.hh:14-17 | elapsed time is always added (64-bit); expired exactly when running and the timeout is reached |
| TCPSenders.Timer.TickNow | src/tcp_sender.hh:18 | the accumulated ticks; no contract of its own (a one-field read), used by `MaybeSend` |
| TCPSenders.Timer.InRun | src/tcp_sender.hh:19 | whether the timer runs; no contract of its own (a one-field read), used by `MaybeSend` |
| TCPSenders.Timer.Start | src/tcp_sender.hh:20-23 | the timer runs from zero |
| TCPSenders.Timer.Stop | src/tcp_sender.hh:24 | the timer stops and keeps its ticks |
| TCPSenders.Budget | src/tcp_sender.cc:49 | the sequence numbers the window still admits, a zero window counting as one, when no 64-bit wrap occurs |
| TCPSenders.BudgetWrapsWhenWindowShrinks | src/tcp_sender.cc:49 | a window that shrinks below what is in flight makes the budget wrap to nearly 2^64 |
| TCPSenders.Acked | src/tcp_sender.cc:99-101 | a segment is wholly acknowledged exactly when its unwrapped start plus its sequence length reaches no further than the ackno, wherever that 64-bit sum does not wrap |
| TCPSenders.Retired | src/tcp_sender.cc:96-107 | no more than the queue is left, and the first segment left, if any, is not wholly acknowledged |
| TCPSenders.RetiredIsAckedPrefix | src/tcp_sender.cc:96-107 | retirement drops a prefix of the outstanding queue, all of it wholly acknowledged, and stops at the first segment that is not |
| TCPSenders.Segment | src/tcp_sender.cc:51-65 | one segment: at the wrapped next seqno; SYN exactly at sequence number 0; a payload of exactly min(space less the SYN, payload bound, bytes buffered) bytes, the front of the buffer; FIN exactly when that empties a closed stream and space is still left; the space left is the space less its sequence length; empty exactly when it is not at sequence number 0 and either an open stream has nothing buffered or bytes are buffered and the payload bound is zero |
| TCPSenders.SegmentIs | src/tcp_sender.cc:51-65 | a message with the seqno, SYN, payload and FIN the contract of `Segment` prescribes is the segment cut, so that contract determines the segment |
| TCPSenders.TCPSender.constructor | src/tcp_sender.hh:28-40 | the initial field values: window 1, timeout = initial RTO, empty queues, stopped timer |
| TCPSenders.TCPSender.SequenceNumbersInFlight | src/tcp_sender.cc:19-22 | the total sequence length of the outstanding segments, never above the next seqno |
| TCPSenders.TCPSender.ConsecutiveRetransmissions | src/tcp_sender.cc:24-27 | the retransmission count; no contract of its own (a one-field read), while `Tick`, `Accept` and `Restart` state how the count changes |
| TCPSenders.TCPSender.SendEmptyMessage | src/tcp_sender.cc:80-85 | a segment of sequence length zero whose seqno unwraps to the next sequence number |
| TCPSenders.TCPSender.MaybeSend | src/tcp_sender.cc:29-42 | nothing when the ready queue is empty or a retransmission waits on a running, ticked timer; otherwise the oldest ready segment, removed from the queue |
| TCPSenders.TCPSender.Read | src/tcp_sender.cc:58-59 | takes the first min(n, buffered) bytes; on a healthy stream they move from the buffer to the popped history; on an errored stream nothing is popped; the stream is the same stream |
| TCPSenders.TCPSender.MakeSegment | src/tcp_sender.cc:51-65 | cuts the segment `Segment` describes from the bytes buffered and pops its payload; on an errored stream with bytes buffered nothing is popped and the segment is the one of an open stream, without FIN; SYN and FIN are recorded as sent |
| TCPSenders.TCPSender.Push | src/tcp_sender.cc:44-78 | nothing after the FIN; otherwise the segments sent join both queues in order and form a well-cut run within the budget; each one is `Segment` of the next seqno, the bytes left and the budget left before it; together their payloads are the front of the buffer, which is popped; past sequence number 0 the budget is used up unless the FIN went, an open stream has nothing buffered, or bytes are buffered and the payload bound is zero; FIN is set only when the stream is finished; the first push with any budget sends the SYN |
| TCPSenders.FirstPushSyn | src/tcp_sender.cc:49-56 | a run from sequence number 0 with a positive budget that stops only at the budget, at the FIN or past sequence number 0 holds a segment, and its first segment carries the SYN |
| TCPSenders.TCPSender.PushRun | src/tcp_sender.cc:49-78 | the loop keeps the push invariant and ends with no budget left, with the FIN, or past sequence number 0 with an open stream that has nothing buffered or with bytes buffered and a zero payload bound; what it sent meets every promise of `Push` |
| TCPSenders.TCPSender.PushDone | src/tcp_sender.cc:49-78 | when the loop ends with no budget left, with the FIN, or past sequence number 0 on an open stream with nothing buffered or on buffered bytes with a zero payload bound, its invariant yields every promise of `Push` about the segments sent and the new state, that exit condition included |
| TCPSenders.TCPSender.PushStep | src/tcp_sender.cc:50-77 | one pass either ends the loop on an empty segment, which happens only past sequence number 0 on an open stream with nothing buffered or on buffered bytes with a zero payload bound, or emits a segment and strictly lowers the budget |
| TCPSenders.TCPSender.EmitStep | src/tcp_sender.cc:70-76 | emitting the cut segment keeps the push invariant |
| TCPSenders.TCPSender.Emit | src/tcp_sender.cc:70-76 | the segment joins both queues, the next seqno and the in-flight count grow by its length, and an idle timer starts from zero |
| TCPSenders.TCPSender.Receive | src/tcp_sender.cc:87-117 | the ackno is taken even when rejected; above the next seqno nothing else changes; otherwise the window is taken and the outstanding queue is retired; progress resets the timeout and the count and restarts or stops the timer |
| TCPSenders.TCPSender.Accept | src/tcp_sender.cc:95-116 | the window is taken, acknowledged segments are retired, and progress resets the timeout and the retransmission count |
| TCPSenders.TCPSender.Restart | src/tcp_sender.cc:108-116 | the timeout is back to the initial RTO, the count is zero, and the timer runs from zero exactly when something is outstanding |
| TCPSenders.TCPSender.Retire | src/tcp_sender.cc:96-107 | the outstanding queue becomes `Retired` of the old one, and the in-flight count stays its sequence length |
| TCPSenders.TCPSender.Tick | src/tcp_sender.cc:119-132 | on expiry with something outstanding: the oldest outstanding segment is queued again, the timeout doubles (64-bit) unless the window is zero, the count grows, the timer restarts; otherwise only the ticks move; the outstanding queue, the sequence numbers, the window and the SYN and FIN flags never change |
| Reassemblers.Dec64 | src/reassembler.cc:22 | the result is x - 1 for a positive x and 2^64 - 1 for x = 0, the unsigned 64-bit decrement. |
| Reassemblers.Discards | src/reassembler.cc:22-23 | while the stream stays below 2^64, the 64-bit discard test holds exactly for empty data, no room, or data outside the window |
| Reassemblers.Clip | src/reassembler.cc:34-52 | the clipped data is exactly the part of the data inside the window [next index, next index + room), with its start |
| Reassemblers.RekeyAsWritten | src/reassembler.cc:132-141 | as written: the entry at the old key is removed and every other entry kept; its tail is stored at the advanced key only when that key is free; when nothing was pushed the entry is simply dropped; the counter falls by what was pushed |
| Reassemblers.RekeyAsWrittenLosesBytes | src/reassembler.cc:132-141 | as written, a refused push drops the entry and leaves its bytes counted |
| Reassemblers.Rekey | src/reassembler.cc:132-141 | corrected re-keying: the unpushed tail is stored at the advanced next index and every other entry is kept |
| Reassemblers.RekeyKeepsCount | src/reassembler.cc:132-141 | corrected re-keying keeps the byte counter equal to the bytes stored |
| Reassemblers.LowerBound | src/reassembler.cc:57-58 | the smallest stored start at or after x, or none |
| Reassemblers.Floor | src/reassembler.cc:91-93 | the largest stored start at or before x, or none |
| Reassemblers.EraseKeepsInv | src/reassembler.cc:73-77 | erasing a stored substring and uncounting its bytes keeps the invariant |
| Reassemblers.RearTests | src/reassembler.cc:61-66 | the 64-bit comparisons of the rear pass, read as comparisons of unbounded indices |
| Reassemblers.RearStep | src/reassembler.cc:59-85 | one round of the rear pass keeps the loop invariant and stops, erases an entry or shortens the data |
| Reassemblers.RearTrim | src/reassembler.cc:65-84 | a stored substring that starts inside the data and reaches past its end cuts the data back to where that substring starts, keeping the loop invariant |
| Reassemblers.RearErase | src/reassembler.cc:69-84 | a stored substring the data covers is erased |
| Reassemblers.ResolveRearOn | src/reassembler.cc:57-85 | the data keeps a prefix that overlaps no stored substring starting inside it; only entries the data covered were erased; when the data was cut, the stored substring at the cut reaches past the old end of the data; empty data means an entry sat at its start; the invariant holds |
| Reassemblers.StoreKeepsInv | src/reassembler.cc:121-124 | storing resolved data that overlaps nothing keeps the invariant and counts its bytes |
| Reassemblers.CoveredStore | src/reassembler.cc:121-124 | storing under a fresh key leaves every covered index covered |
| Reassemblers.PlaceCovers | src/reassembler.cc:57-124 | after the rear pass, the front pass and the store, every index of the clipped data and every index stored before lies in a stored substring |
| Reassemblers.PlaceSound | src/reassembler.cc:34-124 | resolving and storing the clipped data place it as `Placed` says, outside the 64-bit wrap at index 0 |
| Reassemblers.PlaceKeeps | src/reassembler.cc:57-124 | after the three passes: every index of [lo, hi) and every index stored before is stored; every old entry not wholly inside [lo, hi) is kept unchanged, so where it overlaps the data its bytes win; every entry is such a kept entry or a slice of the data at its own indices inside [lo, hi) |
| Reassemblers.PlaceKept | src/reassembler.cc:57-85 | the rear pass erases only entries lying wholly inside the clipped data, so every other old entry keeps its key and bytes |
| Reassemblers.PlaceEntriesFrom | src/reassembler.cc:57-124 | every entry after the store is an old entry not wholly inside the clipped data, unchanged, or the slice of the data stored by lines 121-124 |
| Reassemblers.DrainWholeKeepsInv | src/reassembler.cc:144-147 | pushing a whole entry keeps the invariant at the advanced next index |
| Reassemblers.DrainPartKeepsInv | src/reassembler.cc:132-141 | pushing part of an entry and re-keying the rest keeps the invariant at the advanced next index |
| Reassemblers.RekeyProvided | src/reassembler.cc:137-139 | the re-keyed remainder was carried by earlier calls at its new index and stays inside the window |
| Reassemblers.CoverDrainStep | src/reassembler.cc:144-147 | writing out the entry at the next index leaves every covered index either below the advanced next index or still covered |
| Reassemblers.DrainedStep | src/reassembler.cc:126-152 | one whole push keeps the drain progress: what was written plus the run still stored is what was written plus the run stored at the start; only the pushed entry goes, and every stored index is written or still stored |
| Reassemblers.RunHolds | src/reassembler.cc:126-152 | every byte of the run stored from the next index is the byte some stored entry holds at that index |
| Reassemblers.RunSlice | src/reassembler.cc:126-152 | among disjoint entries from the next index on, the run holds every entry it reaches whole, at the entry's own indices |
| Reassemblers.CoveredWritten | src/reassembler.cc:126-152 | once nothing is stored at the next index, an interval of indices each written or stored, starting at or below the next index, is entirely written |
| Reassemblers.AssembledMissed | src/reassembler.cc:22-23 | data the window does not meet leaves the map, the next index and the output as they were, which is `Assembled` |
| Reassemblers.AssembleSound | src/reassembler.cc:34-152 | placing the data and then draining give `Assembled`, including writing through the end of data that reaches the next index |
| Reassemblers.DrainMerged | src/reassembler.cc:126-152 | draining entries placed as `Placed` says keeps them or writes them whole, so every stored and written byte comes from a kept old entry or from the data at the same index |
| Reassemblers.DrainKept | src/reassembler.cc:126-152 | every old entry the placement kept is still stored or was written whole at its own indices |
| Reassemblers.DrainBytes | src/reassembler.cc:126-152 | every byte the drain writes is that of a kept old entry or of the data at the same index |
| Reassemblers.WrittenIsPrefix | src/reassembler.cc:10-157 | when every call carried a slice of one stream, whatever was written is a prefix of it |
| Reassemblers.Reassembler.BytesPending | src/reassembler.cc:159-162 | the number of bytes stored |
| Reassemblers.Reassembler.IsClosed | src/reassembler.cc:5-8 | closed exactly when the last substring was seen and nothing is stored |
| Reassemblers.Reassembler.ResolveRear | src/reassembler.cc:57-85 | the rear-overlap pass on the object, with the contract of `ResolveRearOn`, including where the data is cut |
| Reassemblers.Reassembler.ResolveFront | src/reassembler.cc:90-114 | only a head of the data is cut, and the indices cut off are covered by a stored substring; what is left overlaps no stored substring |
| Reassemblers.Reassembler.Drain | src/reassembler.cc:126-152 | an output that refuses data changes nothing; otherwise the run of contiguous substrings stored from the next index is written and the next index moves past it; only written entries are removed; something stays at the next index only if the output refuses data; every stored index is written or still stored |
| Reassemblers.Reassembler.PushEntry | src/reassembler.cc:129-131 | a prefix of the entry at the next index is written; all of it unless the output refuses data |
| Reassemblers.Reassembler.Advance | src/reassembler.cc:132-146 | the next index advances by what was pushed; a short push re-keys the remainder at the new next index and keeps every other entry; a whole push removes the entry |
| Reassemblers.Reassembler.DrainStep | src/reassembler.cc:127-147 | one round: an output that refuses data stops the loop and nothing changes; otherwise the whole entry at the next index is written and removed, and the next index moves past it |
| Reassemblers.Reassembler.Insert | src/reassembler.cc:10-157 | the call is recorded and the last flag kept; the stream only grows; discarded data changes nothing else; otherwise, as `Assembled` says: every index of the data inside the window and every index stored before is written or stored; data reaching the next index is written through its end, as far as the window allows, unless the output refuses data; every stored entry is an old entry kept or a slice of the data, every old entry not wholly inside the data is still stored or written whole, and every byte written is that of a kept old entry or of the data at the same index; the output closes once closed and empty |
| Reassemblers.Reassembler.Admit | src/reassembler.cc:16-152 | discarded data changes nothing; otherwise the new map, next index and written bytes are as `Assembled` says (coverage, writing through the end of data that reaches the next index, and where every stored and written byte comes from) |
| Reassemblers.Reassembler.Record | src/reassembler.cc:12-14 | the last flag is recorded with the call |
| Reassemblers.Reassembler.CloseIfDone | src/reassembler.cc:154-156 | the output is closed exactly when the reassembler is closed |
| Reassemblers.Reassembler.Assemble | src/reassembler.cc:34-152 | clipping, overlap resolution, storing and draining keep all the invariants and only extend the stream, and give `Assembled`: coverage of the window part of the data and of every earlier stored index, the data written through its end when it reaches the next index and the output accepts data, and the origin of every stored and written byte |
| Reassemblers.Reassembler.Place | src/reassembler.cc:34-124 | as `Placed` says: every index of the data inside the window and every index stored before lies in a stored substring; old entries not wholly inside the clipped data are kept unchanged (their bytes win); every entry is such a kept entry or a slice of the data at its own indices; the invariant is kept |
| Reassemblers.Reassembler.Resolve | src/reassembler.cc:57-114 | the rear pass and then the front pass, with the outcome `Resolved`: the data left overlaps no stored substring, only entries the data wholly contains are erased, the cuts are the minimal ones, and what is left was carried by earlier calls inside the window |
| Reassemblers.Reassembler.Store | src/reassembler.cc:121-124 | the resolved data is added at its index, its bytes are counted, and the invariant is kept |
| Reassemblers.InsertSlice | src/reassembler.cc:10-157 | inserting slices of one stream keeps a prefix of it written, and a slice reaching the next index is written through its end, as far as the window allows, unless the output refuses data |
| Reassemblers.OverlapExample | src/reassembler.cc:57-152 | inserting "ab" at 0 and then "bc" at 1 leaves "abc" in the stream |
| NetworkInterfaces.Aged | src/network_interface.cc:130-138 | cache entries whose TTL is at most the elapsed time are evicted; the others keep their address and lose ms |
| NetworkInterfaces.AgedTwice | src/network_interface.cc:130-138 | aging by a then by b is aging by a + b |
| NetworkInterfaces.Renewed | src/network_interface.cc:141-163 | no pending request is removed; an expired one gets the full request TTL again, and the others lose ms |
| NetworkInterfaces.RenewedPositive | src/network_interface.cc:158-161 | after a tick every pending request has time left |
| NetworkInterfaces.TickKeepsConsistent | src/network_interface.cc:126-164 | ticking keeps every waiting datagram's hop uncached and requested |
| NetworkInterfaces.NetworkInterface.constructor | src/network_interface.cc:10-15 | empty cache, requests, waiting list and outbound queue |
| NetworkInterfaces.NetworkInterface.DatagramFrame | src/network_interface.cc:27-31 | the IPv4 frame for a datagram: to the given Ethernet address, from ours, carrying the serialised datagram; a constructor of a value with no contract of its own, used in the contracts of `Send`, `FlushAllMatch` and `ReplyDeliversWaiting` |
| NetworkInterfaces.NetworkInterface.RequestFrame | src/network_interface.cc:36-47 | the broadcast ARP request for a target IP address, from our Ethernet and IP addresses; no contract of its own, used in the contracts of `Send` and `Tick` |
| NetworkInterfaces.NetworkInterface.ReplyFrame | src/network_interface.cc:87-98 | the ARP reply to a request, addressed to its sender and giving our Ethernet and IP addresses; no contract of its own, used in the contract of `Learn` |
| NetworkInterfaces.NetworkInterface.IsRequestForUs | src/network_interface.cc:84-85 | an ARP request whose target IP address is ours; no contract of its own, used in the contract of `Learn` |
| NetworkInterfaces.NetworkInterface.IsReplyForUs | src/network_interface.cc:102-103 | an ARP reply whose target Ethernet address is ours; no contract of its own, used in the contract of `Learn` |
| NetworkInterfaces.NetworkInterface.Flush | src/network_interface.cc:110-118 | the flushed list and the frames account for every waiting entry; every kept entry is for another hop |
| NetworkInterfaces.NetworkInterface.FlushNoMatch | src/network_interface.cc:110-118 | entries for other hops pass through the flush unchanged |
| NetworkInterfaces.NetworkInterface.FlushAllMatch | src/network_interface.cc:110-118 | entries all for the resolved hop become their IPv4 frames, in order |
| NetworkInterfaces.NetworkInterface.FlushAppend | src/network_interface.cc:110-118 | the flush of a concatenation is the concatenation of the flushes |
| NetworkInterfaces.NetworkInterface.Send | src/network_interface.cc:23-56 | a cached hop gets one IPv4 frame at once; otherwise the datagram waits, and one broadcast request (with the request TTL) goes out unless one is pending |
| NetworkInterfaces.NetworkInterface.SendKeepsConsistent | src/network_interface.cc:23-56 | sending keeps every waiting hop uncached and requested |
| NetworkInterfaces.NetworkInterface.SendTwiceRequestsOnce | src/network_interface.cc:35-54 | two datagrams for one unresolved hop both wait in order, and only one request is broadcast |
| NetworkInterfaces.NetworkInterface.Learn | src/network_interface.cc:84-120 | a request for us is answered; a request or reply for us caches the sender unless cached, delivers and removes its waiting datagrams, and drops its request; any other message changes nothing |
| NetworkInterfaces.NetworkInterface.Receive | src/network_interface.cc:59-123 | frames not for us or broadcast are dropped; an IPv4 frame yields its parsed datagram and changes nothing; only an ARP frame changes the state |
| NetworkInterfaces.NetworkInterface.LearnKeepsConsistent | src/network_interface.cc:106-120 | learning keeps every waiting hop uncached and requested |
| NetworkInterfaces.NetworkInterface.ReceiveKeepsConsistent | src/network_interface.cc:59-123 | receiving keeps every waiting hop uncached and requested |
| NetworkInterfaces.NetworkInterface.ReplyDeliversWaiting | src/network_interface.cc:102-119 | end to end: a datagram for an unresolved hop is delivered to the advertised address once that hop replies; the hop is cached, its request gone, the waiting list restored |
| NetworkInterfaces.NetworkInterface.SendDatagram | src/network_interface.cc:23-56 | the in-place send performs `Send` |
| NetworkInterfaces.NetworkInterface.FlushWaiting | src/network_interface.cc:110-118 | the in-place erase loop leaves exactly the flushed list and appends the flushed frames |
| NetworkInterfaces.NetworkInterface.RecvFrame | src/network_interface.cc:59-123 | the in-place receive performs `Receive` and returns its datagram |
| NetworkInterfaces.NetworkInterface.LearnFrom | src/network_interface.cc:84-120 | the in-place ARP handling performs `Learn` |
| NetworkInterfaces.NetworkInterface.Tick | src/network_interface.cc:126-164 | the cache is `Aged`, the requests are `Renewed`, and one request frame per expired request, each exactly once, is appended |
| NetworkInterfaces.NetworkInterface.AgeTable | src/network_interface.cc:130-138 | the in-place aging loop leaves exactly `Aged` of the cache |
| NetworkInterfaces.NetworkInterface.RenewRequests | src/network_interface.cc:141-163 | the in-place renewal loop leaves `Renewed` requests and appends one request frame per expired request |
| NetworkInterfaces.NetworkInterface.MaybeSend | src/network_interface.cc:166-175 | the oldest queued frame is handed out and removed, or nothing when the queue is empty |

## Left out

- Serialisation and parsing of IPv4 datagrams and ARP messages are not part of this
  model. They are constant function parameters of the network interface (`serializeDatagram`, `parseDatagram`,
  `serializeArp`, `parseArp`), and a datagram is kept as its bytes.
- `Address` and `ipv4_numeric` are not part of this model. IPv4 addresses are `u32`.
- The debug and error output of the network interface constructor and of `recv_frame`
  (lines 13-14 and 80) is left out. It changes no state.
- The random ISN of the sender's constructor is a parameter. So are `MAX_PAYLOAD_SIZE`
  (`maxPayload`) and the two ARP lifetimes (`arpTtl`, `requestTtl`).
- The headers `byte_stream.hh`, `reassembler.hh`, `tcp_receiver.hh`,
  `network_interface.hh`, `buffer.hh` and the message headers are not part of this model.
  Initial field values other than the sender's are taken from the .cc files' use of
  them. `TCPSenderMessage::sequence_length` is modelled from its use in
  `src/tcp_sender.cc`.
- The sender's `read` helper is modelled as a peek followed by a pop of the bytes taken.
  The `Buffer` type is a byte sequence.
- NetworkInterfaces.NetworkInterface.Tick: the order in which expired requests are
  re-broadcast follows the iteration order of the request table. That container's type
  is declared in a header which is not part of this model. The model leaves the order
  open as a ghost out-parameter, and proves that each expired request is re-broadcast
  exactly once.
- Reassemblers.Reassembler.Place: `PlacedFrom` promises nothing for data at index 0
  while a substring is already stored at 0. That covers the coverage clauses, the kept
  entries and the origin of every entry. The case happens only when the output refuses
  data. Then the rear pass cuts the data to nothing, and the 64-bit
  `new_index + data.size() - 1` of line 61 wraps to 2^64 - 1. Every later stored
  substring then counts as covered by the data, and lines 74-77 erase it.
- Reassemblers.Reassembler.Place: `Placed` does not fix how the new bytes are split into
  map entries, only that each entry is a kept old entry or a slice of the data. The source
  stores the resolved data as one entry (lines 121-124). `Store` states that, and
  `Resolve` states where the data is cut.
- Reassemblers.Reassembler.Assemble: the same exception as `Place`. `Assembled` then
  promises neither the coverage clauses (`CoversAfter`) nor the origin of stored and
  written bytes (`Merged`).
- Reassemblers.Reassembler.Admit: the same exception as `Assemble`.
- Reassemblers.Reassembler.Insert: the same exception as `Assemble`.
- TCPReceivers.TCPReceiver.Receive: the same exception as `Assemble`, for a payload at
  stream index 0.
- Reassemblers.Rekey is the corrected re-keying of lines 132-141, not the code as written
  (see Findings); the as-written half is `RekeyAsWritten`. With the code as written, a push
  the output refuses drops the entry at the next index and leaves its bytes counted, and
  the invariant the members below keep would fail.
- Reassemblers.DrainPartKeepsInv follows the corrected `Rekey`.
- Reassemblers.Reassembler.Advance follows the corrected `Rekey`.
- Reassemblers.Reassembler.DrainStep follows the corrected `Rekey`: a refused push leaves
  the entry stored.
- Reassemblers.Reassembler.Drain follows the corrected `Rekey`.
- Reassemblers.Reassembler.Assemble follows the corrected `Rekey`, through `Drain`.
- Reassemblers.Reassembler.Admit follows the corrected `Rekey`, through `Drain`.
- Reassemblers.Reassembler.Insert follows the corrected `Rekey`, through `Drain`.
- TCPSenders.TCPSender.Push requires a stream that is not errored, or one with nothing
  buffered. On an errored stream, `pop` does nothing (byte_stream.cc line 69). The loop of
  lines 49-78 would then send the same buffered bytes again in every segment, until the
  budget is used up. `Read` and `MakeSegment` do model that case.
- Reassemblers.Reassembler.Insert, TCPReceivers.TCPReceiver.Receive and
  TCPSenders.TCPSender.Push require the stream to stay below 2^64 bytes
  (`outLen + capacity + |data| < 2^64`, `nxtSeqno + buffered + 2 < 2^64`). Past that
  point the source's counters would wrap.
- ByteStreams.ByteStream.Push counts bytes pushed in an unbounded `nat` and has no
  precondition that keeps the count below 2^64. The 64-bit additions to `tot_len_`
  (byte_stream.cc lines 17 and 20) would wrap past that point, and `bytes_pushed` and
  `available_capacity` would show it; the model does not.
- ByteStreams.ByteStream.Pop counts bytes popped in an unbounded `nat` in the same way,
  so the wrap of the 64-bit `out_len_ += len` (line 74) is not modelled either; it
  would show through `bytes_popped`.
- ByteStreams.ByteStream.Pop requires `len` to be at most the bytes buffered unless the
  stream is errored or empty. For a larger `len`, `substr` throws in the source, and the
  model does not cover that exception.
- WrappingIntegers.UnwrapOfWrap excludes the indices near 2^64 where the 64-bit sum of
  line 13 wraps. `UnwrapOverflowsNearTop` exhibits that case.
- Reassemblers.Reassembler.ResolveFront: the test of the erase branch of lines 103-105 is
  kept, and the branch is proved unreachable (`assert false`) once the rear pass has run,
  so the model has no code for the erase itself.
- Concurrency and real time are not modelled. Elapsed time reaches `tick` as a
  parameter.

Two behaviours of the source are worth noting:

- The receiver's ackno counts the FIN once the output stream is *closed*
  (`is_closed`, line 34), not once it is finished.
- The sender records an ackno (line 90) before it rejects it for lying beyond what was
  sent (line 92).

## Findings

| source | as written | input that shows it | evidently intended | confidence | as-written member | corrected member |
|---|---|---|---|---|---|---|
| src/reassembler.cc:132-141 | when the output accepts fewer bytes than offered, the remainder is re-inserted with `std::map::insert` at the advanced index, then the old key is erased; when nothing was pushed (output closed or errored) the two keys coincide, `insert` does nothing, `erase` drops the entry, and `unassembled_bytes_` still counts its bytes | an entry `{1: "b"}` with `unassembled_bytes_ == 1` at next index 1, drained into an errored stream: the map becomes empty while `bytes_pending()` stays 1, so `is_closed()` can never become true | the unpushed remainder stays pending at the advanced index and the counter equals the bytes stored | not executed | Reassemblers.RekeyAsWritten / Reassemblers.RekeyAsWrittenLosesBytes | Reassemblers.Rekey / Reassemblers.RekeyKeepsCount |
