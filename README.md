# minnow TCP core, modelled in Dafny

This project models the core of the minnow teaching TCP stack and proves
properties of the model. It covers five pieces:

- **Bounded byte stream** (`byte_stream.dfy`, module `ByteStreams`). A FIFO
  of bytes with a fixed capacity, stored as a queue of fragments with a
  count of unread bytes left in the front fragment. It has push, pop, peek
  and close, and counts the bytes pushed and popped.
- **Wrapped sequence numbers** (`wrapping_integers.dfy`, module
  `WrappingIntegers`). `wrap` maps an absolute 64-bit index to a 32-bit
  sequence number relative to an initial sequence number. `unwrap` picks,
  among three candidates, the absolute index nearest a checkpoint.
- **Reassembler** (`pending_ranges.dfy` with module `PendingRanges`, and
  `reassembler.dfy` with module `Reassembly`). It stores out-of-order byte
  ranges and clips each insert to the acceptance window. It merges
  overlapping ranges and pushes the contiguous front into its output
  stream. It closes the output once the final index is reached.
  - `PendingRanges` states one `insert` as a pure step function over the
    stored ranges (clip, merge, drain) and proves its properties.
  - `Reassembly` is the imperative class. Its methods and loops are proved
    against that step function.
- **Receiver** (`tcp_receiver.dfy`, module `Receiver`). It records the
  initial sequence number on SYN, turns sequence numbers into stream
  indices and hands payloads to the reassembler. It reports an
  acknowledgment number and a window capped at 65535.
- **Sender** (`tcp_sender.dfy`, module `Sender`). It cuts the outbound
  stream into segments within the peer's window, treating a zero window as
  a window of one. It keeps the unacknowledged segments in order and
  removes them on cumulative acknowledgments. It retransmits the earliest
  one when the retransmission timer expires, with exponential backoff that
  a zero window suppresses.

`common.dfy` holds the fixed-width integer ranges, `Option`, `Min`/`Max`
and small sequence lemmas. `messages.dfy` holds the two message records
and the sequence length of a sender message.

Objects whose fields the source updates in place are classes: the byte
stream, the reassembler, the receiver and the sender. Each class has a
`Valid()` invariant, `modifies` frames on its methods and `reads` frames on
its observers. The integer arithmetic of sequence numbers is written with
functions and lemmas. Every message handed to the sender's `transmit`
callback is recorded in the ghost sequence `sent`.

Details of the source that the model keeps as written:

- An RST segment makes the receiver raise the stream's error and drop only
  that segment; later segments are still processed (src/tcp_receiver.cc:7-10).
- Every `is_last` insert overwrites the recorded final index
  (src/reassembler.cc:9-11).
- Stored ranges are merged only when they strictly overlap
  (src/reassembler.cc:57,75), so adjacent ranges stay apart. The drain loop
  then pushes adjacent ranges one after another.
- On a tie, `unwrap` keeps the candidate in the checkpoint's own 2^32 block,
  because both comparisons are strict (src/wrapping_integers.cc:28,37).

## Model

| member | source | states |
|---|---|---|
| `WrappingIntegers.Wrap` | src/wrapping_integers.cc:7-9 | The wrapped value is (zero point + n) mod 2^32. |
| `WrappingIntegers.WrapPeriodic` | src/wrapping_integers.cc:8 | Adding any multiple of 2^32 to the absolute index does not change its wrapped value. |
| `WrappingIntegers.WrapOfResidue` | src/wrapping_integers.cc:7-9 | Every absolute index whose residue mod 2^32 equals the offset of `w` from the zero point wraps to `w`. |
| `WrappingIntegers.WrapResidue` | src/wrapping_integers.cc:7-9 | Conversely, every index that wraps to `w` has that residue, so the two lemmas together characterise the indices of `w` exactly. |
| `WrappingIntegers.Plus` | src/tcp_receiver.cc:18 | `Wrap32 + n` is congruent to the raw value plus n modulo 2^32. |
| `WrappingIntegers.BlockBase` | src/wrapping_integers.cc:13 | Masking the low 32 bits gives a multiple of 2^32 no greater than the checkpoint and within 2^32 of it. |
| `WrappingIntegers.OwnCandidate` | src/wrapping_integers.cc:12-14 | The first candidate lies in the checkpoint's own 2^32 block. |
| `WrappingIntegers.Unwrap` | src/wrapping_integers.cc:11-41 | The result wraps back to the given sequence number. |
| `WrappingIntegers.UnwrapCongruent` | src/wrapping_integers.cc:21-39 | Each of the three candidates, including the uint64 sum `candidate + 2^32`, wraps to the given sequence number. |
| `WrappingIntegers.UnwrapBeatsCandidates` | src/wrapping_integers.cc:21-39 | The result is at least as close to the checkpoint as each candidate considered; the earlier one is considered only when it does not underflow. |
| `WrappingIntegers.UnwrapNearest` | src/wrapping_integers.cc:13-39 | Nearest rule: no index congruent to the sequence number is strictly closer to the checkpoint than the result. |
| `WrappingIntegers.UnwrapWrap` | src/wrapping_integers.cc:11-41 | Round trip: unwrapping `wrap(n, z)` with checkpoint n gives back n. |
| `WrappingIntegers.UnwrapNeighbourClose` | src/wrapping_integers.cc:25-39 | The result leaves the checkpoint's block only for a neighbour strictly within 2^31 of the checkpoint. |
| `WrappingIntegers.UnwrapTieBreak` | src/wrapping_integers.cc:25-39 | When another congruent index is exactly as close, the result is the candidate in the checkpoint's own block. |
| `WrappingIntegers.UnwrapWithinHalfPeriod` | src/wrapping_integers.cc:21-39 | For checkpoints from 2^31 up to 2^64 - 2^32, the result is within 2^31 of the checkpoint. |
| `WrappingIntegers.UnwrapTopBlock` | src/wrapping_integers.cc:35-39 | In the top 2^32 block the half-period bound fails: with checkpoint 2^64 - 1 the zero point unwraps to 2^64 - 2^32, which is 2^32 - 1 away. |
| `Messages.SequenceLength` | src/tcp_sender.cc:78 | A message occupies at least its payload's length in sequence numbers, and none exactly when it has no SYN, no FIN and no payload. |
| `ByteStreams.ConsumeFront` | src/byte_stream.cc:62-75 | The pop loop over the fragment queue leaves exactly the unread bytes minus the first n; popping 0 changes nothing. |
| `ByteStreams.Enqueue` | src/byte_stream.cc:25-27 | Appending a non-empty fragment appends its bytes to the unread bytes and keeps them the unpopped suffix of everything written. |
| `ByteStreams.UnreadDropFront` | src/byte_stream.cc:66-69 | Dropping the exhausted front fragment removes exactly its unread bytes. |
| `ByteStreams.UnreadShrinkFront` | src/byte_stream.cc:70-72 | Shrinking the front fragment's unread count by n removes exactly n bytes from the front. |
| `ByteStreams.ByteStream.constructor` | src/byte_stream.cc:5-14 | A new stream of the given capacity is empty, open, error-free, and has pushed and popped nothing. |
| `ByteStreams.ByteStream.AvailableCapacity` | src/byte_stream.cc:37-39 | Free space plus buffered bytes equals the capacity. |
| `ByteStreams.ByteStream.BytesPushed` | src/byte_stream.cc:41-43 | The count of every byte the stream ever accepted. |
| `ByteStreams.ByteStream.BytesPopped` | src/byte_stream.cc:49-51 | FIFO: everything written is the popped prefix followed by the buffered bytes. |
| `ByteStreams.ByteStream.BytesBuffered` | src/byte_stream.cc:77-79 | The number of buffered bytes, equal to bytes pushed minus bytes popped. |
| `ByteStreams.ByteStream.IsFinished` | src/byte_stream.cc:45-47 | Finished exactly when closed and nothing is buffered. |
| `ByteStreams.ByteStream.Peek` | src/byte_stream.cc:53-59 | A prefix of the buffered bytes, empty exactly when nothing is buffered; the stream is not changed. |
| `ByteStreams.ByteStream.Push` | src/byte_stream.cc:20-31 | Appends exactly the first min(free space, length of data) bytes whether or not the stream is closed; accepting none changes nothing. |
| `ByteStreams.ByteStream.Append` | src/byte_stream.cc:25-29 | A new fragment that fits is appended to the buffered and the written bytes. |
| `ByteStreams.ByteStream.Close` | src/byte_stream.cc:33-35 | Closes the stream, keeping the buffered bytes and the free space; closing again is harmless. |
| `ByteStreams.ByteStream.SetError` | src/tcp_receiver.cc:8 | Raises the sticky error flag. |
| `ByteStreams.ByteStream.Pop` | src/byte_stream.cc:62-75 | Removes exactly the first `len` buffered bytes and raises the popped count by `len`; `pop(0)` changes nothing. |
| `ByteStreams.ByteStream.TakeFront` | src/byte_stream.cc:53-75 | Takes a non-empty piece, at most the amount wanted, from the front of the buffered bytes. |
| `ByteStreams.ByteStream.Read` | src/tcp_sender.cc:63 | Reads exactly the first min(len, buffered) bytes, in order, and removes them from the stream. |
| `ByteStreams.TwoByteScenario` | src/byte_stream.cc:20-75 | With capacity 2, pushing "ab" then "cd" accepts 2 bytes; after one pop the peek shows "b" and one byte is free. |
| `PendingRanges.Clip` | src/reassembler.cc:18-47 | The kept part is the intersection of the data with the window [left, left + room), with the matching bytes; it is nothing exactly when that intersection is empty. |
| `PendingRanges.LowerBound` | src/reassembler.cc:50 | `lower_bound`: every range before the position starts below the key, and every range from it on starts at or after the key. |
| `PendingRanges.Grow` | src/reassembler.cc:78-82 | Swallowing a successor keeps the start and extends the end to the later of the two ends. |
| `PendingRanges.Absorb` | src/reassembler.cc:75-87 | The successor loop only extends the range, and stops at the first range that starts at or after its end. |
| `PendingRanges.MergeBase` | src/reassembler.cc:50-72 | The predecessor check: covered only when a stored range contains the new data; otherwise the range to insert ends where the new data ends and either is the new data or starts at a strictly overlapping predecessor that ends earlier. |
| `PendingRanges.Merge` | src/reassembler.cc:50-91 | An insert covered by a stored range changes nothing; otherwise the merged ranges contain the new data. |
| `PendingRanges.Splice` | src/reassembler.cc:89-91 | The splice removes the `next - first` swallowed ranges and puts the merged range at position `first`. |
| `PendingRanges.Drain` | src/reassembler.cc:94-117 | The drain loop pushes no more than the free room. |
| `PendingRanges.DrainConserves` | src/reassembler.cc:94-117 | The drain loop loses no byte: the bytes pushed plus the bytes left pending equal the bytes pending before. |
| `PendingRanges.InsertStep` | src/reassembler.cc:4-122 | An insert pushes at most the free room and advances the front index by what it pushes; once the output is closed it changes nothing; otherwise it records the final index of a last substring and keeps the earlier one otherwise. |
| `PendingRanges.AcceptStep` | src/reassembler.cc:18-121 | Past the early returns, an insert pushes at most the free room, advances the front index by what it pushes and keeps the final index. |
| `PendingRanges.MergeBaseShape` | src/reassembler.cc:53-72 | The predecessor is merged only when it strictly overlaps; the merged range then starts at the predecessor and ends where the new data ends. |
| `PendingRanges.OrderedSplice` | src/reassembler.cc:89-91 | Putting the merged range in place of the ranges it swallowed keeps the ranges ordered and non-overlapping. |
| `PendingRanges.StoredSplice` | src/reassembler.cc:89-91 | That splice also keeps every range non-empty and inside the window. |
| `PendingRanges.AbsorbWithin` | src/reassembler.cc:75-87 | A range grown from ranges inside the window stays inside the window. |
| `PendingRanges.AbsorbAgrees` | src/reassembler.cc:75-87 | A range grown from ranges taken from one stream is still taken from that stream. |
| `PendingRanges.MergeKeepsStored` | src/reassembler.cc:50-91 | After a merge the stored ranges are still ordered, pairwise non-overlapping (adjacency allowed), non-empty and inside the window. |
| `PendingRanges.MergeAgrees` | src/reassembler.cc:50-91 | Merging a range taken from a stream into ranges taken from it keeps every stored byte equal to that stream's byte at its index. |
| `PendingRanges.DrainStops` | src/reassembler.cc:94-117 | The drain pushes at most the free room, and stops only when no range starts at the new front index or the output is full. |
| `PendingRanges.DrainKeepsStored` | src/reassembler.cc:94-117 | Draining moves bytes from the ranges to the output one for one, and leaves the rest stored strictly after the new front index. |
| `PendingRanges.DrainAgrees` | src/reassembler.cc:94-117 | The drained bytes are exactly the stream's bytes from the front index on. |
| `PendingRanges.DrainWholeFront` | src/reassembler.cc:98-103 | Pushing a whole front range extends the pushed bytes with that range's bytes. |
| `PendingRanges.DrainPartialFront` | src/reassembler.cc:104-115 | A front range larger than the room is pushed in part, and the remainder is kept at the new front index. |
| `PendingRanges.TotalLengthZero` | src/reassembler.cc:124-126 | No pending bytes exactly when no range is stored. |
| `PendingRanges.ClipAgrees` | src/reassembler.cc:27-42 | Clipping data taken from a stream keeps it taken from that stream. |
| `PendingRanges.InsertStepEarly` | src/reassembler.cc:5-47 | An insert returning early pushes nothing and keeps the ranges; it records the final index and closes the output when that index is reached. |
| `PendingRanges.InsertStepDrained` | src/reassembler.cc:4-122 | An insert that reaches the drain loop clips, merges and drains, then closes the output if the front index reached the final index. |
| `PendingRanges.AcceptKeepsInvariant` | src/reassembler.cc:18-121 | Accepting data keeps the ranges inside the window and the output closed exactly when the final index is reached; the front index moves by the bytes pushed. |
| `PendingRanges.InsertKeepsInvariant` | src/reassembler.cc:4-122 | Every insert keeps that invariant; after a drain no stored range starts at the front index. |
| `PendingRanges.InsertDrainStops` | src/reassembler.cc:94-117 | After an insert that drains, no range starts at the front index unless the output has no room left. |
| `PendingRanges.AcceptUnchanged` | src/reassembler.cc:18-59 | An insert that the window clips away entirely, or that a stored range already covers, changes no range and no index and pushes nothing. |
| `PendingRanges.AcceptDrained` | src/reassembler.cc:50-121 | Otherwise the accept step stores what the drain leaves, pushes what it pushes, advances the front index by that many bytes and closes exactly when the final index is reached. |
| `PendingRanges.InsertAgrees` | src/reassembler.cc:4-122 | When everything stored and inserted is taken from one stream, an insert pushes exactly that stream's bytes from the old front index to the new one. |
| `PendingRanges.InsertKeepsPrefix` | src/reassembler.cc:4-122 | If the output so far holds a stream up to the front index, it still does after any insert of bytes taken from that stream. |
| `PendingRanges.AbsorbCovers` | src/reassembler.cc:75-87 | Every range the successor loop erases ends within the grown range. |
| `PendingRanges.MergeCovers` | src/reassembler.cc:50-91 | No byte is lost by a merge: when it returns early a stored range already holds the new data, and otherwise every old range and the new data lie inside some merged range. |
| `PendingRanges.InsideRetained` | src/reassembler.cc:50-91 | Every index of a range held inside the stored ranges is pending or already pushed. |
| `PendingRanges.DrainRetains` | src/reassembler.cc:94-117 | Every index pushed or pending before the drain loop is pushed or pending after it. |
| `PendingRanges.MergeRetains` | src/reassembler.cc:50-91 | A merge keeps every pending index pending, and makes every index of the new data pending. |
| `PendingRanges.AcceptRetains` | src/reassembler.cc:18-117 | Clip, merge and drain keep every pushed or pending index, and every index of the inserted data inside the window ends up pushed or pending. |
| `PendingRanges.InsertRetains` | src/reassembler.cc:4-122 | An insert inside the window keeps every pushed or pending index, and unless it closes the output every index of its data is pushed or pending afterwards. |
| `PendingRanges.InsertStepFacts` | src/reassembler.cc:4-122 | An insert of bytes of one stream keeps the output a prefix of the stream, the ranges stored and agreeing with it, no range at the front index, the final index recorded, and every index retained. |
| `PendingRanges.RunStep` | src/reassembler.cc:4-122 | One insert of a piece of the stream keeps the invariant of a run of inserts. |
| `PendingRanges.RunKeepsInvariant` | src/reassembler.cc:4-122 | Any run of inserts of pieces of one stream into a fresh reassembler keeps the output a prefix of the stream and every inserted index pushed or pending. |
| `PendingRanges.ReassemblyCompletes` | src/reassembler.cc:4-122 | Completion: pieces of a stream inserted in any order, with room for the whole stream, that cover every index and include the last piece leave the output holding exactly the stream, closed, with nothing pending. |
| `PendingRanges.HelloFirstPiece` | src/reassembler.cc:4-122 | "llo" inserted last at index 2 into an empty reassembler is stored and the final index 5 is recorded. |
| `PendingRanges.HelloSecondPiece` | src/reassembler.cc:4-122 | "he" at index 0 then pushes "hello", leaves nothing pending and closes the output. |
| `Reassembly.AbsorbSuccessors` | src/reassembler.cc:75-87 | The successor loop computes exactly the grown range and kept position of `Absorb`, and counts the bytes it erased. |
| `Reassembly.MergeSegments` | src/reassembler.cc:50-91 | The merge computes exactly `Merge` and keeps `bytes_pending` equal to the stored total. |
| `Reassembly.Reassembler.constructor` | src/reassembler.hh:12-18 | A new reassembler has no pending ranges, front index 0, no final index and no pending bytes. |
| `Reassembly.Reassembler.CountBytesPending` | src/reassembler.cc:124-126 | The pending count is the sum of the stored ranges' lengths, and 0 exactly when none is stored. |
| `Reassembly.Reassembler.Insert` | src/reassembler.cc:4-122 | Implements the insert step and keeps the invariant. It appends exactly the pushed bytes to the output and does nothing once the output is closed. A last substring records its final index. |
| `Reassembly.Reassembler.Accept` | src/reassembler.cc:18-121 | Clipping, merging, draining and the final close together perform the accept step: the new state is the step's state, and the output gains exactly the step's pushed bytes. |
| `Reassembly.Reassembler.CloseIfDone` | src/reassembler.cc:119-121 | Closes the output exactly when the final index is known and reached, keeping its bytes. |
| `Reassembly.Reassembler.MergeAndDrain` | src/reassembler.cc:50-121 | Stores the merged ranges, drains them into the output and closes it once the final index is reached; a covered insert returns before all of this and changes nothing, and the result says which case happened. |
| `Reassembly.Reassembler.DrainInto` | src/reassembler.cc:94-117 | The drain loop pushes exactly `Drain`'s bytes, advances the front index by them and keeps the rest. |
| `Reassembly.Reassembler.PushFront` | src/reassembler.cc:95-116 | One iteration of the drain loop pushes the front range or the part that fits. The rest of the drain is unchanged. |
| `Reassembly.Reassembler.PopOutput` | src/reassembler.hh:23-24 | Reading the output through the reassembler removes bytes and keeps the reassembler's invariant. |
| `Receiver.Ackno` | src/tcp_receiver.cc:20 | The ackno lies bytes pushed, plus one for the SYN, plus one once the FIN closed the stream, past the zero point, modulo 2^32. |
| `Receiver.AcknoUnwraps` | src/tcp_receiver.cc:20 | The ackno unwraps back to the absolute sequence number of the next expected byte (below 2^64). |
| `Receiver.Checkpoint` | src/tcp_receiver.cc:16 | The checkpoint is bytes pushed plus one. |
| `Receiver.StreamIndex` | src/tcp_receiver.cc:17-18 | One more than the stream index wraps to the seqno, moved past the SYN when there is one. |
| `Receiver.InOrderIndex` | src/tcp_receiver.cc:16-18 | A segment carrying the next expected byte maps to the index of that byte. |
| `Receiver.SynIndex` | src/tcp_receiver.cc:11-18 | The payload of a SYN carrying the initial sequence number lands at stream index 0. |
| `Receiver.TCPReceiver.constructor` | src/tcp_receiver.cc:15 | A new receiver has no acknowledgment number and an empty reassembler. |
| `Receiver.TCPReceiver.Receive` | src/tcp_receiver.cc:6-22 | An RST only raises the error. A SYN records the zero point. Before any SYN nothing changes. Once synchronized, the payload is inserted at its stream index with FIN as the last flag, and the ackno follows. |
| `Receiver.TCPReceiver.Deliver` | src/tcp_receiver.cc:19-20 | The insert step at the index, then ackno = wrap(pushed + 1 + closed, zero point). |
| `Receiver.TCPReceiver.Send` | src/tcp_receiver.cc:24-28 | The ackno is absent exactly before the first SYN. The window is min(free space, 65535). The error flag is the stream's. |
| `Sender.ChainInFlight` | src/tcp_sender.cc:79-81 | The in-flight count is the sum of the outstanding segments' sequence lengths, zero exactly when none is outstanding. |
| `Sender.ChainAppend` | src/tcp_sender.cc:79-81 | Recording a segment at the next sequence number keeps the outstanding segments contiguous up to the new next sequence number. |
| `Sender.ChainOrdered` | src/tcp_sender.hh:63 | Outstanding segments are ordered by start, non-overlapping, and lie between the oldest unacknowledged and the next sequence number. |
| `Sender.AckedPrefix` | src/tcp_sender.cc:127-140 | The erase loop removes the longest prefix of segments that end at or before the ackno. |
| `Sender.AckedExactly` | src/tcp_sender.cc:127-140 | A segment is removed exactly when it ends at or before the ackno. A partial ack removes nothing. An ack of everything sent removes all. |
| `Sender.AckTarget` | src/tcp_sender.cc:112-121 | An ackno is used exactly when it is present and unwraps no further than the next sequence number; the value used is that unwrapped index, which wraps to the received ackno. |
| `Sender.EffectiveWindow` | src/tcp_sender.cc:19-22 | The window equals the advertised one when non-zero and is 1 when it is zero. |
| `Sender.TickTimer` | src/tcp_sender.cc:157-179 | A stopped timer ignores ticks; a running one below the RTO only accumulates the time. On expiry the timer retransmits exactly when segments are outstanding and stops otherwise. A retransmission restarts the timer from 0, doubles the RTO when the window is open, keeps it otherwise, and counts one more retransmission; without one the RTO and the count stay the same. |
| `Sender.ExponentialBackoff` | src/tcp_sender.cc:163-177 | n expiries in a row with an open window multiply the RTO by 2^n and count n retransmissions. |
| `Sender.ZeroWindowNoBackoff` | src/tcp_sender.cc:174-176 | With a zero window, expiries count retransmissions but leave the RTO unchanged. |
| `Sender.PushedOkStep` | src/tcp_sender.cc:31-88 | Each segment added during a push keeps the push's promises. Only the first segment ever carries SYN. A FIN comes once, last. Every segment carries the error flag and its wrapped seqno. |
| `Sender.RemoveAcknowledged` | src/tcp_sender.cc:124-140 | The erase loop leaves exactly the unacknowledged suffix with a matching in-flight count. It reports whether anything was newly acknowledged. |
| `Sender.TCPSender.constructor` | src/tcp_sender.hh:13-18 | A new sender has the timer stopped, RTO at its initial value and nothing in flight. SYN and FIN are unsent, the next seqno is 0 and the assumed window is 1. |
| `Sender.TCPSender.SequenceNumbersInFlight` | src/tcp_sender.cc:8-10 | The in-flight count is the sum of the outstanding segments' sequence lengths. |
| `Sender.TCPSender.ConsecutiveRetransmissions` | src/tcp_sender.cc:13-15 | The RTO lies between its initial value and that value doubled once per consecutive retransmission. It is the initial value when the count is 0. |
| `Sender.TCPSender.MakeEmptyMessage` | src/tcp_sender.cc:96-98 | An empty message occupies no sequence numbers and carries the next seqno wrapped around the ISN and the error flag. |
| `Sender.TCPSender.Write` | src/tcp_sender.hh:40 | Writing to the outbound stream appends what fits. |
| `Sender.TCPSender.CloseInput` | src/tcp_sender.hh:40 | Closing the outbound stream keeps the sender's invariant. |
| `Sender.TCPSender.Record` | src/tcp_sender.cc:77-88 | Recording a segment keys it by the next seqno and advances that seqno and the in-flight count by its length. It hands the segment to `transmit` and starts a stopped timer. |
| `Sender.TCPSender.ReadPayload` | src/tcp_sender.cc:58-66 | The payload is the first min(space, MAX_PAYLOAD_SIZE, buffered) bytes of the stream, and empty when nothing is buffered or no space is left. |
| `Sender.TCPSender.FillPayload` | src/tcp_sender.cc:57-74 | Adds that payload, then FIN exactly when it is unsent, the stream is closed and drained, and space remains. The space shrinks by what was added. |
| `Sender.TCPSender.BuildSegment` | src/tcp_sender.cc:31-74 | The segment starts at the next seqno and carries SYN exactly when SYN was unsent and FIN only once the stream is closed and drained. Its payload is the front of the stream, and its sequence length is the space it used. It is empty only when nothing is left to send. |
| `Sender.TCPSender.SendOne` | src/tcp_sender.cc:31-92 | One loop iteration sends a well-formed segment using up some space, or sends nothing only when SYN is sent, the stream is empty and FIN is sent or not yet due. |
| `Sender.TCPSender.PushRound` | src/tcp_sender.cc:30-93 | One round of the push loop keeps the push's progress invariant and uses up space whenever it sends. |
| `Sender.TCPSender.FillWindow` | src/tcp_sender.cc:30-93 | The push loop ends with the window full or nothing left to send. |
| `Sender.TCPSender.Push` | src/tcp_sender.cc:17-94 | Sends segments of the stream's bytes in order and never raises in-flight above max(previous in-flight, effective window). It stops only with the window full or nothing left to send. SYN goes once first, FIN at most once. |
| `Sender.TCPSender.Receive` | src/tcp_sender.cc:100-155 | Nothing happens after an error. RST raises it. Otherwise the window is updated and a valid ackno removes exactly the fully acknowledged prefix. A fresh ack resets the RTO and the count, and runs the timer exactly when segments remain. |
| `Sender.TCPSender.Acknowledge` | src/tcp_sender.cc:124-154 | Removing the acknowledged prefix, with the timer reset on fresh acknowledgment and untouched otherwise. |
| `Sender.TCPSender.RestartTimer` | src/tcp_sender.cc:143-154 | Resets the RTO and the count; the timer runs, from 0, exactly when segments remain outstanding. |
| `Sender.TCPSender.Tick` | src/tcp_sender.cc:157-179 | The timer follows `TickTimer`. On expiry with segments outstanding, exactly the earliest outstanding segment is retransmitted. |

## Left out

- The `transmit` callbacks (src/tcp_sender.hh:27) are not called. Every message handed to them is appended to the ghost sequence `sent` of `Sender.TCPSender`.
- Several headers are not part of this model: byte_stream.hh, tcp_config.hh, tcp_receiver.hh, tcp_sender_message.hh, tcp_receiver_message.hh and wrapping_integers.hh. As a result:
  - `MAX_PAYLOAD_SIZE` is taken as 1000.
  - The sequence length of a message is SYN + payload + FIN.
  - `set_error`/`has_error` are a sticky flag.
  - `Wrap32 + n` is `Plus`.
  - The `read` helper is the peek-and-pop loop `ByteStreams.ByteStream.Read`.
- The Reader and Writer views are not modelled. The stream is one class with both capabilities, so the const writer the reassembler exposes (src/reassembler.hh:25) is not enforced by types.
- Constructors are not modelled as taking a moved-in stream. They take a capacity and build the stream. The receiver's zero point starts at 0 before any SYN; its value is unused then.
- Time is not modelled as a clock. Ticks are plain integer milliseconds.
- Unsigned 64-bit wrap-around is not modelled for the stream counters, the in-flight count, the next sequence number, elapsed time or the retransmission count. These are unbounded naturals. The wrap-arounds that are modelled:
  - `candidate + 2^32` in `unwrap` (src/wrapping_integers.cc:35);
  - `- 1` in the receiver's index (src/tcp_receiver.cc:18);
  - the checkpoint `bytes_pushed + 1`;
  - the final index `first_index + data.size()` (src/reassembler.cc:10).
- Sender.TCPSender.Tick: does not model uint64 overflow when the RTO doubles (src/tcp_sender.cc:175). The RTO is an unbounded natural.
- Reassembly.Reassembler.Insert: does not model wrap-around of the window arithmetic `left_most_index + available_capacity` and `first_index + data.size()` in the clip and merge (src/reassembler.cc:19,28,38). These are unbounded naturals; only the recorded final index wraps.
- ByteStreams.ByteStream.Pop: requires `len` to be at most the buffered byte count, which is the caller's obligation. When the last fragment is used up the source reads the front of an empty queue (src/byte_stream.cc:68-69); the model sets the count to 0 instead.
- WrappingIntegers.UnwrapNearest: the nearest rule is proved only for congruent indices below 2^64, or for checkpoints below 2^64 - 2^32. Above that, the source's uint64 sum `candidate + 2^32` wraps to a small number. `WrappingIntegers.UnwrapTopBlock` shows the effect: at checkpoint 2^64 - 1 the zero point unwraps to 2^64 - 2^32, 2^32 - 1 away, so `UnwrapWithinHalfPeriod` also stops below 2^64 - 2^32.
- Concurrency, congestion control, RTT estimation and the network layer are absent from the source and absent here.
