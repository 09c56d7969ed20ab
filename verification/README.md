# A verified model of the sponge TCP core

A Dafny model of the TCP building blocks of the repository: sequence-number arithmetic, the bounded
byte stream, the stream reassembler, the receiver, the sender with its retransmission timer, the
segment codec with the Internet checksum, and the state summaries. On top of them stands a network
that joins a sender to a receiver and may lose, repeat, reorder and damage what it carries.

Every component appears twice. A value-level function follows the code branch by branch and is total.
A class with the fields of the source updates them in place with the loops of the source, and each of
its methods is proved to compute that function of its old state. The theorems are about the functions,
so they hold of the classes.

A `std::map` with integer keys is a sequence of entries with increasing keys (`OrderedMaps`), an
iterator a position in it. A byte stream's value is everything ever written and how much of it was
read; the deque of the code is what lies between. Integers are unbounded except where the code depends
on their width: 32-bit sequence numbers, the 64-bit unwrap and the 64-bit subtraction of the
reassembler, the 32-bit checksum, timeout and retransmission counter are all written out.

## What is proved

- **End to end** (`Network.EndToEnd`). In every state of every run, whatever the network does: the bytes
  delivered are a prefix of the bytes written, and all of them once the receiver's input has ended;
  what the sender counts as acknowledged, the receiver has; what the receiver has, was sent; no byte
  taken from the sender's stream is forgotten. Segments travel as wire images, so the codec is part of
  the claim. The stream may grow to almost one turn of the sequence numbers (`Network.Unambiguous`);
  `ReceiverInvariants.TurnAgoIsMistaken` shows why not further.
- **No dead end** (`Recovery.NoDeadEnd`). From every reachable state there is a continuation in which
  everything written is delivered, ended and acknowledged, if the receiver can hold one byte. This
  needs that no SYN carries more than the receiver takes with it, because a repeated SYN is ignored.
- **Flow control** (`FlowControl.NoOverrun`). With honest windows and acknowledgments that are not
  overtaken, no byte is ever sent beyond the receiver's right edge, but for the single byte that probes a
  zero window, alone in flight with everything before it acknowledged.
- **The reassembler refines a machine of accepted indices** that knows no substrings
  (`ReassemblyRuns.RunMeetsSpecification`, `ReassemblyRuns.OrderIndependent`).
- **The receiver guards the reassembler** over any run of any segments, forged ones included
  (`ReceiverRuns.AnyRunGuarded`).
- **The segments in flight tile the unacknowledged range**, the segments queued account for every number,
  the timer follows them, and when back-off works is exactly known (`SenderRuns`).
- **A present ackno is exact** over any run of segments of one connection, and so is the end of input
  (`ReceiverRuns.AcknoExact`).
- **Each operation is fixed to the last field**, apart from its body: which segments a fill makes and what
  is ever queued (`SenderExactness`), what any segment does to the receiver
  (`ReceiverInvariants.SegmentExact`), which byte survives when substrings disagree
  (`ReassemblyBytes.PushBytes`), and every bit of the wire image (`SegmentCodec.WireImage`,
  `SegmentCodec.PictureUnique`).
- **Parsing inverts serializing** for every payload and every pseudo-header sum, although the 32-bit sum
  may overflow (`SegmentCodec.SegmentRoundTrip`); no single damaged byte passes.
- **Unwrap is the nearest number**, with the exact exception (`WrappingIntegers.UnwrapNearest`).

## Where the code falls short of its documentation

The model follows the code. Each of these has its exact condition, named first, and a concrete failure.

- The reassembler keeps bytes beyond its capacity exactly when a push starts beyond the right edge
  (`DiscardsBeyondWindow`, `KeepsBytesBeyondWindow`). The receiver never lets that happen
  (`AnyRunGuarded`).
- The reassembler does not stay within the memory limit of its capacity, because substrings that are
  written out may stay in its map. A push leaves some behind exactly when it ends at or below the write
  pointer, or crosses the first gap and swallows a waiting substring (`CleanExact`, `StoresBeyondCapacity`).
  The map may so come to hold all that was ever written (`WholeStreamStored`), but nothing beyond the right
  edge (`StoredWithinEdge`).
- Unwrap misses the nearest number exactly when stepping up leaves 64 bits (`UnwrapNearest`,
  `UnwrapFarAtTheTop`).
- The sender overshoots the window by one exactly when the SYN finds enough data waiting
  (`OvershootExact`, `SynOvershoots`).
- An acknowledgment heard after a later one may open the window past the receiver's right edge
  (`AckBoundedExact`, `OvertakenAckOverruns`).
- A segment with a data offset below five words is accepted (`SegmentParseOutcome`,
  `AcceptsOffsetBelowMinimum`), and one above fifteen does not survive the wire (`SegmentRoundTrip`,
  `OffsetSixteenLost`).
- The ackno is present after a SYN exactly when the receiver has capacity (`AcknoExact`,
  `SynWithoutCapacity`).
- Back-off fails in two ways (`BackoffExact`). A zero window, as it should, holds it back, but for good:
  it does not resume when the window opens again (`ZeroWindowStopsBackoff`). And the doubled timeout
  overflows 32 bits: from a second it becomes zero at the twenty-ninth timeout in a row
  (`OverflowStopsBackoff`), from anything at the thirty-second, and then every tick retransmits
  (`BackoffCollapses`).

## Model

| member | source | states |
|---|---|---|
| `WrappingIntegers.WrapAsWritten` | libsponge/wrapping_integers.cc:14-18 | one addition modulo 2^32 is the mask and the 32-bit addition of the code |
| `WrappingIntegers.UnwrapNearest` | libsponge/wrapping_integers.cc:20-43 | the result wraps to n, no 64-bit number doing so is closer to the checkpoint and ties go down, if and only if stepping up stays within 64 bits |
| `WrappingIntegers.UnwrapFarAtTheTop` | libsponge/wrapping_integers.cc:36-37 | a checkpoint at which the nearest number is missed |
| `WrappingIntegers.UnwrapWrap` | libsponge/wrapping_integers.cc:14-43 | exactly which absolute numbers survive being wrapped and unwrapped |
| `WrappingIntegers.UnwrapOld` | libsponge/wrapping_integers.cc:36-40 | a number more than 2^31 behind the checkpoint comes out one turn too high |
| `ByteStreams.WritesWhatFits` | libsponge/byte_stream.cc:17-31 | a write takes a prefix of the data, and all of it unless that fills the stream |
| `ByteStreams.ReadsWhatIsThere` | libsponge/byte_stream.cc:53-64 | a read returns the front of the buffer, and as much as asked for unless that drains it |
| `ByteStreams.FirstInFirstOut` | libsponge/byte_stream.cc:17-64 | over any run of writes, reads and end_input the reads return the written bytes in order and the rest is the buffer; the input ends exactly by end_input, and the end of file comes when all is read |
| `ByteStreams.ByteStream.constructor` | libsponge/byte_stream.cc:13-15 | a new stream is empty, open and has the given capacity |
| `ByteStreams.ByteStream.WriteString` | libsponge/byte_stream.cc:17-31 | appends as much as fits and returns how much that was |
| `ByteStreams.ByteStream.PeekOutput` | libsponge/byte_stream.cc:34-38 | returns the next bytes and changes nothing |
| `ByteStreams.ByteStream.PopOutput` | libsponge/byte_stream.cc:41-48 | advances the read count and nothing else |
| `ByteStreams.ByteStream.ReadString` | libsponge/byte_stream.cc:53-64 | returns and pops the next bytes, at most what is buffered |
| `ByteStreams.ByteStream.End` | libsponge/byte_stream.cc:66 | sets the end of input and nothing else |
| `ByteStreams.ByteStream.RemainingCapacity` | libsponge/byte_stream.cc:80 | capacity minus what is written and not read |
| `ByteStreams.ByteStream.AtEof` | libsponge/byte_stream.cc:74 | ended and drained |
| `Reassembly.StreamReassembler.constructor` | libsponge/stream_reassembler.cc:12-13 | a new reassembler holds nothing |
| `Reassembly.StreamReassembler.PushSubstring` | libsponge/stream_reassembler.cc:19-86 | the whole new state is `Push` of the old one, for every input |
| `Reassembly.StreamReassembler.AcceptSubstring` | libsponge/stream_reassembler.cc:21-41 | truncation, end mark and the longer of two substrings with one index |
| `Reassembly.StreamReassembler.CutToWindow` | libsponge/stream_reassembler.cc:21-31 | what is kept of the data, and when the end mark counts |
| `Reassembly.StreamReassembler.StoreSubstring` | libsponge/stream_reassembler.cc:33-41 | the map update, with keys still increasing |
| `Reassembly.StreamReassembler.SettleSubstrings` | libsponge/stream_reassembler.cc:43-85 | both loops and the end-of-input test |
| `Reassembly.StreamReassembler.AssembleLoop` | libsponge/stream_reassembler.cc:43-58 | the first loop computes `Assemble` |
| `Reassembly.StreamReassembler.MergeLoop` | libsponge/stream_reassembler.cc:60-81 | the second loop computes `Merge` |
| `Reassembly.StreamReassembler.UnassembledBytes` | libsponge/stream_reassembler.cc:89-97 | the total size of the substrings above the write pointer |
| `Reassembly.StreamReassembler.Empty` | libsponge/stream_reassembler.cc:99-101 | true exactly when nothing waits |
| `ReassemblyRefinement.StoreHolds` | libsponge/stream_reassembler.cc:33-41 | storing adds exactly the indices of the substring |
| `ReassemblyRefinement.AssembleKeeps` | libsponge/stream_reassembler.cc:43-58 | no write is cut short; what remains lies below the write pointer or strictly above it |
| `ReassemblyRefinement.AssembleAccepts` | libsponge/stream_reassembler.cc:43-58 | the first loop gains and loses no index |
| `ReassemblyRefinement.MergeKeeps` | libsponge/stream_reassembler.cc:60-81 | afterwards no two substrings overlap |
| `ReassemblyRefinement.MergeHolds` | libsponge/stream_reassembler.cc:60-81 | the second loop gains and loses no index |
| `ReassemblyRefinement.PushRefines` | libsponge/stream_reassembler.cc:19-86 | a push in the window keeps the invariant and accepts exactly its indices below the right edge, next to all earlier ones |
| `ReassemblyRefinement.WritePtrIsFirstGap` | libsponge/stream_reassembler.cc:45-58 | the write pointer is the least index not accepted |
| `ReassemblyRefinement.DiscardsBeyondWindow` | libsponge/stream_reassembler.cc:26-27 | bytes beyond the right edge are discarded if and only if the push starts at or below it, or is empty |
| `ReassemblyRefinement.KeepsBytesBeyondWindow` | libsponge/stream_reassembler.cc:26-27 | the smallest push that is kept beyond the capacity |
| `ReassemblyRefinement.CountHeld` | libsponge/stream_reassembler.cc:89-97 | the unassembled count is the number of held indices above the write pointer, each counted once |
| `ReassemblyRefinement.WithinCapacity` | libsponge/stream_reassembler.hh:25-28 | reassembled bytes not yet read plus unassembled bytes never exceed the capacity |
| `ReassemblyRefinement.PushFaithful` | libsponge/stream_reassembler.cc:19-86 | the output stays a prefix of the logical stream and ends exactly when the end mark was seen and all bytes are assembled |
| `ReassemblyRefinement.PushMarks` | libsponge/stream_reassembler.cc:21-85 | for any push: the last end mark that fitted its window counts, and the output ends when the write pointer is at it |
| `ReassemblyBytes.MergeBytes` | libsponge/stream_reassembler.cc:60-81 | of two bytes for one index merging keeps that of the earlier substring |
| `ReassemblyBytes.PushBytes` | libsponge/stream_reassembler.cc:33-81 | whatever the data: what is written out stays, else the substring that starts first gives the byte, and of two that start together the longer |
| `ReassemblyMemory.CleanWithinCapacity` | libsponge/stream_reassembler.hh:32-33 | while nothing that is written out is stored, everything buffered and stored fits the capacity |
| `ReassemblyMemory.CleanExact` | libsponge/stream_reassembler.cc:43-58 | a push leaves written-out bytes in the map if and only if it ends at or below the write pointer, or crosses the first gap and swallows a waiting substring |
| `ReassemblyMemory.KeptWholeExact` | libsponge/stream_reassembler.cc:52-54 | a push is kept whole below the write pointer if and only if it ends at or below it |
| `ReassemblyMemory.StoredWithinEdge` | libsponge/stream_reassembler.cc:33-81 | the map never holds more bytes than the stream has up to the right edge |
| `ReassemblyMemory.WholeStreamStored` | libsponge/stream_reassembler.cc:33-58 | pushed again from the start, all that was written out is stored whole |
| `ReassemblyMemory.StoresBeyondCapacity` | libsponge/stream_reassembler.cc:52-54 | two bytes stored under a capacity of one |
| `ReassemblyRuns.RunMeetsSpecification` | libsponge/stream_reassembler.cc:19-97 | over any run of in-window pushes and reads: write pointer, output, read count, unassembled count, capacity and end of input are those of a machine that only keeps the set of accepted indices, a read count and an end flag |
| `ReassemblyRuns.EndedIsFinal` | libsponge/stream_reassembler.cc:83-85 | after the end nothing is written and the output is the whole stream |
| `ReassemblyRuns.OrderIndependent` | libsponge/stream_reassembler.cc:33-85 | order, overlaps and repetitions of pushes do not matter |
| `Receivers.TCPReceiver.constructor` | libsponge/tcp_receiver.hh:35 | a new receiver has no ackno |
| `Receivers.TCPReceiver.Receive` | libsponge/tcp_receiver.cc:11-47 | the whole new state is `SegmentReceived` of the old one, for every segment |
| `Receivers.TCPReceiver.AcceptPayload` | libsponge/tcp_receiver.cc:35-45 | push, checkpoint, ackno and the reset at the end of input |
| `Receivers.TCPReceiver.Window` | libsponge/tcp_receiver.cc:51 | the remaining capacity of the output |
| `ReceiverInvariants.PushesInsideWindow` | libsponge/tcp_receiver.cc:30-35 | a push starts strictly below the right edge, in every state that `SegmentGuarded` keeps |
| `ReceiverInvariants.AdvertisedEdge` | libsponge/tcp_receiver.cc:51 | assembled bytes plus window is the right edge |
| `ReceiverInvariants.SegmentGuarded` | libsponge/tcp_receiver.cc:11-47 | any segment at all keeps reassembler and checkpoint sound, unwrites nothing and leaves the right edge alone |
| `ReceiverInvariants.SegmentExact` | libsponge/tcp_receiver.cc:11-47 | exactly which bytes, which FIN and which ackno any segment brings, forged or not, and when it brings nothing |
| `ReceiverInvariants.IndexIsTrue` | libsponge/tcp_receiver.cc:13-31 | a segment of the connection is placed at its true stream index if and only if it is recognisable |
| `ReceiverInvariants.SegmentTracks` | libsponge/tcp_receiver.cc:11-47 | any segment of the connection keeps ackno, checkpoint and output exact, and nothing goes back |
| `ReceiverInvariants.SegmentKept` | libsponge/tcp_receiver.cc:30-36 | exactly which bytes of a segment are kept |
| `ReceiverInvariants.SegmentEnds` | libsponge/tcp_receiver.cc:30-45 | the end is known exactly if it was, or the segment is in reach and its FIN fits the window; the output has ended exactly when every byte is there too |
| `ReceiverInvariants.EndResets` | libsponge/tcp_receiver.cc:38-42 | the end of input resets the receiver, which then ignores everything but a SYN |
| `ReceiverInvariants.TurnAgoIsMistaken` | libsponge/tcp_receiver.cc:31-35 | a copy exactly one turn old is delivered as new data |
| `ReceiverRuns.RunEdge` | libsponge/tcp_receiver.cc:11-51 | over any run of any segments the right edge never moves back, and only reads move it |
| `ReceiverRuns.AnyRunGuarded` | libsponge/tcp_receiver.cc:11-51 | after any run of any segments and reads with a right edge below 2^64: the checkpoint is the bytes written until the end, then zero; every push starts inside the window; nothing is kept beyond the advertised edge; the capacity holds |
| `ReceiverRuns.RunTracks` | libsponge/tcp_receiver.cc:11-51 | over any run of segments of one connection the receiver keeps track of it, and ackno and output only advance |
| `ReceiverRuns.AcknoExact` | libsponge/tcp_receiver.cc:11-49 | the ackno is the wrapped number of the first missing byte, past the FIN once ended, and present if and only if a SYN was heard and the capacity is positive; the input has ended if and only if some FIN fitted the window of its moment and every byte is there |
| `ReceiverRuns.SynWithoutCapacity` | libsponge/tcp_receiver.cc:30-34 | without capacity a SYN gives no ackno |
| `Senders.TCPSender.constructor` | libsponge/tcp_sender.cc:18-23 | a new sender has sent nothing and has a window of one |
| `Senders.TCPSender.Fill` | libsponge/tcp_sender.cc:27-61 | the whole new state is `FillWindow` of the old one |
| `Senders.TCPSender.SendOne` | libsponge/tcp_sender.cc:33-60 | one iteration of the loop, or its exit |
| `Senders.TCPSender.BuildSegment` | libsponge/tcp_sender.cc:34-49 | flags, sequence number and payload of the next segment |
| `Senders.TCPSender.Acknowledge` | libsponge/tcp_sender.cc:65-97 | the whole new state is `AckReceived` of the old one |
| `Senders.TCPSender.AdvanceTo` | libsponge/tcp_sender.cc:72-84 | a newer acknowledgment resets the timer and the counter and erases what it covers, an older one does nothing |
| `Senders.TCPSender.EraseAcked` | libsponge/tcp_sender.cc:77-83 | exactly the fully acknowledged segments are erased |
| `Senders.TCPSender.TickTimer` | libsponge/tcp_sender.cc:100-124 | the whole new state is `Tick` of the old one |
| `Senders.TCPSender.SendEmptySegment` | libsponge/tcp_sender.cc:128-132 | queues an empty segment at the next sequence number |
| `SenderInvariants.NextSegmentGenuine` | libsponge/tcp_sender.cc:33-56 | each new segment starts at the next number, carries the next bytes, is the SYN exactly at zero, and the FIN exactly when the end is sent |
| `SenderInvariants.SendNextGood` | libsponge/tcp_sender.cc:52-57 | an iteration extends the tiling by one segment |
| `SenderInvariants.FillWindowGood` | libsponge/tcp_sender.cc:27-61 | filling keeps the invariant and only adds to what was sent |
| `SenderInvariants.FillWindowFills` | libsponge/tcp_sender.cc:27-61 | it stops only at a full window, after the FIN or with nothing left, never passes the window but by one, and changes nothing but what was sent |
| `SenderInvariants.OvershootExact` | libsponge/tcp_sender.cc:42-44 | when exactly the window is overshot |
| `SenderInvariants.SynOvershoots` | libsponge/tcp_sender.cc:42-44 | the smallest overshoot |
| `SenderInvariants.FullSegments` | libsponge/tcp_sender.cc:42-44 | all segments that one fill queues but the last are full |
| `SenderInvariants.AckGood` | libsponge/tcp_sender.cc:65-97 | any acknowledgment keeps the tiling, even in mid-segment; the mark moves only to a newer number that was sent |
| `SenderInvariants.TickGood` | libsponge/tcp_sender.cc:100-124 | a timeout resends exactly the segment that holds the first unacknowledged number, and there is one; nothing else changes but the timer and its counter |
| `SenderInvariants.SendEmptyGood` | libsponge/tcp_sender.cc:128-132 | exactly one empty segment is queued, at the next sequence number, and nothing else changes |
| `SenderRuns.RunKeeps` | libsponge/tcp_sender.cc:25-132 | the invariant of all runs; what was sent only grows |
| `SenderRuns.ReachableSender` | libsponge/tcp_sender.cc:25-124 | at most 65536 numbers in flight, from the acknowledged mark to the top, tiled; timer running exactly while something is in flight; a stopped timer is reset |
| `SenderRuns.ReachableAccounting` | libsponge/tcp_sender.cc:33-60 | of the segments that fill_window queued over the run: one SYN, first; at most one FIN, last; payloads are the bytes read; the numbers add up; no header says more than number, SYN and FIN |
| `SenderExactness.FillExact` | libsponge/tcp_sender.cc:27-61 | every queued segment, byte by byte and flag by flag, from its number, the stream and the window |
| `SenderExactness.FillKeepsQueued` | libsponge/tcp_sender.cc:52-57 | what is queued is what is kept for retransmission |
| `SenderExactness.AckExact` | libsponge/tcp_sender.cc:65-97 | an acknowledgment queues nothing, drops exactly the segments below the mark, restarts or stops the timer as due, and changes nothing at all if it is beyond what was sent |
| `SenderExactness.ReachableQueue` | libsponge/tcp_sender.cc:25-132 | over every run the queue has held the segments of the fills, the oldest in flight for each timeout, an empty one for each request, in order, and no others |
| `SenderExactness.ReachableWindow` | libsponge/tcp_sender.cc:85-91 | over every run the window is that of the last acknowledgment that was not ignored, one if that was zero, one before any |
| `SenderExactness.FlightExact` | libsponge/tcp_sender.cc:25 | the bytes in flight are the lengths of the kept segments less what of the first is acknowledged |
| `SenderRuns.ReachableBackoff` | libsponge/tcp_sender.cc:72-75 | k timeouts in a row take at least the sum of the reloads before them: initial * (2^k - 1) ms while the last reload fits 32 bits |
| `SenderRuns.ReachableExpiry` | libsponge/tcp_sender.cc:100-123 | the timer expires exactly when the time since it was loaded reaches what was loaded: without a zero window, the initial timeout doubled in 32 bits per timeout, for any number of timeouts |
| `SenderRuns.BackoffExact` | libsponge/tcp_sender.cc:86-110 | a timeout loads the doubled timeout, or the initial one while the window is zero, if and only if the window is zero, or none ever was and the doubled one fits 32 bits, or the initial one is zero; and what it loads otherwise |
| `SenderRuns.BackoffCollapses` | libsponge/tcp_sender.cc:104-111 | from the thirty-second timeout in a row on every tick times out |
| `SenderRuns.OverflowStopsBackoff` | libsponge/tcp_sender.cc:104-111 | a run in which the default timeout overflows to zero |
| `SenderRuns.ZeroWindowStopsBackoff` | libsponge/tcp_sender.cc:86-110 | a run with a zero window that opens again, after which a timeout is not doubled |
| `Checksums.FoldResidue` | libsponge/util/util.cc:100-108 | folding keeps the residue modulo 65535 and is zero only for zero |
| `Checksums.AddSplit` | libsponge/util/util.cc:89-98 | adding in pieces is adding the concatenation |
| `Checksums.AddByte` | libsponge/util/util.cc:89-98 | a byte is the high or low half of a word in turn, in a 32-bit sum |
| `Checksums.ValueExact` | libsponge/util/util.cc:100-108 | the value is the complement of the one 16-bit number with the residue of the sum that is zero only with it |
| `Checksums.FilledInReadsZero` | libsponge/util/util.cc:72-86 | data with its checksum filled in reads zero, overflow or not |
| `Checksums.SingleByteErrorDetected` | libsponge/util/util.cc:89-108 | no change of one byte goes unnoticed |
| `Checksums.InternetChecksum.constructor` | libsponge/util/util.cc:87 | starts from the given sum at even parity |
| `Checksums.InternetChecksum.AddBytes` | libsponge/util/util.cc:89-98 | adds the big-endian words of the data |
| `Checksums.InternetChecksum.ReadValue` | libsponge/util/util.cc:100-108 | the complement of the folded sum |
| `Parsing.NetworkRoundTrip` | libsponge/util/parser.cc:26-60 | network-order integers read back |
| `Parsing.NetParser.constructor` | libsponge/util/parser.hh:38 | a parser starts without error |
| `Parsing.NetParser.CheckRoom` | libsponge/util/parser.cc:20-24 | too little data sets the error |
| `Parsing.NetParser.ParseInt` | libsponge/util/parser.cc:26-43 | the value at the cursor, zero after an error |
| `Parsing.NetParser.Skip` | libsponge/util/parser.cc:45-51 | moves the cursor, or sets the error |
| `Parsing.UnparseInt` | libsponge/util/parser.cc:53-60 | appends the network-order bytes |
| `SegmentCodec.WriteHeader` | libsponge/tcp_helpers/tcp_header.cc:51-78 | the wire form of a header, or failure below five words |
| `SegmentCodec.ReadHeader` | libsponge/tcp_helpers/tcp_header.cc:17-48 | header, result and cursor of `ParseHeader` |
| `SegmentCodec.WriteSegment` | libsponge/tcp_helpers/tcp_segment.cc:30-45 | the wire form with the checksum over the whole segment |
| `SegmentCodec.ReadSegment` | libsponge/tcp_helpers/tcp_segment.cc:12-23 | result and segment of `ParseSegment` |
| `SegmentCodec.HeaderRoundTrip` | libsponge/tcp_helpers/tcp_header.cc:17-78 | the parser reads a serialized header back and stops at the payload |
| `SegmentCodec.SegmentRoundTrip` | libsponge/tcp_helpers/tcp_segment.cc:12-45 | parsing a serialized segment gives it back with its checksum, if and only if the offset is at most fifteen |
| `SegmentCodec.OffsetSixteenLost` | libsponge/tcp_helpers/tcp_header.cc:51-78 | an offset of sixteen comes back as zero |
| `SegmentCodec.FieldPlaces` | libsponge/tcp_helpers/tcp_header.cc:17-34 | every field is read from its place in the header of section 3.1 of RFC 793, and is zero if the buffer cuts it off |
| `SegmentCodec.WireImage` | libsponge/tcp_helpers/tcp_segment.cc:30-45 | the wire image shows the segment bit by bit, reserved bits and options zero, with the checksum of the image that has zeros in that field; none below five words |
| `SegmentCodec.PictureUnique` | libsponge/tcp_helpers/tcp_header.cc:51-78 | no other buffer shows the same header and payload |
| `SegmentCodec.HeaderParseExtent` | libsponge/tcp_helpers/tcp_header.cc:17-48 | the exact result and rest of parsing a header from any buffer |
| `SegmentCodec.SegmentParseOutcome` | libsponge/tcp_helpers/tcp_segment.cc:12-23 | the exact result, header and payload for every buffer, in each error case too |
| `SegmentCodec.AcceptsOffsetBelowMinimum` | libsponge/tcp_helpers/tcp_segment.cc:20-22 | a buffer with offset zero that is accepted |
| `SegmentCodec.CorruptionRejected` | libsponge/tcp_helpers/tcp_segment.cc:13-17 | a serialized segment with one changed byte is refused |
| `Network.NextSane` | libsponge/tcp_receiver.cc:11-47 | every action of applications, endpoints and network keeps the invariant of the whole system |
| `Network.NextGrows` | libsponge/tcp_sender.cc:25-132 | what was written, sent, delivered and acknowledged only grows |
| `Network.DamagedIsDropped` | libsponge/tcp_helpers/tcp_segment.cc:13-17 | a wire image with one damaged byte changes nothing at the receiver |
| `Network.ArriveIsReceive` | libsponge/tcp_helpers/tcp_segment.cc:12-45 | a wire image arrives as the segment that was sent |
| `Network.NothingForgotten` | libsponge/tcp_sender.cc:72-84 | a byte taken from the stream is assembled at the receiver or still in flight |
| `Network.EndToEnd` | libsponge/tcp_sender.cc:25-132 | safety of every run: prefix, completeness at the end, acknowledgment order, capacity, flight size, nothing forgotten |
| `FlowControl.NextFlows` | libsponge/tcp_sender.cc:65-97 | every action with honest windows and no overtaken acknowledgment keeps the sender within the edge |
| `FlowControl.AckBoundedExact` | libsponge/tcp_sender.cc:86-91 | an acknowledgment keeps the sender within the edge if and only if it is not overtaken, or opens the window no further than the edge, or by the one number of a shut window |
| `FlowControl.NoOverrun` | libsponge/tcp_sender.cc:27-91 | over every such run no byte is sent beyond the right edge of the receiver, but for one that probes a zero window, alone in flight with everything before it acknowledged, or one that goes with the SYN to a receiver without capacity |
| `FlowControl.OvertakenAckOverruns` | libsponge/tcp_sender.cc:86-91 | a run with honest windows in which an overtaken acknowledgment makes the sender pass the edge |
| `Recovery.SegmentAdvances` | libsponge/tcp_receiver.cc:11-47 | a segment that holds what is missing moves the acknowledgment, if there is room, exactly when it is recognised |
| `Recovery.NextFits` | libsponge/tcp_sender.cc:36-44 | every SYN in the system carries the same at most one byte, and a receiver that heard it has that byte |
| `Recovery.NoDeadEnd` | libsponge/tcp_sender.cc:100-124 | every reachable state can still be completed, by a run in which the receiver's own ackno and window are the only ones given and heard |
| `StateSummaries.SenderSummaryExact` | libsponge/tcp_helpers/tcp_state.cc:17-33 | the summary tells the hidden state: FIN_ACKED exactly when the FIN is out and all is acknowledged, and the error before all |
| `StateSummaries.ReceiverSummaryExact` | libsponge/tcp_helpers/tcp_state.cc:5-15 | over any run of segments of one connection: LISTEN until a SYN is given an ackno, FIN_RECV exactly when the input has ended |
| `StateSummaries.SenderMonotone` | libsponge/tcp_helpers/tcp_state.cc:17-33 | the sender's state never goes backwards |
| `StateSummaries.ReceiverMonotone` | libsponge/tcp_helpers/tcp_state.cc:5-15 | the receiver's state never goes backwards, whatever segments it hears |
| `StateSummaries.SummariesAgree` | libsponge/tcp_helpers/tcp_state.cc:5-33 | a sender in FIN_ACKED has a peer in FIN_RECV with every byte |

## Left out

- TCPConnection, IPv4, ARP and the network interface: their source is not in the repository; `Network` lets any window and any other header fields be filled in.
- Sockets, file descriptors, the event loop, addresses, the tun device, webget and the doctests: system calls.
- Buffer and BufferList: byte sequences here; sharing is not modelled.
- The random initial sequence number is a parameter; the clock is the argument of `Tick`.
- Overflow of 64-bit stream indices and counters; `index + size` in the reassembler is not reduced modulo 2^64.
- peek_output and pop_output beyond the buffered length, which the code leaves undefined, are excluded by a precondition.
- Writing after end_input: the byte stream allows it, runs do not, as its documentation asks.
- Forged segments in the network: it delivers what was sent, late, repeated or damaged in one byte, but invents nothing; `ReceiverRuns.AnyRunGuarded` covers forged ones at the receiver.
- Liveness under fairness: `Recovery.NoDeadEnd` gives a completing continuation, not that one is taken.
- hexdump, header printing and comparison, and the diagnostics on standard output.
