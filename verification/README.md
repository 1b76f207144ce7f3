# The RakNet reliability layer, verified

This project models the part of the RakNet library that turns UDP into a reliable, ordered
message stream, and proves what it keeps over whole runs:

- the 24-bit sequence numbers that wrap around, and the ACK list that compresses a set of them;
- the receive window, the send queue, the ordered channel and the fragment queue;
- the byte layouts of frames, datagrams and ACK packets;
- one direction of an established connection as a state machine, over a network that loses,
  repeats and reorders data and acknowledgements.

The code works by updating shared structures in place, and so does the model: each structure is
a class whose methods perform the program's branches and loops. Beside it stands a datatype for
the value of the structure with a function for each operation. A method's contract equates the
new value and the result with that function of the old value, and the lemmas are about the
functions. `Endpoints` puts the structures together into the steps of a connection
(`Endpoint`), and `Links` closes the loop (sender, network, receiver, and the way back). About the
runs of such a loop, `Repeats` says how often anything is accepted and handed over, `Completeness`
how much of what was submitted is delivered, `Acknowledgements` that everything accepted is
acknowledged, and `LostAcks` what becomes of an acknowledgement that never arrives.

Run `dafny verify dfyconfig.toml` to check everything.

| file | about |
|---|---|
| `Uint24.dfy`, `Bytes.dfy`, `Wrappers.dfy`, `SortedKeys.dfy` | 24-bit arithmetic, machine words and byte streams, result types, least keys |
| `AckRanges.dfy`, `AckCodec.dfy` | the interval list and its packets |
| `RecvWindows.dfy`, `SendQueues.dfy`, `OrderedChannels.dfy`, `Fragments.dfy` | the four buffers |
| `Frames.dfy` | frames and datagrams as bytes |
| `Metrics.dfy` | the round-trip average |
| `Endpoints.dfy`, `Links.dfy`, `Repeats.dfy`, `Completeness.dfy`, `Acknowledgements.dfy`, `LostAcks.dfy` | the steps of a connection and its runs |

## What turned out not to hold, and exactly when it does

- At most once: in a run of at most 2^23 datagrams it never comes to a state in which the network
  can have a datagram accepted a second time, if and only if no arrival that leaves the receiver
  open is accepted beyond the window and at most half a window ahead of a number accepted before
  (`AcceptedOnceExactly`, `JumpRemembers`, `JumpForgets`); then no fragmented message is handed over
  twice either (`HandedOverOnce`). With up to 2048 datagrams this cannot happen (`FirstWindowOnce`);
  with 2049 there is a run that hands a message over twice (`HandedOverTwice`).
- Completeness: while the full queue of the ordered channel turns nothing away, what has been
  delivered in order is exactly the longest prefix whose datagrams have been accepted
  (`DeliveredExactly`); without fragments and control payloads, everything has been delivered if
  and only if everything has been accepted (`CompleteExactly`). With up to 257 order indices the
  queue cannot turn anything away (`ShortRunsExact`).
- Acknowledgements are complete as long as each fits the 2048 bytes that are read of it, which 292
  pending ranges always do (`ShortList`): in every state of every run the numbers accepted are then
  exactly those pending or named by a packet that has been sent (`AcceptedIsNamed`), and a flush and
  one arrival are enough to take any of them out of the send queue (`AcceptedCanLeave`).
- They are not repeated: in a run that never forgets, a number is named by at most one
  packet (`NamedByOnePacket`), and if that packet is lost the entry stays in the send queue for ever
  (`LostAckStays`).
- A datagram does not survive its own codec: the decoder reads the three bytes of the sequence
  number without skipping them. For every list of frames, they get through (behind a harmless
  empty frame) if and only if those bytes read as an empty frame (`WireDeliversExactly`), which
  they do for 0 to 15 and then not again before 0xF9FF00 (`NumbersThatDeliver`). Under 16 to 31,
  and numbers like them, the payload of an ordinary message is parsed as frames, so that a message
  of four bytes can close the receiver (`PayloadTakenForFrames`, `PayloadHandled`, `MessageCloses`).
  Under other numbers header bytes that nobody submitted are handed to the application
  (`HeadersDelivered`, `FlagsDelivered`), or all frames are lost (`DatagramLost`).
- A frame round-trips if and only if its payload has at most 8191 bytes, since the length field
  counts bits in 16 bits (`FrameRoundTrip`).
- An ACK packet round-trips through the codec if and only if the list has at most 65535 ranges
  (`RoundTrip`). The receive task reads 2048 bytes of it: the announced ranges are decoded if and
  only if their bytes are among these, and otherwise nothing is (`ReceivedDecoded`); so 512 ranges at
  once are lost (`ReceivedLong`). A datagram that does not fit is acknowledged all the same
  (`LongDatagramLost`).
- In every run, forgetting or not, the receive window decides by what it remembers
  (`WindowRefinesSet`); it remembers everything accepted throughout a run if and only if no event of
  the run forgets (`AgreesExactly`). Advancing it forgets if and only if it is completely full and
  more than one place wide (`AdvanceRemembers`, `FullAdvanceForgets`). No caller in src/ advances
  the window; there it moves by jumps only.
- In every run, the gap report is right if and only if the base has not moved past the highest
  number and nothing from the base on has been forgotten (`ReportsExactly`); right after a jump, if
  and only if the jump does not forget (`JumpReport`). Plain traffic in order gets it wrong with the
  number after the last place of the window (`InOrderMisreported`).
- A new number within the window that follows the highest is counted as in order if and only if
  that step does not cross the 24-bit wrap; a number beyond the window is never counted as out of
  order (`CountsOutOfOrder`).
- In all states of a run of marks the highest number is inside the window, if and only if the
  first number is at most 2^23 (`MarksKeepHighest`).
- The ordered channel stands at the least index never inserted if and only if its queue has
  turned no index away for good (`UpToDateWhenTaken`); 256 insertions never lose one, 257 can
  (`FewLoseNothing`, `EarlyPacketLost`).
- The two totals of the send queue differ by its length if and only if no insertion overwrote a
  number still held (`Conservation`).
- The round-trip average reaches a constant sample if and only if it does not start below it
  (`ReachesExactly`).
- A split still incomplete keeps what has arrived through every cleanup up to eight seconds after
  its first fragment, and is gone after any later one (`ExpiresExactly`, `TickForgetsExactly`).
- The frames of a datagram are handled one by one, unless one of them is a ping of less than 9 bytes
  or a pong of less than 17, or names an order channel that does not exist, or, behind a disconnect,
  is a connection request of less than 18; behind that one nothing is handled (`StopsExactly`).
- A fragmented message ignores the ordering it was sent under, and is handed over if and only if
  no chunk of it happens to begin with the ID of a ping, a pong or a disconnect
  (`FragmentsBypassOrder`, `FragmentsOvertake`).
- The number of chunks announced is right for every MTU over 80; below that the sizes wrap
  (`AnnouncedCount`).
- Retransmission waits for nine round-trip times, not three, as both caller and queue multiply
  by three (`RetransmitsAfterNineRtts`; docs/README.md:118 says three).

Where the code and its documentation disagree, the model follows the code. The sequence
comparison printed in docs/PROTOCOL.md:314-321 answers false both ways at distance exactly 2^23,
the code answers true both ways (`SeqLessThanIsRfc1982`). docs/PROTOCOL.md:351-355 speaks of
fragments of 1340 bytes; the code cuts into MTU - 80.

## Model

| member | source | states |
|---|---|---|
| `Uint24.SeqLessThanByDistance` | src/protocol/uint24.rs:250-263 | the 32-bit subtraction, mask and sign extension decide by the distance modulo 2^24 alone, for all integers |
| `Uint24.SeqLessThanAgrees` | src/protocol/uint24.rs:250-263 | within 2^23 the comparison of residues is that of the true numbers; at exactly 2^23 it is true in both directions |
| `Uint24.SeqLessThanIsRfc1982` | src/protocol/uint24.rs:250-263 | it is the comparison of section 3.2 of RFC 1982 with SERIAL_BITS 24, except at distance 2^23 |
| `Uint24.AtomicU24.FetchAdd` | src/protocol/uint24.rs:145-148 | one step: the 32-bit word grows and wraps, the old word's low 24 bits come back |
| `Uint24.HandoutIsCount` | src/protocol/uint24.rs:145-148 | the k-th number handed out is k modulo 2^24 for every k, also past the overflow of the 32-bit word |
| `Uint24.HandoutsCompare` | src/state/shared.rs:108-121 | numbers handed out less than 2^23 calls apart compare in the order they were handed out |
| `Uint24.U24Le` | src/protocol/uint24.rs:203-207 | the three bytes weigh up, little end first, to the number |
| `Uint24.WriteU24Le` | src/protocol/uint24.rs:203-207 | writes these three bytes into a buffer and leaves the rest of it alone |
| `Uint24.ReadU24Le` | src/protocol/uint24.rs:213-217 | reading any three bytes gives the number they encode |
| `Uint24.ReadAfterWrite` | src/protocol/uint24.rs:203-217 | reading what was written, in front of anything, gives the number back |
| `AckRanges.InsertedIsCorrect` | src/reliability/ack.rs:161-208 | one insertion keeps the list sorted, disjoint, non-adjacent and non-wrapping, and adds exactly the number |
| `AckRanges.InsertedAllDenotes` | src/reliability/ack.rs:161-263 | any sequence of insertions gives a canonical list of exactly the numbers inserted |
| `AckRanges.CanonicalUnique` | src/reliability/ack.rs:138-140 | two canonical lists of the same numbers are the same list |
| `AckRanges.InsertionOrderIrrelevant` | src/reliability/ack.rs:161-208 | the list does not depend on the order or repetition of insertions |
| `AckRanges.CanonicalShortest` | src/reliability/ack.rs:136-140 | no list of non-wrapping intervals for the same numbers is shorter |
| `AckRanges.CountIsSize` | src/reliability/ack.rs:43-50 | the 32-bit count is the number of numbers in the range if and only if the range does not wrap |
| `AckRanges.AckRangeList.Position` | src/reliability/ack.rs:161-180 | the scan finds the first range that holds the number or starts above it |
| `AckRanges.AckRangeList.MergeAt` | src/reliability/ack.rs:227-263 | extends a range by an adjacent number and swallows the next one if they now touch; any other number changes nothing |
| `AckRanges.AckRangeList.Insert` | src/reliability/ack.rs:161-208 | the search, merge and splice in place give the list of the recursive specification |
| `AckCodec.RebuiltDenotes` | src/reliability/ack.rs:358-385 | rebuilding records number by number gives the canonical list for the union of what was there and the records, wrapping ones included |
| `AckCodec.ParsePacketBytes` | src/reliability/ack.rs:312-337 | the records read from an encoded list are its first ranges, up to the 16-bit count |
| `AckCodec.ParsedExactly` | src/reliability/ack.rs:340-388 | on any bytes whatever a kind and records are read if and only if the records fit a 16-bit count and the bytes begin with their packet |
| `AckCodec.PacketLayout` | src/reliability/ack.rs:80-97 | a packet with one record of either kind, byte by byte |
| `AckCodec.DecodedIsPrefix` | src/reliability/ack.rs:312-388 | decoding an encoded canonical list gives its kind and, silently, the ranges within the 16-bit count |
| `AckCodec.RoundTrip` | src/reliability/ack.rs:312-388 | the round trip is exact if and only if there are at most 65535 ranges |
| `AckCodec.DecodedDenotes` | src/reliability/ack.rs:340-388 | whatever bytes are accepted, the result is canonical and denotes the union of the records read as closed cyclic intervals |
| `AckCodec.ParseRecordsCut` | src/reliability/ack.rs:358-385 | from a prefix of encoded records n of them are read if and only if there are as many and their bytes are in the prefix |
| `AckCodec.ReceivedDecoded` | src/connection.rs:165-175 | of an encoded list the receive task decodes the announced ranges if they lie within its 2048 bytes, and otherwise nothing |
| `AckCodec.ReceivedShort` | src/connection.rs:165-175 | a packet of at most 2048 bytes gives the list back |
| `AckCodec.ReceivedLong` | src/connection.rs:165-175 | a longer one, or one of 512 or more ranges, that announces all its ranges gives nothing |
| `AckCodec.EncodeRange` | src/reliability/ack.rs:80-97 | appends the type byte and the one or two numbers of a range |
| `AckCodec.DecodeRange` | src/reliability/ack.rs:100-130 | consumes one record, or refuses a truncated one or an unknown type, having consumed the type byte |
| `AckCodec.EncodeAck` | src/reliability/ack.rs:312-323 | the packet decodes to an ACK with the list's ranges up to the 16-bit count |
| `AckCodec.EncodeNack` | src/reliability/ack.rs:326-337 | the same for a NACK |
| `AckCodec.DecodeAckNack` | src/reliability/ack.rs:340-388 | the decoding loops give a fresh list with exactly the numbers of the records, or the parser's error |
| `SendQueues.SendQueue.Insert` | src/reliability/send_queue.rs:65-78 | refuses when full, else holds the packet with the time it was given, and counts it, replacing an entry under the same number |
| `SendQueues.InsertExactly` | src/reliability/send_queue.rs:65-78 | taken if and only if there is room; then at any later time the entry is late if and only if more than the timeout has passed since its insertion, and no other entry changes |
| `SendQueues.SendQueue.Acknowledge` | src/reliability/send_queue.rs:83-87 | hands out and counts a held packet, else changes nothing |
| `SendQueues.SendQueue.AcknowledgeRange` | src/reliability/send_queue.rs:92-128 | both branches remove the held numbers in the cyclic range and return how many they were |
| `SendQueues.SendQueue.GetExpired` | src/reliability/send_queue.rs:139-157 | the scan stamps and reports the late entries |
| `SendQueues.SendQueue.HandleAck` | src/connection.rs:482-497 | the loop over a list of ranges removes exactly the covered entries and counts them |
| `SendQueues.HandleAckRemoves` | src/connection.rs:482-497 | a list of ranges removes exactly the entries it covers, leaves the others untouched and counts the removed ones |
| `SendQueues.AckEndToEnd` | src/connection.rs:482-497 | pending list, through codec and receive buffer, into the sender's queue: exactly the pending numbers leave if the packet has at most 2048 bytes; a longer one, up to 65535 ranges, is refused |
| `SendQueues.RangeIsOneByOne` | src/reliability/send_queue.rs:92-128 | acknowledging a range, wrapping or not, is acknowledging its held numbers one by one |
| `SendQueues.ExpireKeepsPackets` | src/reliability/send_queue.rs:139-157 | a scan changes no keys and no packets, touches late entries only, leaves nothing late and counts one retransmission per late entry |
| `SendQueues.ExpiredIsLate` | src/reliability/send_queue.rs:139-157 | a scan reports exactly the late entries |
| `SendQueues.RetransmitsAfterNineRtts` | src/connection.rs:806-813 | a packet is sent again if and only if more than nine round-trip times have passed |
| `SendQueues.ReportsByHistory` | src/reliability/send_queue.rs:65-157 | over any run a scan reports a packet if and only if it was the last inserted under its number, has not been acknowledged since, and more than the timeout has passed since its last insertion or report |
| `SendQueues.HistoryMatches` | src/reliability/send_queue.rs:65-157 | over any run an entry is held exactly if its number has been inserted with room and not acknowledged since; its retry count is the number of reports since, up to 255 |
| `SendQueues.Conservation` | src/reliability/send_queue.rs:65-157 | over any run sent = acked + held + overwritten, so sent = acked + held if and only if nothing was overwritten; capacity is kept |
| `RecvWindows.MarkInside` | src/reliability/recv_window.rs:63-114 | for a window that remembers a set of accepted numbers, an arrival below the base or within the window is decided by the set, and the set with it is remembered |
| `RecvWindows.HasReceivedAgrees` | src/reliability/recv_window.rs:117-129 | `has_received` answers whether a number from the base on is in the remembered set |
| `RecvWindows.BelowNotReceived` | src/reliability/recv_window.rs:63-129 | a number up to 2^23 below the base does not count as received and, once something has been, is refused and changes nothing, whatever the size of the window |
| `RecvWindows.MarkDecides` | src/reliability/recv_window.rs:63-129 | while everything below the base has been seen, an arrival in reach is decided as the unbounded set of true numbers decides it |
| `RecvWindows.JumpForgets` | src/reliability/recv_window.rs:74-91 | after a jump every number before it, down to half a window, is accepted as new, whatever was accepted before |
| `RecvWindows.JumpRemembers` | src/reliability/recv_window.rs:74-91 | a jump keeps what is remembered if and only if everything accepted lies more than half a window behind it |
| `RecvWindows.AdvanceRemembers` | src/reliability/recv_window.rs:183-196 | advancing keeps what is remembered if and only if the window is not full, or at most one place wide |
| `RecvWindows.AdvanceTracks` | src/reliability/recv_window.rs:183-196 | the same where everything below the base has been seen |
| `RecvWindows.FullAdvance` | src/reliability/recv_window.rs:159-196 | on a full window the base lands half a window below the first unseen number and every bit is cleared |
| `RecvWindows.FullAdvanceForgets` | src/reliability/recv_window.rs:159-196 | after advancing a full window the last number received is accepted as new once more |
| `RecvWindows.EventRemembers` | src/reliability/recv_window.rs:63-196 | a mark, jump or advance is decided by the memory of accepted numbers and leaves the window with the memory after it; nothing accepted is lost from it if and only if the event does not forget |
| `RecvWindows.WindowRefinesSet` | src/reliability/recv_window.rs:63-196 | over all runs of marks, jumps and advances in reach, across any number of wraps, the bitmap decides as the memory specification, and `has_received` agrees in the final state; if the run never forgets, the memory is everything accepted |
| `RecvWindows.AgreesExactly` | src/reliability/recv_window.rs:63-196 | the bitmap remembers everything accepted throughout a run if and only if no event of the run forgets |
| `RecvWindows.AcceptsOnce` | src/reliability/recv_window.rs:63-114 | in a run that never forgets no number is accepted twice |
| `RecvWindows.JumpResets` | src/reliability/recv_window.rs:74-91 | a number beyond the window empties it around that number and moves the base forward; the guarded branch is reached if and only if the window has no places |
| `RecvWindows.MarkKeepsHighest` | src/reliability/recv_window.rs:63-114 | one mark keeps `highest_seq` received and the last set bit if and only if it is not the first or at most 2^23 |
| `RecvWindows.MarksKeepHighest` | src/reliability/recv_window.rs:63-114 | that holds in all states of a run of marks from a new window if and only if the first number is at most 2^23 |
| `RecvWindows.MarksReportGaps` | src/reliability/recv_window.rs:135-154 | in every such state the gap report is exact |
| `RecvWindows.MissingIsGaps` | src/reliability/recv_window.rs:135-154 | the report lists, in circular order without repeats, exactly the unset numbers up to the highest |
| `RecvWindows.MarkKnowsHighest` | src/reliability/recv_window.rs:63-114 | a mark, within the window or by a jump, leaves `highest_seq` the highest true number ever accepted, modulo 2^24 |
| `RecvWindows.EventKnows` | src/reliability/recv_window.rs:63-196 | so does every event, whether it forgets or not |
| `RecvWindows.TotalsCount` | src/reliability/recv_window.rs:63-114 | over any run in reach the totals of received and duplicate packets count what the specification accepts and what it refuses as repeated, jumps included |
| `RecvWindows.CountsOutOfOrder` | src/reliability/recv_window.rs:74-106 | the exact increment for every arrival in reach: one for a new number within the window, not the first, that does not follow the highest or follows it across the wrap; none beyond the window |
| `RecvWindows.MissingExact` | src/reliability/recv_window.rs:135-154 | the report is the list of numbers not remembered, up to the highest, if and only if the base has not passed the highest; else it lists the whole window |
| `RecvWindows.ReportsExactly` | src/reliability/recv_window.rs:135-154 | in every state of every run it is the true list of numbers never accepted if and only if the base has not passed the highest and nothing from the base on is forgotten; the second holds in runs that never forget |
| `RecvWindows.JumpReport` | src/reliability/recv_window.rs:74-91 | right after a jump the report is right if and only if the jump does not forget |
| `RecvWindows.InOrderMisreported` | src/reliability/recv_window.rs:135-154 | after the numbers 0 to the window size in order, the second half of the window is reported although nothing is missing |
| `RecvWindows.RecvWindow.SlideTo` | src/reliability/recv_window.rs:159-177 | copying down and clearing in place, or the reset, is the slide of the specification |
| `RecvWindows.RecvWindow.MarkReceived` | src/reliability/recv_window.rs:63-114 | every branch, with its counters, is the marking of the specification |
| `RecvWindows.RecvWindow.HasReceived` | src/reliability/recv_window.rs:117-129 | reads the bit of a number that is not below the base and within the window |
| `RecvWindows.RecvWindow.GetMissing` | src/reliability/recv_window.rs:135-154 | the scan gives the gap report of the specification |
| `RecvWindows.RecvWindow.AdvanceBase` | src/reliability/recv_window.rs:183-196 | slides past the leading received places |
| `OrderedChannels.InsertHolds` | src/reliability/ordered.rs:42-65 | an insertion takes its index in unless the full queue turns it away, and the next index is again one not taken in |
| `OrderedChannels.UpToDateWhenTaken` | src/reliability/ordered.rs:42-65 | the next index is the least never inserted and the queue holds what lies above it, if and only if no index was lost |
| `OrderedChannels.NothingLostUpToDate` | src/reliability/ordered.rs:42-65 | while the queue turns no new index away the channel is up to date |
| `OrderedChannels.FewLoseNothing` | src/reliability/ordered.rs:57-60 | 256 insertions, whatever they are, lose nothing |
| `OrderedChannels.EarlyPacketLost` | src/reliability/ordered.rs:57-60 | a run of 257 insertions in which one is lost for good |
| `OrderedChannels.InsertFaithful` | src/reliability/ordered.rs:42-65 | an insertion releases packets at the position of their index only |
| `OrderedChannels.ReleasesInOrder` | src/reliability/ordered.rs:42-65 | in every run as many packets have left as the next index says, the i-th was inserted with index i, and the queue holds at most 256 |
| `OrderedChannels.ReleasesPrefix` | src/reliability/ordered.rs:42-65 | if every packet carries the message of its index, what has left is a prefix of the messages |
| `OrderedChannels.ReleasesLatest` | src/reliability/ordered.rs:42-65 | in every run what has left under an index, or waits under one, is the data last inserted for it before its release that found room |
| `OrderedChannels.OrderedChannel.Insert` | src/reliability/ordered.rs:42-65 | the in-place insertion, with its draining loop, is that of the specification |
| `Fragments.ChunksPartition` | src/connection.rs:669-676 | the chunks concatenate to the data, are nonempty, and all but the last have full size |
| `Fragments.CountIsRight` | src/connection.rs:673-675 | the announced count is the number of chunks |
| `Fragments.AbsorbChunk` | src/reliability/fragment.rs:71-119 | one chunk of a split: the last one missing completes it to the whole message, any other is kept, a repeat changes nothing |
| `Fragments.AbsorbIsSafe` | src/reliability/fragment.rs:71-119 | whatever an entry holds of a message, only that message can come out of it |
| `Fragments.ReassembledIsJoin` | src/reliability/fragment.rs:166-175 | joining the fragments in key order gives the chunks in index order |
| `Fragments.CollectsWhatArrived` | src/reliability/fragment.rs:71-141 | while an index is missing and no cleanup comes too late, the entry holds exactly the chunks that arrived, in any order, with repeats, among other splits, and has the time of the first |
| `Fragments.ReassemblyInvertsCutting` | src/reliability/fragment.rs:71-141 | after any arrivals, and cleanups no later than the timeout after the first, nothing comes out until the last missing index arrives, and then exactly the original bytes; the split is then closed |
| `Fragments.InsertExactly` | src/reliability/fragment.rs:71-119 | each outcome by the state before: refused, count mismatch, repeat, kept with the time of the first fragment, complete; other splits are not touched |
| `Fragments.SplitsBounded` | src/reliability/fragment.rs:83-86 | no run of arrivals and cleanups opens more splits than the limit |
| `Fragments.ExpiresExactly` | src/reliability/fragment.rs:124-141 | over any such run an incomplete split keeps all its chunks through a cleanup up to 8 s after its first fragment, and is gone after a later one |
| `Fragments.CleanupExactly` | src/reliability/fragment.rs:124-141 | a cleanup removes a split if and only if it was opened longer than the timeout ago |
| `Fragments.OthersUndisturbed` | src/reliability/fragment.rs:71-141 | over runs of arrivals and cleanups without drops for lack of room, the other splits keep the state and give the output they would without this one |
| `Fragments.Reassemble` | src/reliability/fragment.rs:166-175 | the loop over the sorted map joins the fragments in key order |
| `Fragments.FragmentQueue.Insert` | src/reliability/fragment.rs:71-119 | bad index, no room, count mismatch, repeat, kept and complete, as specified |
| `Fragments.FragmentQueue.CleanupExpired` | src/reliability/fragment.rs:124-141 | removes exactly the splits older than the timeout and returns how many they were |
| `Frames.EncodedSize` | src/protocol/frame.rs:99-129 | the computed size is the length of the encoding |
| `Frames.EncodeFrame` | src/protocol/frame.rs:132-194 | appends the encoding to the buffer |
| `Frames.DecodeFrame` | src/protocol/frame.rs:197-286 | reading with the cursor is the parser of the specification, and takes at least three bytes |
| `Frames.DecodeAll` | src/connection.rs:276-281 | the receive loop yields the frames up to the first error, and terminates |
| `Frames.ParseFrameBytes` | src/protocol/frame.rs:132-286 | what any encoded frame reads back as, followed by anything: missing indices as zero, unused fields cleared, the payload cut to its length modulo 8192 |
| `Frames.ParsedFrameBytes` | src/protocol/frame.rs:197-286 | of any bytes from which a frame is read, the part behind flags and length is its encoded body and what is left; written again, the frame gives the same bytes if the unused flags are zero and the length is in whole bytes |
| `Frames.ReadExactly` | src/protocol/frame.rs:197-286 | a frame is read from any bytes whatever that begin with a known reliability and are as many as flags and length say, and from no others |
| `Frames.DatagramReadExactly` | src/protocol/codec.rs:650-669 | a datagram is read from any four bytes or more whose first has the high bits 100, and from nothing else |
| `Frames.DatagramLayout` | src/protocol/codec.rs:617-643 | a datagram begins with 0x84 and the three bytes of its number, little end first |
| `Frames.FrameLayout` | src/protocol/frame.rs:132-194 | the frames that the sender uses, byte by byte |
| `Frames.SequencedLayout` | src/protocol/frame.rs:132-194 | the order of the three indices in a frame that has all of them |
| `Frames.HeaderSizes` | src/reliability/levels.rs:89-109 | the first byte of each reliability, and a header of 3, 6, 6, 10 or 13 bytes, with 10 more for a fragment |
| `Frames.FrameRoundTrip` | src/protocol/frame.rs:132-286 | the frame is read back whole and exactly its bytes consumed if and only if the payload has at most 8191 bytes |
| `Frames.FramesRoundTrip` | src/connection.rs:276-281 | the loop over concatenated encodings recovers the list of frames |
| `Frames.EncodeDatagram` | src/protocol/codec.rs:617-643 | ID, number, then the frames one after another |
| `Frames.DecodeDatagram` | src/protocol/codec.rs:650-669 | the number, and the bytes behind the ID as "frames" |
| `Frames.DatagramKeepsNumber` | src/protocol/codec.rs:617-669 | decoding an encoded datagram gives its number, and never the frame bytes that were put in |
| `Frames.WireDeliversExactly` | src/protocol/codec.rs:650-669 | for every number and every list of frames that fit, exactly these frames are read, behind an empty one, if and only if the bytes of the number read as an empty frame |
| `Frames.NumbersThatDeliver` | src/protocol/codec.rs:650-669 | which numbers these are: 0 to 15, and from 0xF9FF00 on those with low bytes 0xFF00 to 0xFF0F |
| `Frames.HeaderTakenForPayload` | src/protocol/codec.rs:650-669 | under any other number with a low byte below 16 the first frame read has the leading bytes of the real ones as its payload |
| `Frames.PayloadTakenForFrames` | src/protocol/codec.rs:650-669 | under 16 to 31 and numbers like them, an ordinary frame's header reads as split information of an empty frame and its payload as frames |
| `Frames.CutFrameRefused` | src/protocol/frame.rs:197-286 | no frame is read from a proper prefix of its bytes |
| `Frames.DatagramLost` | src/connection.rs:276-281 | with a low byte of 0xa0 or more not a single frame of a datagram is read |
| `Metrics.StaysInRange` | src/state/metrics.rs:70-88 | samples within bounds keep an average within them there for ever and the variance below their width; up to 2^60 all results are those of unbounded arithmetic |
| `Metrics.StepTowards` | src/state/metrics.rs:70-79 | a step is strictly closer to the sample, never past it, unless the average is there or less than eight below |
| `Metrics.Settles` | src/state/metrics.rs:70-79 | under a constant sample the average settles: on it from above, less than eight microseconds below it otherwise |
| `Metrics.ReachesExactly` | src/state/metrics.rs:70-79 | it reaches the sample if and only if it does not start below it |
| `Metrics.ConnectionMetrics.UpdateRtt` | src/state/metrics.rs:70-88 | both fields move as specified, with the deviation taken from the old average |
| `Endpoints.FragmentFits` | src/connection.rs:658-698 | for an MTU over 80 and up to 8271 every datagram of a fragmented send, with 28 header bytes, fits the MTU with exactly 28 bytes to spare unless it is the last, and its frame survives encoding |
| `Endpoints.SingleFits` | src/connection.rs:630-640 | the same for single frames, for an MTU from 60 to 8251, with 18 bytes to spare for the largest |
| `Endpoints.PlainFramesHandled` | src/connection.rs:276-281 | any list of whole unordered frames, with well-formed pings, pongs and empty frames among them, is handed over payload by payload, and changes nothing |
| `Endpoints.OrderedFramesHandled` | src/connection.rs:413-437 | any list of whole ordered frames for one channel has the effect of their insertions in turn, and no other channel moves |
| `Endpoints.StopsExactly` | src/connection.rs:276-314 | behind a frame nothing is handled if and only if it is a ping under 9 bytes, a pong under 17, for a channel that does not exist, or a connection request under 18 behind a disconnect |
| `Endpoints.ClosesExactly` | src/connection.rs:299-314 | a disconnect closes the receiver, and nothing else does |
| `Endpoints.LoginSkips` | src/connection.rs:317-373 | behind a disconnect a connection request or new-connection packet is skipped by its channel as if it were a message if it is the next one, and otherwise a login packet changes nothing; nothing is handed over |
| `Endpoints.DatagramNoted` | src/connection.rs:255-274 | exactly the number of a datagram that is new becomes pending, whatever its frames; one that is not new changes the window only |
| `Endpoints.FlushExactly` | src/connection.rs:772-786 | a flush sends the whole pending list as an ACK, and leaves nothing pending |
| `Endpoints.EnqueueExactly` | src/connection.rs:569-571 | a datagram queued with room is due again if and only if more than nine round-trip times have passed since it was queued |
| `Endpoints.FirstTimeout` | src/state/metrics.rs:45 | before the first round trip is measured a packet is due again after 2.7 seconds |
| `Endpoints.EmitExactly` | src/connection.rs:542-574 | a send, whole or fragment, takes the next three numbers and queues its datagram with the time of the send |
| `Endpoints.ResendExactly` | src/connection.rs:806-824 | after a scan a packet is due nine round-trip times after it if it was late, and when it was due before otherwise |
| `Endpoints.AckHandled` | src/connection.rs:229-237 | if the packet parses as an ACK, exactly the entries its records cover leave and are counted, the others stay as they are; a NACK or a bad packet changes nothing |
| `Endpoints.FragmentedSends` | src/connection.rs:658-715 | a fragmented send sends every chunk, in order, under consecutive numbers, with its index and the common count and identifier |
| `Endpoints.AnnouncedCount` | src/connection.rs:669-675 | the count is the number of chunks for every MTU over 80; below, where the sizes wrap, there is one chunk and the count is 1 or 0, by the length of the data |
| `Endpoints.FragmentsBypassOrder` | src/connection.rs:413-420 | from datagrams that the window lets through, in any order and with repeats, with cleanups no later than 8 s after the first, a fragmented message comes out with the last missing index, whatever its order indices and without moving a channel, if and only if no chunk is taken for a control packet |
| `Endpoints.FragmentsOvertake` | src/connection.rs:684-698 | at an MTU over 80, the datagrams of any fragmented send, let through by any open receiver in any order, with cleanups no later than 8 s after the first, make it hand the message over by themselves, before anything sent earlier |
| `Endpoints.TickForgetsExactly` | src/connection.rs:753-757 | the tick keeps an incomplete message up to 8 s after its first fragment and forgets it after that |
| `Endpoints.ReceiverBounded` | src/connection.rs:248-446 | whatever datagrams arrive, and whatever ticks come between, the receiver holds at most 256 early messages for each of 16 channels and fragments of at most 512 messages |
| `Endpoints.BytesAreFrames` | src/connection.rs:248-284 | under a number that reads as an empty frame, the bytes of a datagram, if at most 2048, have the effect of its frames |
| `Endpoints.LongDatagramLost` | src/connection.rs:165-175 | a longer one with a single frame counts as received, and nothing of the frame is handled |
| `Endpoints.PayloadHandled` | src/connection.rs:276-281 | under 16 to 31 and numbers like them the effect is that of the frames found in the payload |
| `Endpoints.MessageCloses` | src/connection.rs:276-281 | the sender's seventeenth datagram, if a message of four given bytes, closes the receiver |
| `Endpoints.HeadersDelivered` | src/connection.rs:276-281 | under another number with a low byte below 16 the application is handed header bytes |
| `Endpoints.FlagsDelivered` | src/connection.rs:276-281 | the sender's own datagram 0x080000, if accepted, makes the receiver hand over the byte 0x60 |
| `Endpoints.Endpoint.SendFrame` | src/connection.rs:542-574 | one send uses up the next message, order and sequence numbers, and then queues the datagram, which may be refused unnoticed |
| `Endpoints.Endpoint.SendFragmented` | src/connection.rs:658-715 | the cutting loop emits the specified datagrams and leaves the specified sender |
| `Endpoints.Endpoint.Submit` | src/connection.rs:618-646 | single or fragmented by the size of the payload |
| `Endpoints.Endpoint.HandleAck` | src/connection.rs:482-497 | a decoded ACK empties the queue of its numbers; a NACK or a bad packet changes nothing |
| `Endpoints.Endpoint.FlushAcks` | src/connection.rs:772-786 | the pending list leaves as a packet and starts anew; an empty one sends nothing |
| `Endpoints.Endpoint.CheckRetransmissions` | src/connection.rs:806-824 | resends the packets late by three times three round-trip times, in the order reported |
| `Endpoints.Endpoint.CleanupExpired` | src/connection.rs:753-757 | expired fragments go, nothing else changes |
| `Endpoints.Endpoint.DeliverPayload` | src/connection.rs:451-479 | a fragment goes to the reassembly queue, anything else straight to the application |
| `Endpoints.Endpoint.OrderPayload` | src/connection.rs:418-430 | the payload goes through the channel that the frame names, the other fifteen stay as they are |
| `Endpoints.Endpoint.HandleLogin` | src/connection.rs:317-373 | a login packet behind a disconnect: the channel skips it if it is the next one, and nothing is handed over |
| `Endpoints.Endpoint.HandleFrame` | src/connection.rs:287-446 | empty and control payloads stay inside, ordered whole frames go through their channel, a channel above 15 ends the receive task, the others are delivered |
| `Endpoints.Endpoint.HandleFrames` | src/connection.rs:276-281 | the frames of a datagram in turn, up to a malformed ping or pong |
| `Endpoints.Endpoint.HandleDatagram` | src/connection.rs:248-284 | repeats and old numbers are dropped unacknowledged; a new one is queued for acknowledgement before its frames are handled |
| `Endpoints.Endpoint.HandleBytes` | src/connection.rs:248-284 | the same from the bytes of a datagram, with the frames that the decoder finds in them |
| `Links.StepInv` | src/connection.rs:248-824 | every step of sender, network or receiver keeps the invariant of the connection |
| `Links.RunInv` | src/connection.rs:248-824 | so it holds at the end of every run |
| `Links.DeliveredIsPrefix` | src/connection.rs:413-437 | in every run the ordered deliveries are a prefix of the messages submitted, and never reach past one that was fragmented, is empty or looks like a control packet |
| `Links.UnfragmentedInOrder` | src/connection.rs:540-574 | while nothing was fragmented the application has received exactly a prefix of what was submitted |
| `Links.DeliveredIsSubmitted` | src/connection.rs:451-479 | in every run each delivery is a submitted message, whole, and reassembled, under the identifier it was sent with, if and only if it was too large for one frame, which from an MTU of 60 on means more than MTU - 60 bytes |
| `Links.QueuedUntilAccepted` | src/connection.rs:482-497 | in every run a datagram that entered the send queue is there, unchanged, until the peer's window has accepted its number |
| `Links.QueueIsBounded` | src/reliability/send_queue.rs:65-78 | in every state of every run the send queue holds at most 2048 datagrams |
| `Repeats.AcceptedOnceExactly` | src/connection.rs:255-267 | in every run of at most 2^23 datagrams the network can never have one accepted a second time, if and only if no accepted arrival that leaves the receiver open makes the window forget |
| `Repeats.HandedOverOnce` | src/connection.rs:451-479 | in every such run no fragmented message is handed over twice |
| `Repeats.FirstWindowOnce` | src/connection.rs:255-267 | with at most 2048 datagrams no run accepts a datagram twice or hands a fragmented message over twice |
| `Repeats.HandedOverTwice` | src/reliability/recv_window.rs:74-91 | for every MTU over 80 there is a run with 2049 datagrams that hands a fragmented message over twice |
| `Repeats.ArriveIsBytes` | src/connection.rs:248-284 | in every reachable state, under a number that reads as an empty frame, an arrival of at most 2048 bytes is the arrival of the frames |
| `Completeness.DeliveredExactly` | src/connection.rs:413-437 | in every run in which no full channel queue loses anything, what has been delivered in order is exactly the longest prefix of the messages whose datagrams have been accepted |
| `Completeness.CompleteExactly` | src/connection.rs:413-437 | without fragments and control payloads, all messages have been delivered, in order and once each, if and only if all their datagrams have been accepted |
| `Completeness.ShortRunsExact` | src/reliability/ordered.rs:57-60 | with up to 257 order indices the first of these holds in every run |
| `Acknowledgements.AcceptedIsNoted` | src/connection.rs:270-274 | in every state of every run each accepted number is pending or covered by a list that has been sent as an ACK |
| `Acknowledgements.AcceptedIsNamed` | src/connection.rs:270-274 | if no ACK is longer than 2048 bytes, the accepted numbers are exactly those pending or named by an ACK that has been sent |
| `Acknowledgements.ListArrives` | src/connection.rs:229-237 | a list that arrives as an ACK takes exactly its numbers out of the send queue if the packet has at most 2048 bytes; a longer one with up to 65535 ranges changes nothing |
| `Acknowledgements.NackIgnored` | src/connection.rs:500-505 | a list that arrives as a NACK changes nothing |
| `Acknowledgements.AcceptedCanLeave` | src/connection.rs:482-497 | in every state of every run whose ACKs have at most 2048 bytes, a flush and one arrival take an accepted number out of the send queue |
| `Acknowledgements.ShortList` | src/reliability/ack.rs:312-323 | an ACK of at most 292 ranges has at most 2048 bytes |
| `LostAcks.NamedByOnePacket` | src/connection.rs:772-786 | in every run that never makes the window forget, no two packets acknowledge the same number |
| `LostAcks.LostAckStays` | src/connection.rs:255-274 | in such a run, if the packet that names a number never arrives, its entry stays in the send queue although the datagram has been accepted |

## Left out

- Sockets, tasks, sleeping and printing (src/socket.rs, src/listener.rs, src/client.rs): a step of `Links` is one locked section, or one call with nothing between its locked sections; the network may deliver anything ever sent, at any time, any number of times.
- `Endpoints.Endpoint.SendFrame`: runs through without a pause between writing to the socket and queueing (src/connection.rs:565-571). `Links` takes these as two steps, with any others between them.
- Clocks: every time, timeout and round-trip sample is a parameter, an unbounded number of microseconds.
- The handshake and login packets (src/protocol/codec.rs, src/connection.rs:317-382) and the connection states: the model starts on an established connection and only knows that a disconnect closes it.
- Pings and pongs beyond being recognised, checked for length and consumed: replies, pending pings and the timeout of an idle connection are not modelled.
- NACKs: the handler does nothing, so they are encoded and decoded but have no step.
- Order channels 1 to 15 on the sending side: the sender uses channel 0 only.
- `Endpoints.Endpoint.HandleFrame`: the reply to a connection request behind a disconnect is not sent, since it is the sender's half that would send it.
- `Links.DeliveredIsSubmitted`: is about datagrams as records of a number and frames, as are all theorems of `Links`, `Repeats`, `Completeness`, `Acknowledgements` and `LostAcks`. The bytes of a datagram have the effect of its record under the numbers of `NumbersThatDeliver`, up to 2048 of them (`ArriveIsBytes`); under all others the frames that were sent are not what is read (`WireDeliversExactly`), and a payload nobody submitted can be handed over (`FlagsDelivered`).
- `Links.DeliveredIsPrefix`: holds for at most 2^24 order indices and 65536 fragmented messages, each message of less than 4 GiB, after which indices and identifiers repeat; the program has no protection against that.
- `Links.QueuedUntilAccepted`: has the same bound, and says nothing about delivery in the end: acknowledged datagrams may wait in a channel for ever, and a full queue drops silently.
- `Repeats.AcceptedOnceExactly`: is bounded by 2^23 datagrams, beyond which a number that the network has kept is no longer in reach of the window's comparison.
- The application's messages arrive at the send task one at a time; in `Links` a fragmented send is interleaved with every other step, but not with another send.
- `Endpoints.Endpoint.SendFragmented`: the method takes no other step between fragments; `Links` does.
- The size arithmetic of the send task wraps, as in a release build; with overflow checks the program panics at an MTU below 60, and below 80 for a payload over MTU - 60. At exactly 80 it divides by zero for a payload over 20 bytes, in any build: in `Links` such a submission is no step, and the precondition of `Endpoints.Endpoint.Submit` excludes it.
- `Endpoints.Endpoint.HandleAck`: the packet's error is dropped as the receive task drops it, after printing.
- `Frames.DecodeFrame`: the addition in the length field wraps, as in a release build; with overflow checks the program panics there for lengths above 65528 bits. Nothing is said about where the cursor stops on an error, since the caller drops it.
- `from_sequences`, 24-bit big-endian and checked or saturating arithmetic, compare-and-exchange and memory orderings, setters and float statistics: easy or unused members.
- The counters of packets are unbounded, where the program has 64 bits.
- The order in which expired fragments are removed: a hash map decides it in the program, and it does not show in the result.
