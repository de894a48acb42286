# Verified models of MP2BS

A Dafny model of the parts of MP2BS (multipath, multi-peer block streaming) whose correctness is hardest to
see from the code, and proofs about them. `dafny verify dfyconfig.toml` checks everything.

The parts are independent of one another:

- **Raptor code** (`Gf2`, `Elimination`, `NumberTheory`, `GraySequence`, `LtWalk`, `Precode`, `Raptor`): the
  systematic erasure code of section 5 of RFC 5053, from the choice of its parameters to the round trip.
  A symbol is the vector of its bits.
- **QUIC streams** (`Gaps`, `FrameSorter`, `StreamFrames`, `StreamCodec`, `SendStream`, `ReceiveStream`,
  `StreamDelivery`): reassembly, the form of frames in packets, the sender's retransmission bookkeeping, and
  delivery over a network that loses, repeats and reorders frames (sections 2.2, 3, 4.5 and 19.8 of RFC 9000).
- **Connection IDs** (`ConnectionIds`, `ConnectionIdExchange`): the issuing and the using end (section 5.1 of
  RFC 9000).
- **Stream limits** (`StreamLimits`, `StreamLimitExchange`): the accepting and the opening end (section 4.6 of
  RFC 9000).
- **Multipath sessions** (`MultipathSession`, `MultipathDelivery`, `SessionScheduler`): striping over paths,
  reordering, and the weighted round robin.
- **Block transfer** (`BlockSegment`, `BlockTransfer`, `BlockFetch`, `BlockRuns`): fetching a block in segments
  from several peers, one token per peer.
- **Delay trees** (`DelayTree`): Dijkstra's algorithm under a budget of child slots.

Objects the program updates in place are classes here, and their loops are loops with invariants. Concurrent
parts are state machines: each `Run` method takes any sequence of events (steps of either end, deliveries,
losses), plays all of them, and its contract holds for every one, so for every prefix of every run; what each
event does is stated by the `Step` of the module. A call that would block returns `Blocked` (or nothing), and
another event tries again. Random numbers, generated connection IDs, the tables of the Raptor code, the
scheduler's path choices and the peer's limit on a stream are parameters. Integers are unbounded except where
the width matters: sequence numbers of a session, the count of packets sent with a connection ID, the
scheduler's quota and the offsets a peer computes while serving a block wrap at 2^32. The fetching end's offsets
never exceed the size of the block, which is a 32-bit number itself.

Four promises hold only under a condition, which is proved to be exact, together with a run or an input that
breaks them without it:

- STREAMS_BLOCKED is documented as sent once per limit. The value 0 can be sent twice, exactly when opening is
  tried before any limit is known and again at the limit 0 (`MaybeSendBlockedFrame`, `ReportsDiffer`,
  `ZeroReportedTwice`).
- A multipath session hands packets over in order if and only if none arrives 2^32 or more ahead of the first
  one missing (`MultipathDelivery.Run`, `AllHanded`). That cannot happen with one path, nor with at most 2^32
  packets; with two paths and one packet more it can (`NumbersRunOut`).
- A block is served to its end if and only if it has at most 2^32 - 1024 bytes (`SliceInRange`, `BlockRuns.Run`);
  for a longer one the end of the last slice wraps around to 0 and the peer panics (`ServedNoFurther`).
- While the limit allows another stream, the first blocking call in line is signalled, unless a signalled call
  gave up while others waited; a higher limit mends that (`OutgoingMap.Cancel`, `StreamLimitExchange.Run`,
  `LostWakeUp`).

Distances in the delay tree are shortest among the ways whose nodes still have child slots (`Shortest`). A node
that has spent its slots stops offering ways: which offers were taken is known exactly (`Expand`), and a node is
missed only where all its neighbours in the tree have run out of slots (`Unreached`).

## Model

| member | source | states |
|---|---|---|
| `Raptor.RoundTrip` | mp2bs-main/enhanced-quic/fec/raptor.go:965-1195 | encode any block, keep any N symbols, decode: the result is that block, and decoding gives up exactly when the folded N x K matrix has dependent columns |
| `Raptor.RaptorDecoder` | mp2bs-main/enhanced-quic/fec/raptor.go:1088-1195 | gives up exactly when the columns of the folded matrix are dependent; otherwise, if the symbols encode some block, the result is that block |
| `Raptor.RaptorEncoder2` | mp2bs-main/enhanced-quic/fec/raptor.go:965-1085 | symbol i is the sum its code row selects from the extended intermediate symbols, and the first K are the source symbols |
| `Raptor.Systematic` | mp2bs-main/enhanced-quic/fec/raptor.go:982-1078 | for every block the first K encoded symbols are the source symbols |
| `Raptor.ReceivedMeaning` | mp2bs-main/enhanced-quic/fec/raptor.go:725-771 | an encoded symbol is the value of its folded row against the first K intermediate symbols |
| `Raptor.SourceToIntermediate` | mp2bs-main/enhanced-quic/fec/raptor.go:982-1003 | the first K intermediate symbols are the product of the inverse matrix and the block |
| `Raptor.RaptorInitialization` | mp2bs-main/enhanced-quic/fec/raptor.go:774-830 | fails exactly when the folded matrix of the first K symbols is singular; otherwise S, H, L', the masks and the triples are those of sections 5.4.2.3 and 5.4.4 of RFC 5053 and the stored matrix is a two-sided inverse; N and M are (1 + minCR)K and (1 + CR)K to the nearest integer, a half upwards, so N <= M whenever minCR <= CR |
| `Raptor.DeriveShape` | mp2bs-main/enhanced-quic/fec/raptor.go:778-795 | X, S, H and L' are the smallest numbers with their defining property, and the mask table is well formed; every search ends |
| `Raptor.SearchPrime` | mp2bs-main/enhanced-quic/fec/raptor.go:785-795 | stops at the smallest prime from its start on |
| `Raptor.SearchHalf` | mp2bs-main/enhanced-quic/fec/raptor.go:788-790 | stops at the smallest H whose middle binomial coefficient reaches K + S |
| `Raptor.SearchX` | mp2bs-main/enhanced-quic/fec/raptor.go:778-780 | stops at the smallest X with X(X-1) >= 2K |
| `Raptor.Isp` | mp2bs-main/enhanced-quic/fec/raptor.go:336-346 | true exactly when no number from 2 up to x-1 divides x |
| `Raptor.Factor` | mp2bs-main/enhanced-quic/fec/raptor.go:348-357 | computes the factorial |
| `Raptor.MiddleQuotient` | mp2bs-main/enhanced-quic/fec/raptor.go:788-790 | the quotient of factorials in the search for H is the binomial coefficient |
| `Raptor.Rg` | mp2bs-main/enhanced-quic/fec/raptor.go:360-370 | the degree is the one whose interval of the table holds the number |
| `Raptor.Rd` | mp2bs-main/enhanced-quic/fec/raptor.go:373-383 | the exclusive or, bit by bit, of the two table entries chosen by the number's last two bytes, divided by m with remainder |
| `Raptor.MakeTriple` | mp2bs-main/enhanced-quic/fec/raptor.go:386-406 | degree, step and start drawn from the seed 65521 gives for the symbol; degree at least 1, step from 1 to L'-1 and start below L' |
| `Raptor.TripleUnique` | mp2bs-main/enhanced-quic/fec/raptor.go:386-406 | seed, draws and degree intervals allow one triple only for each symbol, so encoder and decoder agree on it |
| `Raptor.TripleCalculate` | mp2bs-main/enhanced-quic/fec/raptor.go:409-424 | the triples of all M symbols |
| `Elimination.FindInverseMatrix` | mp2bs-main/enhanced-quic/fec/raptor.go:596-650 | gives up exactly on a singular matrix; otherwise the result is a left and right inverse over GF(2), although a zero pivot is repaired by adding a row |
| `Elimination.IntermediateKSymbols` | mp2bs-main/enhanced-quic/fec/raptor.go:653-722 | gives up exactly when the K columns are dependent; otherwise the result is the only possible solution of the system |
| `Elimination.FindPivot` | mp2bs-main/enhanced-quic/fec/raptor.go:611-625 | finds a row with a one in the column from the pivot on, or there is none |
| `Elimination.SweepColumn` | mp2bs-main/enhanced-quic/fec/raptor.go:627-646 | clears the column in all other rows while keeping the product of both matrices |
| `Elimination.SweepSystem` | mp2bs-main/enhanced-quic/fec/raptor.go:691-711 | clears the column in all other rows while keeping every solution of the system |
| `Elimination.NullVectorIsNull` | mp2bs-main/enhanced-quic/fec/raptor.go:613-625 | a column without a pivot gives a combination of columns that vanishes, so giving up is right |
| `Elimination.TracksReduced` | mp2bs-main/enhanced-quic/fec/raptor.go:596-650 | once reduced to the identity, the accumulated row operations are the inverse, from both sides |
| `Gf2.MulAssoc` | mp2bs-main/enhanced-quic/fec/raptor.go:982-1078 | matrix products over symbols associate, which joins decoding to encoding |
| `NumberTheory.PrimeAbove` | mp2bs-main/enhanced-quic/fec/raptor.go:793-795 | above every number there is a prime, so the search for L' ends |
| `NumberTheory.PrimeDivisor` | mp2bs-main/enhanced-quic/fec/raptor.go:336-346 | every number above 1 has a prime divisor |
| `NumberTheory.BinomialFactorial` | mp2bs-main/enhanced-quic/fec/raptor.go:788-790 | binomial coefficients by Pascal's rule are quotients of factorials |
| `NumberTheory.BinomialGrows` | mp2bs-main/enhanced-quic/fec/raptor.go:788-790 | middle binomial coefficients grow beyond every bound, so the search for H ends |
| `GraySequence.MakeGraySequence` | mp2bs-main/enhanced-quic/fec/raptor.go:492-530 | stops with n distinct words of exactly ceil(H/2) ones, all below 2^H, being the first such words of the Gray sequence |
| `GraySequence.WordsCount` | mp2bs-main/enhanced-quic/fec/raptor.go:492-530 | among the first 2^H words of the Gray sequence exactly C(H, k) have weight k |
| `GraySequence.WordsAreMasks` | mp2bs-main/enhanced-quic/fec/raptor.go:492-530 | the first n words of the middle weight form a mask table |
| `GraySequence.GrayInjective` | mp2bs-main/enhanced-quic/fec/raptor.go:492-530 | no word of the Gray sequence occurs twice |
| `GraySequence.GrayReflects` | mp2bs-main/enhanced-quic/fec/raptor.go:504-508 | the words are those of the reflected Gray code: word 2^n + i is word 2^n - 1 - i with bit n set, for every i below 2^n |
| `GraySequence.NatXorBits` | mp2bs-main/enhanced-quic/fec/raptor.go:373-383 | bit by bit, the exclusive or is set where its arguments differ |
| `GraySequence.CountOnes` | mp2bs-main/enhanced-quic/fec/raptor.go:510-528 | counts the ones of a word |
| `GraySequence.MaskHasBit` | mp2bs-main/enhanced-quic/fec/raptor.go:1038-1071 | shifting finds exactly the positions of the ones of a mask |
| `GraySequence.MaskWidth` | mp2bs-main/enhanced-quic/fec/raptor.go:1038-1071 | a mask below 2^H has no one at position H or above, so half symbols are written inside the L symbols |
| `LtWalk.RowWeight` | mp2bs-main/enhanced-quic/fec/raptor.go:427-455 | a row touches exactly min(d, L) distinct columns |
| `LtWalk.FirstColumns` | mp2bs-main/enhanced-quic/fec/raptor.go:427-455 | they are the first ones on the walk: a column is in the row if and only if fewer than d columns are met before it |
| `LtWalk.FullTurn` | mp2bs-main/enhanced-quic/fec/raptor.go:427-455 | a walk of L' steps meets each of the L columns once, because L' is prime |
| `LtWalk.WalkSteps` | mp2bs-main/enhanced-quic/fec/raptor.go:437-453 | the walk starts at b and each step adds a, starting over behind the prime |
| `LtWalk.Settle` | mp2bs-main/enhanced-quic/fec/raptor.go:449-451 | the inner loop ends at the next column, one not met before |
| `LtWalk.BuildRow` | mp2bs-main/enhanced-quic/fec/raptor.go:437-453 | flipping bits along the walk builds the row of the triple |
| `LtWalk.BuildSymbol` | mp2bs-main/enhanced-quic/fec/raptor.go:735-767 | adding symbols along the walk gives the sum the row selects |
| `LtWalk.FindMatrixA` | mp2bs-main/enhanced-quic/fec/raptor.go:427-455 | one row for each of the first K symbols |
| `LtWalk.FindMatrixAUsingSymbols` | mp2bs-main/enhanced-quic/fec/raptor.go:459-489 | one row for each received symbol, by its identifier |
| `LtWalk.LTCode` | mp2bs-main/enhanced-quic/fec/raptor.go:725-771 | encoded symbol i is the sum its row selects from the intermediate symbols |
| `Precode.FoldKeepsMeaning` | mp2bs-main/enhanced-quic/fec/raptor.go:534-593 | folding the half part and then the LDPC part of a row keeps its value against the extended symbols |
| `Precode.InverseHALF` | mp2bs-main/enhanced-quic/fec/raptor.go:534-566 | adds to every row, in place, the half rows its half part selects |
| `Precode.InverseLDPC` | mp2bs-main/enhanced-quic/fec/raptor.go:569-593 | adds to every bit, in place, the three LDPC bits it is linked to |
| `Precode.FoldMatrix` | mp2bs-main/enhanced-quic/fec/raptor.go:534-593 | both in turn leave the folded rows in the first K columns |
| `Precode.FoldLdpcAt` | mp2bs-main/enhanced-quic/fec/raptor.go:569-593 | the bit-by-bit form of folding the LDPC part equals the matrix form |
| `Precode.GatherLdpc` | mp2bs-main/enhanced-quic/fec/raptor.go:580-590 | one bit takes up the bits at its three hops |
| `Precode.AddHalfRow` | mp2bs-main/enhanced-quic/fec/raptor.go:546-563 | one half row is added to a row |
| `Precode.ExtendLdpc` | mp2bs-main/enhanced-quic/fec/raptor.go:1005-1033 | spreading every symbol over its three hops gives the LDPC symbols of the matrix form |
| `Precode.LdpcPositions` | mp2bs-main/enhanced-quic/fec/raptor.go:1006-1033 | counting in rows of S places, symbol i starts at its place in its row and goes on twice in steps that grow by one from row to row, from 1 to S-1 and over again |
| `Precode.LdpcFirstRound` | mp2bs-main/enhanced-quic/fec/raptor.go:1006-1033 | below S(S-1) start and step are the two digits of the number, so no two symbols share both |
| `Precode.LdpcRounds` | mp2bs-main/enhanced-quic/fec/raptor.go:1006-1033 | S(S-1) symbols later the positions are the same |
| `Precode.ThreePositions` | mp2bs-main/enhanced-quic/fec/raptor.go:1006-1033 | with S odd the three positions differ |
| `Precode.ColumnWeight` | mp2bs-main/enhanced-quic/fec/raptor.go:1006-1033 | every source symbol is in exactly the three LDPC symbols at its positions |
| `Raptor.StandardColumns` | mp2bs-main/enhanced-quic/fec/raptor.go:781-795 | for every K the chosen S is odd and at least 3, so every source symbol is in exactly three LDPC symbols |
| `Precode.ExtendHalf` | mp2bs-main/enhanced-quic/fec/raptor.go:1035-1071 | adding every symbol where its mask has a one gives the half symbols of the matrix form |
| `Precode.HalfColumn` | mp2bs-main/enhanced-quic/fec/raptor.go:1035-1071 | the half symbols a symbol is in, read as binary digits, are its mask; there are as many of them as the mask has ones |
| `Precode.ExtendSymbols` | mp2bs-main/enhanced-quic/fec/raptor.go:1005-1071 | the K symbols extended by their LDPC and half symbols |
| `Gaps.EachByteOnce` | mp2bs-main/enhanced-quic/frame_sorter.go:43-165 | every byte from the read position on lies in exactly one gap or exactly one queued frame |
| `Gaps.TiledCovers` | mp2bs-main/enhanced-quic/frame_sorter.go:43-165 | no byte is lost between frames and gaps |
| `Gaps.CarveMissing` | mp2bs-main/enhanced-quic/frame_sorter.go:107-147 | carving a range out of the gaps removes exactly its bytes from what is missing |
| `Gaps.CarveCount` | mp2bs-main/enhanced-quic/frame_sorter.go:107-147 | arriving bytes add at most one gap |
| `Gaps.CarveSorted` | mp2bs-main/enhanced-quic/frame_sorter.go:107-147 | carving keeps the gaps sorted, apart and non-empty |
| `Gaps.StoreKeepsTiled` | mp2bs-main/enhanced-quic/frame_sorter.go:107-163 | storing a frame where it was carved out keeps the tiling |
| `Gaps.PopKeepsTiled` | mp2bs-main/enhanced-quic/frame_sorter.go:207-219 | handing out the frame at the read position keeps the tiling |
| `FrameSorting.FrameSorter.Insert` | mp2bs-main/enhanced-quic/frame_sorter.go:43-165 | unless the gaps become too many, exactly the frame's bytes stop being missing, the tiling is kept and every queued byte comes from an old frame or this one; it is a duplicate, and changes nothing, if and only if it is empty, lies inside the frame queued at its offset, or brings nothing new and starts behind no gap; no gap lookup fails |
| `FrameSorting.FrameSorter.Push` | mp2bs-main/enhanced-quic/frame_sorter.go:32-41 | duplicates are accepted silently; the push fails only when more than 1000 gaps remain |
| `FrameSorting.FrameSorter.Pop` | mp2bs-main/enhanced-quic/frame_sorter.go:207-219 | hands out the frame at the read position, and nothing exactly when that byte is missing; the BUG case cannot happen |
| `FrameSorting.FrameSorter.FindStartGap` | mp2bs-main/enhanced-quic/frame_sorter.go:167-177 | finds the first gap not before the offset; there always is one |
| `FrameSorting.FrameSorter.FindEndGap` | mp2bs-main/enhanced-quic/frame_sorter.go:179-189 | finds the gap the end falls in or the last one before it |
| `FrameSorting.FrameSorter.ReplaceFrames` | mp2bs-main/enhanced-quic/frame_sorter.go:72-99 | removes the smaller frames the new one replaces and stops at a larger one; the frame is a duplicate exactly when the one queued at its offset is at least as long |
| `FrameSorting.FrameSorter.DeleteConsecutive` | mp2bs-main/enhanced-quic/frame_sorter.go:192-205 | removes exactly the frames that follow one another from a position |
| `FrameSorting.FrameSorter.AdjustGaps` | mp2bs-main/enhanced-quic/frame_sorter.go:107-147 | the gap list edited case by case is the carved gap list |
| `FrameSorting.FrameSorter.Locate` | mp2bs-main/enhanced-quic/frame_sorter.go:48-63 | the frame is recognised as a duplicate here if and only if it brings nothing new and starts behind no gap |
| `FrameSorting.FrameSorter.HasMoreData` | mp2bs-main/enhanced-quic/frame_sorter.go:222-224 | true exactly when a frame is queued |
| `FrameSorting.SettledPlaced` | mp2bs-main/enhanced-quic/frame_sorter.go:43-165 | storing the part the frame is cut to takes the same bytes out of the gaps as the frame itself |
| `StreamFrames.MaxDataLenFits` | mp2bs-main/enhanced-quic/internal/wire/stream_frame.go:134-155 | n bytes make a frame that fits, with its length field as long as n needs, if and only if n is at most the number computed; with room for a minimal frame that is at least one byte |
| `StreamFrames.MaybeSplitOffFrame` | mp2bs-main/enhanced-quic/internal/wire/stream_frame.go:159-184 | a frame that fits is left whole; a split keeps the bytes, their offsets and the FIN, and the first part is the longest that fits; no part is split off only when not a byte fits |
| `StreamCodec.VarintRoundTrip` | mp2bs-main/enhanced-quic/quicvarint/varint.go:25-89 | every number below 2^62 is read back as written, whatever follows |
| `StreamCodec.ReadShrinks` | mp2bs-main/enhanced-quic/quicvarint/varint.go:25-71 | whatever is read is below 2^62 and its shortest form is no longer than what was read |
| `StreamCodec.WriteLength` | mp2bs-main/enhanced-quic/internal/wire/stream_frame.go:87-125 | the length by which packets are filled is the length of what is written |
| `StreamCodec.RoundTrip` | mp2bs-main/enhanced-quic/internal/wire/stream_frame.go:23-113 | a written frame, followed by anything or, without its length, by nothing, is parsed as itself if and only if its data fits a packet and ends below 2^62; otherwise it is refused |
| `StreamCodec.ParseShrinks` | mp2bs-main/enhanced-quic/internal/wire/stream_frame.go:23-84 | whatever is parsed leaves the rest of the packet untouched and can be written again in no more bytes, unless it is empty without a FIN |
| `StreamCodec.ParseStable` | mp2bs-main/enhanced-quic/internal/wire/stream_frame.go:23-113 | parsing, writing and parsing again changes nothing |
| `StreamCodec.SentIsParsed` | mp2bs-main/enhanced-quic/send_stream.go:207-327 | a frame that fits the room it was made for is written into that room, and the peer parses that frame |
| `SendStreams.SendStream.Write` | mp2bs-main/enhanced-quic/send_stream.go:92-193 | accepted bytes are appended to the stream and wait behind the next frame; refused after close |
| `SendStreams.SendStream.WriteTurn` | mp2bs-main/enhanced-quic/send_stream.go:127-143 | when all that is not sent fits in one packet, the next frame holds exactly that and nothing is pending; otherwise nothing changes |
| `SendStreams.SendStream.PopNewStreamFrame` | mp2bs-main/enhanced-quic/send_stream.go:329-372 | the frame holds the next bytes of the stream, no more than the window, and fits the packet; what is left follows on; a frame that leaves data behind fills the window or the packet |
| `SendStreams.SendStream.PopNew` | mp2bs-main/enhanced-quic/send_stream.go:290-327 | new data in order, within window and packet; the FIN is put on the last frame once, exactly when it ends a closed stream; there is no frame exactly when data waits and the window is empty, or none waits and no FIN is due; whether there is more is told exactly as the source tells it |
| `SendStreams.SendStream.MaybeGetRetransmission` | mp2bs-main/enhanced-quic/send_stream.go:374-382 | the first queued frame, or the longest first part of it that fits, becomes outstanding again without losing a byte, and less is left in the queue; there always is one when a minimal frame fits |
| `SendStreams.SendStream.PopStreamFrame` | mp2bs-main/enhanced-quic/send_stream.go:207-327 | retransmissions first; every frame sent is part of what was written and fits the packet, and new bytes stay within the window; the FIN is first sent once and at the final offset; every frame leaves less to send, and on a closed stream with window there is none only when all is sent; that there is no more is said only when nothing is left until something is lost or the application goes on, or when the peer is just told that its limit blocks the rest |
| `SendStreams.SendStream.FrameAcked` | mp2bs-main/enhanced-quic/send_stream.go:407-434 | completion is reported at most once, and exactly when every byte and the FIN are acknowledged |
| `SendStreams.SendStream.QueueRetransmission` | mp2bs-main/enhanced-quic/send_stream.go:436-452 | a lost frame is queued again and stops being outstanding |
| `SendStreams.SendStream.Close` | mp2bs-main/enhanced-quic/send_stream.go:454-472 | no more writes are accepted |
| `SendStreams.LedgerSplit` | mp2bs-main/enhanced-quic/send_stream.go:374-382 | splitting a queued frame keeps every byte sent acknowledged, outstanding or queued |
| `SendStreams.LedgerDone` | mp2bs-main/enhanced-quic/send_stream.go:427-434 | with the FIN sent and nothing outstanding or queued, every byte is acknowledged |
| `ReceiveStreams.ReceiveStream.HandleStreamFrame` | mp2bs-main/enhanced-quic/receive_stream.go:257-276 | a frame is refused for its size exactly when it contradicts the final size; otherwise exactly its bytes stop being missing |
| `ReceiveStreams.ReceiveStream.HandleGenuineFrame` | mp2bs-main/enhanced-quic/receive_stream.go:257-276 | a frame cut out of the stream never contradicts the final size, and what is held stays part of the stream |
| `ReceiveStreams.ReceiveStream.UpdateHighestReceived` | mp2bs-main/enhanced-quic/internal/flowcontrol/stream_flow_controller.go:52-98 | the final size is fixed once and never exceeded |
| `ReceiveStreams.ReceiveStream.DequeueNextFrame` | mp2bs-main/enhanced-quic/receive_stream.go:195-204 | a frame fetched is the last one exactly when the final offset is known and the frame reaches it |
| `ReceiveStreams.ReceiveStream.ReadTurn` | mp2bs-main/enhanced-quic/receive_stream.go:110-190 | one round of reading yields the next bytes, and stops where the next byte is missing or at the end |
| `ReceiveStreams.ReceiveStream.Read` | mp2bs-main/enhanced-quic/receive_stream.go:103-193 | yields the next bytes of the stream, fewer than asked for only where the next one is missing; the end is told exactly after all bytes up to the final offset; blocks only where the next byte is missing |
| `StreamDelivery.Run` | mp2bs-main/enhanced-quic/send_stream.go:92-452 | under any schedule of writes, sends, losses, splits, acknowledgements, repeated and reordered deliveries and reads: bytes read are a prefix of bytes written, no byte is sent beyond the highest limit of the peer, the end is told only after a close and after all bytes are read, completion is reported at most once; and from wherever a closed stream has got to, sending, delivering, acknowledging and reading on ends with all bytes read and completion reported, unless the receiver gives up on too many gaps, for which at least 1000 frames must arrive |
| `StreamDelivery.Channel.CompletedArrived` | mp2bs-main/enhanced-quic/send_stream.go:407-434 | when completion has been reported, every byte and the FIN have arrived at the receiver |
| `StreamDelivery.Channel.Finish` | mp2bs-main/enhanced-quic/send_stream.go:207-452 | any closed stream, whatever was lost, split or repeated before, completes once sending goes on and nothing more is lost |
| `StreamDelivery.Channel.Step` | mp2bs-main/enhanced-quic/send_stream.go:207-452 | every event keeps what both ends promise and has its exact effect: what is written, which frame goes out and when none does, what is lost, acknowledged and delivered, how much is read and when the end is told; only a delivery can fail |
| `ConnectionIdExchange.Run` | mp2bs-main/enhanced-quic/conn_id_manager.go:51-153 | two ends running this code, with frames delayed, reordered and repeated: no connection ID limit error, no conflict, no rejected retirement, no packet to an ID the issuer has stopped accepting; before the handshake is over no ID is left, and after the first one is left, the next change comes no sooner than 5000 packets later |
| `ConnectionIdExchange.Step` | mp2bs-main/enhanced-quic/conn_id_manager.go:51-203 | every event has its exact effect at the end where it happens: IDs issued, looked up and changed, taken in, retired and replaced; no fault comes up |
| `ConnectionIdExchange.StoredAreAccepted` | mp2bs-main/enhanced-quic/conn_id_manager.go:61-102 | active and queued IDs are among the issuer's, so they never exceed the limit |
| `ConnectionIds.ConnIDManager.Add` | mp2bs-main/enhanced-quic/conn_id_manager.go:51-59 | the limit error is reported exactly when more IDs than announced are stored |
| `ConnectionIds.ConnIDManager.AddFrame` | mp2bs-main/enhanced-quic/conn_id_manager.go:61-102 | retires, in order, what must be retired and nothing else: a late ID, or the queued ones below the given number and then the active one; queues the rest; a retired number is never active or queued again |
| `ConnectionIds.ConnIDManager.AddConnectionID` | mp2bs-main/enhanced-quic/conn_id_manager.go:104-135 | keeps the queue sorted without repeats; reports a conflict exactly when a known number comes with another ID or token |
| `ConnectionIds.ConnIDManager.UpdateConnectionID` | mp2bs-main/enhanced-quic/conn_id_manager.go:137-153 | retires the active ID and takes the smallest queued one with its token; its packets are counted from 0 and it is planned for 5000 to 14999 of them |
| `ConnectionIds.ConnIDManager.Get` | mp2bs-main/enhanced-quic/conn_id_manager.go:198-203 | the ID changes exactly when the handshake is complete and either the first one is in use and another queued, or two are queued and as many packets were sent as planned; then the new one is the first in the queue, unused, and the old one is retired; otherwise nothing changes |
| `ConnectionIds.ConnIDGenerator.SetMaxActiveConnIDs` | mp2bs-main/enhanced-quic/conn_id_generator.go:56-72 | issues IDs up to the smaller of the peer's and the own limit |
| `ConnectionIds.ConnIDGenerator.Retire` | mp2bs-main/enhanced-quic/conn_id_generator.go:74-99 | rejects exactly numbers never issued and the ID of the packet itself; a retired one is replaced |
| `ConnectionIds.ConnIDGenerator.IssueNewConnID` | mp2bs-main/enhanced-quic/conn_id_generator.go:101-115 | issues the next number with its ID and token |
| `StreamLimits.IncomingMap.Delete` | mp2bs-main/enhanced-quic/streams_map_incoming_generic.go:143-180 | an accepted stream is dropped and gives back credit, another is marked once; held streams plus unused credit stay within the configured number and reach it with every limit advertised, which tops the last one |
| `StreamLimits.IncomingMap.DeleteStream` | mp2bs-main/enhanced-quic/streams_map_incoming_generic.go:136-141 | fails exactly for a stream that is not held or already marked |
| `StreamLimits.IncomingMap.AcceptStream` | mp2bs-main/enhanced-quic/streams_map_incoming_generic.go:54-94 | hands out streams in order, each once, and drops one that is done |
| `StreamLimits.IncomingMap.GetOrOpenStream` | mp2bs-main/enhanced-quic/streams_map_incoming_generic.go:96-134 | refuses exactly streams beyond the limit, opens all skipped streams, and returns nothing for one that is gone |
| `StreamLimits.OpenedHolds` | mp2bs-main/enhanced-quic/streams_map_incoming_generic.go:123-130 | opening a run of streams holds all of them, unmarked, and counts them |
| `StreamLimits.OutgoingMap.OpenStream` | mp2bs-main/enhanced-quic/streams_map_outgoing_generic.go:46-60 | opens exactly when nobody waits and the limit allows |
| `StreamLimits.OutgoingMap.OpenStreamSync` | mp2bs-main/enhanced-quic/streams_map_outgoing_generic.go:62-85 | opens at once exactly when nobody waits and the limit allows; otherwise takes the last place in line, the first call is as it was, and blocking is reported at the limit unless it was before |
| `StreamLimits.OutgoingMap.Wake` | mp2bs-main/enhanced-quic/streams_map_outgoing_generic.go:94-109 | only the first call in line is signalled, so nobody is overtaken; it opens a stream exactly when the limit allows; and then, while credit is left, the next call is signalled |
| `StreamLimits.OutgoingMap.Cancel` | mp2bs-main/enhanced-quic/streams_map_outgoing_generic.go:90-93 | a call that gives up leaves the line; afterwards credit is left and the first call unsignalled if and only if others wait, credit is left, and the call was the signalled one or that was so before |
| `StreamLimits.LoseSignal` | mp2bs-main/enhanced-quic/streams_map_outgoing_generic.go:90-93 | when a call leaves, the first call left is signalled exactly if the first one was before and the leaving call was not the signalled one |
| `StreamLimitExchange.LostWakeUp` | mp2bs-main/enhanced-quic/streams_map_outgoing_generic.go:90-93 | two blocking calls, a limit of one, and the first call gives up: the second waits unsignalled although a stream could be opened |
| `StreamLimitExchange.Ends.WakeAll` | mp2bs-main/enhanced-quic/streams_map_outgoing_generic.go:94-109 | if no signalled call gave up, signalled calls going on leave nobody in line while the limit allows another stream |
| `StreamLimits.OutgoingMap.MaybeSendBlockedFrame` | mp2bs-main/enhanced-quic/streams_map_outgoing_generic.go:122-136 | at most one STREAMS_BLOCKED per limit; its value repeats an earlier one exactly when the limit is zero and opening was blocked before any limit was known |
| `StreamLimits.OutgoingMap.SetMaxStream` | mp2bs-main/enhanced-quic/streams_map_outgoing_generic.go:166-179 | only a higher limit counts; it signals the first call in line, even one whose signal was lost, and reports blocked exactly when the line is longer than the new credit |
| `StreamLimits.OutgoingMap.UnblockOpenSync` | mp2bs-main/enhanced-quic/streams_map_outgoing_generic.go:193-210 | signals the first call in line and nobody else |
| `StreamLimits.OutgoingMap.DeleteStream` | mp2bs-main/enhanced-quic/streams_map_outgoing_generic.go:152-164 | fails exactly for an unknown stream |
| `StreamLimits.ReportsDiffer` | mp2bs-main/enhanced-quic/streams_map_outgoing_generic.go:122-136 | the values sent all differ if and only if opening was not blocked both before any limit and at the limit zero |
| `StreamLimits.RepeatedLimit` | mp2bs-main/enhanced-quic/streams_map_outgoing_generic.go:122-136 | a limit above all earlier ones is reported like one of them exactly when it is zero |
| `StreamLimitExchange.ZeroReportedTwice` | mp2bs-main/enhanced-quic/streams_map_outgoing_generic.go:122-136 | a run in which the value zero is queued twice |
| `StreamLimitExchange.Run` | mp2bs-main/enhanced-quic/streams_map_incoming_generic.go:54-180 | both ends under any network: the limit is never exceeded, held streams stay within the number, advertised limits rise strictly, streams are accepted once and in order, and granted in call order, never past a call still in line; one STREAMS_BLOCKED is sent per limit, and the values sent all differ unless opening was blocked both before any limit and at the limit zero; unless a signalled call gave up, nobody is left waiting while the limit allows another stream, once the signalled calls have gone on |
| `StreamLimitExchange.Ends.Step` | mp2bs-main/enhanced-quic/streams_map_outgoing_generic.go:46-210 | every event has its exact effect: limits, calls granted, refused, put in line, woken or gone, streams opened, accepted and completed |
| `MultipathDelivery.Run` | mp2bs-main/session/session.go:301-502 | for every number of paths, path choice and interleaving: once drained, the packets are handed over in order if and only if none arrived 2^32 or more ahead of the first missing one; until then bytes read are a prefix of bytes written, and all of them once drained; with one path, or at most 2^32 packets in all, no packet arrives that early |
| `MultipathDelivery.Link.Step` | mp2bs-main/session/session.go:301-502 | every event has its exact effect: packets numbered and queued on their paths, sent on, handed over in the order their numbers say, and bytes read |
| `MultipathDelivery.NumbersRunOut` | mp2bs-main/session/session.go:463-502 | a run over two paths with one packet more than 2^32 on the way: it reads bytes that are no prefix of those written |
| `MultipathSession.Session.Write` | mp2bs-main/session/session.go:463-502 | every part is queued once, in order, under consecutive 32-bit numbers, on the path chosen for it |
| `MultipathSession.Session.SendDataPacket` | mp2bs-main/session/session.go:301-310 | the packet goes to the end of the path's queue |
| `MultipathSession.Session.Transmit` | mp2bs-main/session/session.go:332-365 | the oldest queued packet of the path leaves |
| `MultipathSession.FlattenChunks` | mp2bs-main/session/session.go:468-479 | cutting data into payloads loses nothing |
| `MultipathSession.ChunkSizes` | mp2bs-main/session/session.go:474-479 | payloads hold 1 to 1024 bytes, and only the last may be short |
| `MultipathSession.RecvBuffer.PushPacket` | mp2bs-main/session/recv_buffer.go:30-61 | moves the packet and all that follow on directly to the bytes that are ready, or sets it aside |
| `MultipathSession.ArriveShows` | mp2bs-main/session/recv_buffer.go:30-61 | the buffer does to the bytes what the order of the packets says: ready are the payloads handed over, in their order, and set aside are those waiting under their numbers |
| `MultipathSession.TakenFor` | mp2bs-main/session/recv_buffer.go:30-61 | by its 32-bit number a packet is taken for itself exactly when it is less than 2^32 ahead of the next one |
| `MultipathSession.ArriveInTime` | mp2bs-main/session/recv_buffer.go:30-61 | a packet less than 2^32 ahead of the first missing one keeps everything in order: handed over are exactly the packets before the first missing one |
| `MultipathSession.ArriveTooEarly` | mp2bs-main/session/recv_buffer.go:30-61 | a packet 2^32 or more ahead is not handed over in its place, and if it waits it is taken for an earlier one |
| `MultipathSession.StaysMisplaced` | mp2bs-main/session/recv_buffer.go:30-61 | from then on it never comes into its place, whatever arrives |
| `MultipathSession.RecvBuffer.Read` | mp2bs-main/session/recv_buffer.go:64-88 | as many ready bytes as fit, from the front |
| `MultipathDelivery.WriteKeeps` | mp2bs-main/session/session.go:463-502 | a write keeps every path's packets in order and in place |
| `MultipathDelivery.ReceiveKeeps` | mp2bs-main/session/recv_buffer.go:30-61 | a packet leaving a path keeps every path in order, and adds to what is ready exactly the packets it lets through |
| `MultipathDelivery.ReceiveFate` | mp2bs-main/session/recv_buffer.go:30-61 | until a packet arrives 2^32 or more ahead everything is in order; after that it is out of order for good |
| `MultipathDelivery.OnlyPathInTime` | mp2bs-main/session/session.go:332-365 | with one path the packet that arrives is always the next one, so none is ever early, however many are sent |
| `MultipathDelivery.AllHanded` | mp2bs-main/session/session.go:332-365 | once every path is empty, the packets are handed over each once and in order if and only if none arrived 2^32 or more ahead |
| `SessionScheduler.Run` | mp2bs-main/session/session_scheduler.go:50-107 | finished turns of path p carry 1024w-128 to 1024w+895 bytes each, exactly w packets each for full payloads; the unfinished turn less; no path is more than one turn ahead |
| `SessionScheduler.TurnBytes` | mp2bs-main/session/session_scheduler.go:88-107 | a turn ends within its bounds |
| `SessionScheduler.Over` | mp2bs-main/session/session_scheduler.go:88-107 | after a turn the next path in the round takes over |
| `SessionScheduler.Scheduler.SetNumPath` | mp2bs-main/session/session_scheduler.go:50-67 | the current path gets its whole quota back, the last path is next and a quota for it is appended; the books stay in order if and only if one path is added, and then every path has its whole quota |
| `SessionScheduler.Scheduler.SchedulingUserWrr` | mp2bs-main/session/session_scheduler.go:88-107 | the current path carries the payload; its turn ends when no more than 128 bytes of its quota remain |
| `BlockRuns.Run` | mp2bs-main/mp2session/mp2session.go:416-474 | for every block below 2^32 bytes, peers and order of packets, repeats allowed: bytes read are a prefix of the block; once drained they are the whole block if and only if it has at most 2^32 - 1024 bytes, and a longer one is never read to its end; only such a block makes a peer panic; requests lie end to end and cover the block; tokens are conserved, none is sent to a full channel, and no peer has more segments outstanding than tokens |
| `BlockRuns.Transfer.Step` | mp2bs-main/mp2session/mp2session.go:295-588 | every event has its exact effect: a token taken, a segment requested, a request answered, a packet stored, bytes read |
| `BlockRuns.Transfer.Arrive` | mp2bs-main/mp2session/mp2session.go:295-354 | a packet is stored, and a segment it completes returns its token into a channel with room |
| `BlockRuns.Transfer.IssueRequest` | mp2bs-main/mp2session/mp2session.go:439-473 | a turn of the request loop keeps the segments in line and the tokens conserved |
| `BlockRuns.Transfer.Serve` | mp2bs-main/mp2session/mp2session.go:541-588 | a request is answered by every piece of its range, unless its last piece is the last one of a block of more than 2^32 - 1024 bytes; exactly then the peer panics |
| `BlockRuns.NeverWhole` | mp2bs-main/mp2session/mp2session.go:572-583 | a block whose last piece never arrives is never read to its end |
| `BlockRuns.Transfer.RequestOne` | mp2bs-main/mp2session/mp2session.go:439-473 | with nothing outstanding the request loop finds a token |
| `BlockRuns.RequestsConsecutive` | mp2bs-main/mp2session/mp2session.go:443-460 | requested ranges lie end to end |
| `BlockRuns.RequestsCover` | mp2bs-main/mp2session/mp2session.go:443-460 | once everything is requested the ranges reach the end of the block |
| `BlockTransfer.Partition` | mp2bs-main/mp2session/mp2session.go:443-460 | every data number of the block is in exactly one segment |
| `BlockTransfer.SendBlockData` | mp2bs-main/mp2session/mp2session.go:564-587 | exactly the pieces of the range, in order, the last one of the block short; it panics, after the pieces before, exactly when the range ends with the last piece of a block of more than 2^32 - 1024 bytes |
| `BlockTransfer.SliceInRange` | mp2bs-main/mp2session/mp2session.go:572-583 | computed in 32 bits, the slice for a number is in range if and only if the block has at most 2^32 - 1024 bytes or the number is not its last; and then it is the piece |
| `BlockTransfer.ServedNoFurther` | mp2bs-main/mp2session/mp2session.go:572-583 | for a block of 2^32 - 1023 bytes the last slice is out of range |
| `BlockTransfer.ReturnOne` | mp2bs-main/mp2session/mp2session.go:347-353 | a returned token finds room, and every peer's tokens stay accounted for |
| `BlockTransfer.TakeOne` | mp2bs-main/mp2session/mp2session.go:440-440 | taking a token conserves the tokens |
| `BlockTransfer.Stow` | mp2bs-main/mp2session/mp2session.go:328-338 | storing a piece in its segment leaves the others as they are |
| `BlockTransfer.ReadRest` | mp2bs-main/mp2session/mp2session_manager.go:455-469 | a segment read to its end leaves the line; the block is over exactly after the last one |
| `BlockFetch.Requester.TakeToken` | mp2bs-main/mp2session/mp2session.go:439-440 | takes the oldest token while something is left to request |
| `BlockFetch.Requester.RequestNext` | mp2bs-main/mp2session/mp2session.go:442-472 | requests the next segment of the block from the token's peer |
| `BlockFetch.BlockBuffer.AddRecvBuffer` | mp2bs-main/mp2session/mp2session_manager.go:641-650 | the segment joins the end of the line |
| `BlockFetch.BlockBuffer.Find` | mp2bs-main/mp2session/mp2session.go:305-321 | finds the first segment whose range holds the number, or none does |
| `BlockFetch.BlockBuffer.Push` | mp2bs-main/mp2session/mp2session.go:295-354 | the piece is stored, or its segment was read to the end already; a completed segment returns its token once |
| `BlockFetch.Fill` | mp2bs-main/mp2session/mp2session.go:328-353 | a segment gives its token back exactly when this piece makes it complete |
| `BlockFetch.BlockBuffer.Mp2ReadBlock` | mp2bs-main/mp2session/mp2session_manager.go:427-483 | reads on in the block, as many bytes as fit and are in line in the segment it reads; blocked exactly while the next byte is missing and the block is not over |
| `BlockFetch.BlockBuffer.RemoveSegment` | mp2bs-main/mp2session/block_buffer.go:27-29 | the first segment leaves the line once read to its end |
| `BlockSegment.Segment.constructor` | mp2bs-main/mp2session/segment.go:39-68 | an empty segment for its range |
| `BlockSegment.Segment.PushData` | mp2bs-main/mp2session/segment.go:99-133 | accepts exactly its range; the next number expected is the first that has not arrived, and the segment is complete when none is missing |
| `BlockSegment.Segment.Advance` | mp2bs-main/mp2session/segment.go:113-125 | the expected number moves past all pieces that follow on |
| `BlockSegment.Segment.PopData` | mp2bs-main/mp2session/segment.go:157-183 | hands out the next bytes of the block, as many as fit and have arrived; done exactly when the segment is read to its end |
| `BlockSegment.StoreOne` | mp2bs-main/mp2session/segment.go:105-109 | storing a piece leaves the other places alone |
| `BlockSegment.PrefixStored` | mp2bs-main/mp2session/segment.go:113-125 | once the first k pieces are in, the buffer begins with the block's bytes |
| `BlockSegment.Snapshot.CompleteIff` | mp2bs-main/mp2session/segment.go:113-125 | complete means that every number of the range has arrived |
| `DelayTree.Dijkstra` | ver_v4/omtree_mesh_ndim_v2.py:166-220 | every node reached is expanded once, in the order of distances; labels and slots are those of a history in which each node offers all its arcs and an offer is taken, for one slot, if and only if it is shorter then and a slot is left then; predecessors form a tree rooted at the first node over arcs that make up the distances; no node gains more children than slots spent, none beyond the limit; nodes without a parent get their predecessor |
| `DelayTree.Search` | ver_v4/omtree_mesh_ndim_v2.py:166-192 | the loop ends, since every push spends a slot; an expanded node with slots left offers nobody a shorter way; the history of expansions accounts for every label and every slot |
| `DelayTree.Expand` | ver_v4/omtree_mesh_ndim_v2.py:184-192 | an arc is taken if and only if the way over it is shorter than what is recorded then and a slot is left then; labels change by the arcs taken alone and the slots spent are their number; tree, queue, budget and settled nodes are kept |
| `DelayTree.Offer` | ver_v4/omtree_mesh_ndim_v2.py:184-192 | one arc is taken or refused, and keeps tree, queue, budget and settled nodes |
| `DelayTree.Unreached` | ver_v4/omtree_mesh_ndim_v2.py:184-192 | an arc to a node never reached starts only at nodes whose slots are all spent, each on an offer of their own that was taken |
| `DelayTree.SpentOnce` | ver_v4/omtree_mesh_ndim_v2.py:187-191 | a node expanded once has spent exactly one slot for each of its offers taken |
| `DelayTree.Shortest` | ver_v4/omtree_mesh_ndim_v2.py:166-192 | no walk through nodes with slots left is shorter than the recorded distance |
| `DelayTree.ExpandNode` | ver_v4/omtree_mesh_ndim_v2.py:179-184 | a node popped up to date was not expanded before, and everything expanded is nearer than what waits |
| `DelayTree.Improve` | ver_v4/omtree_mesh_ndim_v2.py:184-192 | a shorter way never leads to an expanded node, so distances of expanded nodes are final |
| `DelayTree.WalkBack` | ver_v4/omtree_mesh_ndim_v2.py:209-217 | the way back ends at the first node and its delays add up to the recorded distance |
| `DelayTree.SetParents` | ver_v4/omtree_mesh_ndim_v2.py:196-218 | exactly the reached nodes without a parent get their predecessor |
| `DelayTree.AdoptedKids` | ver_v4/omtree_mesh_ndim_v2.py:203-207 | nodes that get a parent are among its children in the tree |
| `DelayTree.SpendSlot` | ver_v4/omtree_mesh_ndim_v2.py:187-191 | children in the tree never outnumber the slots spent |
| `DelayTree.SlotsSpent` | ver_v4/omtree_mesh_ndim_v2.py:187-191 | every push makes the remaining slots fewer |
| `DelayTree.Pop` | ver_v4/omtree_mesh_ndim_v2.py:179-179 | the smallest entry leaves the queue |

## Left out

- Raptor.RaptorInitialization: code rates are real numbers, so the rounding of `double` in N, M, S and H is not modelled; code rates are taken to be non-negative.
- Raptor.Rd: the numbers in the V0, V1 and J tables are arbitrary; only the tables' lengths matter.
- Raptor.MakeTriple: the seed is not computed in 32 bits; the product in it can exceed an `int` only from symbol 32776 on.
- Raptor.RaptorEncoder2: the inner loops over the bytes of a symbol, and the vectorised XOR, are one operation on bit vectors; the operation counters are dropped.
- The first encoder, the parameter files, the overhead search, memory management and the cgo interface of the Raptor code; the copy of the same code in `mp2session`.
- The FEC buffer and handler: driven by timers, and they advance past bytes they have not copied. That symbols given to the decoder are genuine is a premise of the round trip.
- FrameSorting.FrameSorter.Push: the state after too many gaps is not described, because the connection is closed then; the callbacks that free buffers are left out.
- StreamCodec.RoundTrip: numbers from 2^62 on, which the program panics on when it writes them, are excluded; the type byte is taken to be one of a STREAM frame.
- SendStreams.SendStream.Write: one write call is pending at a time and the caller's wait is a separate event; deadlines, cancellation, shutdown, FEC framing and the queueing of data-blocked frames are left out.
- ReceiveStreams.ReceiveStream.Read: deadlines, reset, cancellation and shutdown are left out.
- ReceiveStreams.ReceiveStream.UpdateHighestReceived: the receive window, its check and its updates are left out; the peer's limit is a parameter of every send.
- ReceiveStreams.ReceiveStream.HandleStreamFrame: a frame beyond the receive window is not refused, because flow control windows are left out.
- ConnectionIds.ConnIDManager.AddFrame: the state after a conflict is not described, because the connection is closed then; stateless reset tokens are kept but not registered.
- StreamLimits.OutgoingMap.OpenStreamSync: a context that is done before the call, and closing the connection, are left out.
- MultipathSession.Session.Write: writes do not overlap; throughput statistics, the monitor that switches paths, hello and goodbye packets and packet encoding are left out.
- SessionScheduler.Scheduler.SetNumPath: numbers of paths for which the program would index out of range are excluded; switching multipath off and on is left out.
- BlockFetch.BlockBuffer.Push: one block per session in push mode; FEC mode, redundant data, forwarding of received data, the status table of block owners and the stop condition are left out, and so are the locks (every handler call, read and turn of the request loop is one step).
- BlockFetch.Requester.RequestNext: requests start at offset 0; resuming at an offset in pull mode is left out.
- BlockTransfer.SendBlockData: the peer holds the whole block; waiting for data that is still being received is left out. A panic ends the answer; that it also ends the peer's program is not modelled.
- DelayTree.Dijkstra: delays are real numbers; the heap of the library is a list from which the smallest entry is taken; printing of paths is left out.
- The variant of the search over cluster leaders, clustering, mesh building, plotting and sockets of the Python program.
- TLS, UDP, HTTP/3, packet packing, loss detection, congestion control, logging and the run loops.
- The codecs of other frames, the token store, path MTU search and close backoff: they would only add easy members.
