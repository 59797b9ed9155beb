# Verified model of the streaming loss-recovery path

This project models, in Dafny, the part of the game-streaming system that gets video frames across a lossy
datagram path: the GF(2^8) Reed-Solomon erasure code, the chunker that cuts a frame into data and parity datagrams,
the reassembler that rebuilds frames in order under bounded memory, the gate that decides which frames reach the
decoder, and the feedback and retransmission bookkeeping on both ends. Around that core it models the audio
resampler, the NAL stream converters, clock synchronisation, presentation health and the bitrate control loop.

`dafny verify dfyconfig.toml` checks everything.

## How it is organised

| file | part of the system |
|---|---|
| `GaloisField`, `LinearSystems`, `CauchyMatrix`, `ErasureCode`, `GroupLayout` | `crates/protocol/src/fec.rs` |
| `Datagram`, `Chunker` | `crates/protocol/src/datagram.rs` |
| `ReassemblyModel`, `FrameRebuild`, `Reassembler`, `ReassemblyBounds`, `ReassemblyOrder` | `crates/client-core/src/reassembly.rs` |
| `AnyShards`, `RecoveryCount` | rebuilding from inconsistent shards, the recovery counter |
| `EndToEnd`, `FrameDelivery`, `InterleavedDelivery`, `CrowdedDelivery` | sender and reassembler together |
| `DecoderGate`, `PacketReceipt` | `crates/client-core/src/lib.rs` |
| `SendRecords`, `SendLedger`, `Retransmission` | `crates/session/src/pipeline.rs`, `bwe_driver.rs`, the feedback arm of `service.rs` |
| `FeedbackPath`, `RetransmissionPath` | client and sender together: feedback, requests and answers |
| `RateControl` | `crates/session/src/service.rs` |
| `PresentHealth`, `LatencyAccounting` | `crates/client-core/src/stats.rs`, `crates/core/src/time.rs` |
| `AnnexB` | `crates/encode-videotoolbox/src/imp.rs`, `crates/decode-videotoolbox/src/imp.rs` |
| `Resampling` | `crates/capture-windows/src/audio.rs` |
| `Wrappers`, `Arithmetic`, `ByteStrings` | shared helpers |

Code that updates state is a class or a method with loops, proved against a specification function; the properties
are lemmas about those functions, most of them over whole runs.

## Main results

- **Erasure code.** The tables form the field GF(2)[x]/(x^8+x^4+x^3+x^2+1); nothing about it is postulated. Every
  square matrix the decoder builds is nonsingular (a Cauchy matrix over distinct points), Gauss-Jordan returns an
  inverse exactly for nonsingular matrices, so with as many parity shards as missing data shards the original data comes
  back, and with fewer nothing changes.
- **End to end.** Whatever the network reorders, repeats or loses, a released frame is the frame that was sent. A frame
  completes at the very shard after which every group has enough, and over a run of its datagrams alone it is delivered,
  once, exactly when enough of them arrive. Among other frames it is finished, once, if enough arrive while its entry lives;
  among few enough frames that is decided by the arrivals alone.
- **Amounts.** A frame is cut into the fewest pieces and groups, with exactly the parity asked for. Whatever shards are at hand,
  a rebuild is possible exactly when every group has enough usable ones.
- **Order and bounds.** Released frame numbers strictly increase; at most 8 frames are in flight and 3 held; every opened
  entry is accounted for.
- **Decoder safety.** Every delivered frame is a keyframe, past the stored recovery point, or the direct successor of the
  frame delivered before it; it is decodable exactly when no recovery point older than the last break let a frame through
  since the reference chain was last healed. Whenever a frame is held, help was asked for in the last 250 ms.
- **Feedback.** A packet skipped by a small gap is requested, unless the budget of the second is used up or its wire number
  is still remembered from before a wrap; no packet is requested twice or after it arrived; requests stay in budget. Every
  arrival is reported once with its own time, every send record is in exactly one place, and the times the estimator gets
  are those the client measured. A retransmission is the original datagram, and fills the slot of the lost shard while its
  frame is live.

## Where the code does less than its comments say

- `chunk_video_frame` is documented to give an empty frame one chunk. With parity switched on it panics, except where the
  parity is dropped again because a one-chunk frame would exceed 255 shards (`Chunker.PanicsExactlyWhen`).
- `prune_oldest` says "oldest in wrap order"; it removes the numerically smallest id, which is the oldest exactly when the
  pending ids span less than half the id space (`ReassemblyBounds.PrunesOldestExactlyWhen`). Across the wrap it throws away
  the frame just opened (`ReassemblyBounds.NewestThrownAway`).
- The gate logs an out-of-order frame as gated but delivers it (`DecoderGate.OutOfOrderPasses`); the reassembler's order
  keeps such frames away (`ReassemblyOrder.RunOrdered`).
- The feedback join takes the last sample of a batch for its highest number (`SendLedger.AnsweredExactlyWhen`,
  `SendLedger.UnorderedBatchMisses`).
- The resampler calls 48 kHz input an exact copy; the output is always one frame behind the input, the last frame waiting
  for its successor (`Resampling.CopyAtOutputRate`).
- The gate is documented to hold frames after a break until a keyframe or a recovery point resyncs. The stored point is never
  cleared, so one announced for an earlier loss ends every later hold of a frame it covers (`DecoderGate.StalePointDelivers`,
  `DecoderGate.CoveredIsNeverHeld`), and the successors of such a frame are delivered too (`DecoderGate.TaintSpreads`). The
  hold is kept exactly when no frame that finds the chain not whole is covered by a point announced before the last break, a
  loss being noticed when the next frame arrives (`DecoderGate.HoldKeptExactlyWhen`).
- The header says receivers discard chunks of a stale epoch; the reassembler restarts the entry for any other epoch, so a late
  shard of the earlier epoch throws away the newer ones (`ReassemblyBounds.ShardsSurviveExactlyWhen`,
  `ReassemblyBounds.LateEpochRestarts`).
- The host's bitrate cap is called authoritative; a manual bitrate replaces it (`RateControl.CeilingWithinCapExactlyWhen`,
  `RateControl.ManualExceedsCap`).
- The memory of requests is compared by wire numbers, so after a wrap it can hold back the request for another packet
  (`PacketReceipt.SkippedIsRequested`, `PacketReceipt.OldNumberBlocks`).
- `take_upto` compares numbers as they are, so around the 32-bit wrap a batch takes nothing or too much
  (`SendRecords.TakesUptoExactlyWhen`, `SendRecords.WrapTakesNothing`).

## Model

| member | source | states |
|---|---|---|
| `GaloisField.BuildTables` | crates/protocol/src/fec.rs:19-36 | the table-building loop fills exp and log with the powers of x and their logarithms, doubled, so every index `mul` and `inv` use is in range |
| `GaloisField.TimesXIsShiftAndReduce` | crates/protocol/src/fec.rs:28-31 | shifting and reducing by 0x11d on numbers is multiplication by x in the field |
| `GaloisField.OrderOfX` | crates/protocol/src/fec.rs:22-34 | x has order dividing 255: the loop returns to 1 after 255 steps |
| `GaloisField.ExpInjective` | crates/protocol/src/fec.rs:12-36 | the 255 powers of x are different (x is a primitive element) |
| `GaloisField.ExpSurjective` | crates/protocol/src/fec.rs:12-36 | every nonzero byte is a power of x |
| `GaloisField.LogExp` | crates/protocol/src/fec.rs:25-27 | log inverts exp on 0 to 254 |
| `GaloisField.ExpLog` | crates/protocol/src/fec.rs:25-27 | exp inverts log on nonzero bytes |
| `GaloisField.MulIsPolynomialProduct` | crates/protocol/src/fec.rs:38-43 | table multiplication is polynomial multiplication modulo x^8+x^4+x^3+x^2+1, computed by an independent shift-and-add definition |
| `GaloisField.MulAssociative` | crates/protocol/src/fec.rs:38-43 | multiplication is associative |
| `GaloisField.MulCommutative` | crates/protocol/src/fec.rs:38-43 | multiplication is commutative |
| `GaloisField.MulDistributive` | crates/protocol/src/fec.rs:38-43 | multiplication distributes over XOR |
| `GaloisField.MulInverse` | crates/protocol/src/fec.rs:46-49 | mul(a, inv(a)) is 1 for every nonzero a |
| `LinearSystems.Pivot` | crates/protocol/src/fec.rs:207-215 | pivot search, the two swaps and the scaling: row-equivalent to the start, or no pivot and then no row from the column down has a nonzero entry there |
| `LinearSystems.ClearColumn` | crates/protocol/src/fec.rs:216-225 | clears the column in every other row and stays row-equivalent to the start |
| `LinearSystems.Invert` | crates/protocol/src/fec.rs:202-228 | Gauss-Jordan for any square matrix: Some(m) is an inverse, None exactly when the matrix is singular |
| `LinearSystems.NoPivotIsSingular` | crates/protocol/src/fec.rs:208 | a column without pivot yields a nonzero vector the original matrix maps to zero |
| `LinearSystems.InverseIsNotSingular` | crates/protocol/src/fec.rs:202-228 | a matrix with an inverse maps no nonzero vector to zero, so the two outcomes exclude each other |
| `LinearSystems.InverseProduct` | crates/protocol/src/fec.rs:202-228 | the matrix returned times the original is the identity |
| `CauchyMatrix.CauchyKernel` | crates/protocol/src/fec.rs:51-57 | only the zero vector is mapped to zero by a matrix of reciprocals 1/(x_r + y_c) over distinct, disjoint points (induction that clears one pole at a time) |
| `CauchyMatrix.CauchyNonsingular` | crates/protocol/src/fec.rs:51-57 | every square Cauchy matrix over the field is nonsingular |
| `ErasureCode.SystemNonsingular` | crates/protocol/src/fec.rs:161-173 | whatever parity rows and missing columns are chosen with k + m <= 255, the system solved is nonsingular: the branch marked unreachable is |
| `ErasureCode.EncodeParity` | crates/protocol/src/fec.rs:107-132 | the parity shards are the Cauchy combinations of the data shards |
| `ErasureCode.ExplainsIsSolving` | crates/protocol/src/fec.rs:175-198 | data agrees with all shards present exactly when its missing shards solve the chosen equations |
| `ErasureCode.ExplanationUnique` | crates/protocol/src/fec.rs:138-199 | at most one data explains the shards present when enough are |
| `ErasureCode.BuildSystem` | crates/protocol/src/fec.rs:163-169 | the matrix of coefficients at the chosen rows and missing columns |
| `ErasureCode.Residuals` | crates/protocol/src/fec.rs:175-187 | right-hand sides: chosen parity minus the contribution of the data present |
| `ErasureCode.Recover` | crates/protocol/src/fec.rs:188-197 | the inverse applied to the right-hand sides |
| `ErasureCode.ReconstructData` | crates/protocol/src/fec.rs:134-199 | true exactly when decodable; then each data slot holds the unique data explaining the shards and parity slots are untouched; false changes nothing |
| `ErasureCode.AnyKOfN` | crates/protocol/src/fec.rs:107-199 | after encoding and any erasure, with as many parity shards left as data shards lost the result is the original data, otherwise there is none |
| `GroupLayout.Layout` | crates/protocol/src/fec.rs:82-105 | the groups in order, computed with the running starts, and as few as groups of 32 data shards can be |
| `GroupLayout.FewestGroups` | crates/protocol/src/fec.rs:80-89 | fewer groups of at most 32 data shards would not hold the frame |
| `GroupLayout.LayoutTiles` | crates/protocol/src/fec.rs:79-105 | the groups tile 0..k and k..k+m: each data and each parity index lies in exactly one group |
| `GroupLayout.LayoutEven` | crates/protocol/src/fec.rs:88-100 | group sizes differ by at most one |
| `GroupLayout.GroupDataBounds` | crates/protocol/src/fec.rs:59-62 | 1 to 32 data shards per group |
| `GroupLayout.SmallFrameIsOneGroup` | crates/protocol/src/fec.rs:86-88 | up to 32 data shards are one group spanning the frame |
| `GroupLayout.ParityPerGroup` | crates/protocol/src/datagram.rs:222-225 | with several groups no group gets more than 128 parity shards |
| `Datagram.EncodeWithPayload` | crates/protocol/src/datagram.rs:123-139 | the encoded bytes, field by field |
| `Datagram.ParseEncode` | crates/protocol/src/datagram.rs:141-184 | a datagram parses to a header and payload exactly when it is their encoding and the header is valid |
| `Datagram.StampSeq` | crates/protocol/src/datagram.rs:60-63 | overwrites the four sequence bytes in place and nothing else |
| `Datagram.StampedParses` | crates/protocol/src/datagram.rs:58-77 | a stamped datagram reads back the new number and parses to the same header and payload otherwise |
| `Chunker.ChunkVideoFrame` | crates/protocol/src/datagram.rs:194-274 | the whole result: datagrams, a rejection, or the panic |
| `Chunker.PanicsExactlyWhen` | crates/protocol/src/datagram.rs:246-258 | the call panics exactly for an empty frame with a payload-carrying datagram size and parity that is asked for and not dropped |
| `Chunker.ChosenGroupsFit` | crates/protocol/src/datagram.rs:212-228 | the parity count chosen keeps every group within 255 shards, so `encode_parity` never asserts, and every chunk index within 16 bits |
| `Chunker.SendData` | crates/protocol/src/datagram.rs:238-245 | one datagram per chunk of the frame, in order |
| `Chunker.EqualSizeShards` | crates/protocol/src/datagram.rs:249-258 | the data shards padded to one length, or the panic of replacing the last of no shards, exactly for an empty frame |
| `Chunker.SendParity` | crates/protocol/src/datagram.rs:246-272 | the parity datagrams of all groups carry the indices following the data, in order |
| `Chunker.DatagramsParse` | crates/protocol/src/datagram.rs:229-274 | datagram i parses to the frame's header with chunk index i and shard i as payload, and none exceeds the datagram limit |
| `Chunker.CutAsAsked` | crates/protocol/src/datagram.rs:200-237 | every datagram announces the frame's own fields, the fewest data shards that hold the frame, and the parity due; a frame is refused exactly when nothing fits beside the header or it needs more than 65535 pieces |
| `Chunker.ParityCountDue` | crates/protocol/src/datagram.rs:212-228 | the parity is the fewest shards, at least one, that make up the asked share of the data shards, unless the count or index field is full; none when none is asked for or when a frame of one group would exceed 255 shards |
| `Chunker.ParityDueUnique` | crates/protocol/src/datagram.rs:212-228 | that leaves one choice of the parity count |
| `Chunker.DataCoversFrame` | crates/protocol/src/datagram.rs:238-245 | the data payloads concatenate to the frame |
| `FrameRebuild.PushedWellFormed` | crates/client-core/src/reassembly.rs:135-140 | every entry keeps its received counters equal to its numbers of filled slots, over every push |
| `FrameRebuild.AssembleData` | crates/client-core/src/reassembly.rs:242-255 | concatenates the data shards |
| `FrameRebuild.DecodeGroup` | crates/client-core/src/reassembly.rs:305-317 | takes the slots of one group, decodes them and writes the data back |
| `FrameRebuild.Reconstruct` | crates/client-core/src/reassembly.rs:257-326 | the frame rebuilt group by group; none exactly when there is no parity, no length, or a group that the decoder refuses |
| `AnyShards.BuildableExactlyWhen` | crates/client-core/src/reassembly.rs:257-322 | for any shards, consistent or not: a rebuild is possible exactly when there is parity and, with the length of the longest shard, every group has as many usable shards as data shards |
| `AnyShards.RebuiltFromAny` | crates/client-core/src/reassembly.rs:261-326 | and then the frame is as long as the header says, as far as the shards reach, and every usable data shard stands in its place |
| `ReassemblyModel.VictimUnique` | crates/client-core/src/reassembly.rs:228-239 | the entry `prune_oldest` removes is determined |
| `ReassemblerClass.Reassembler.PruneOlderThan` | crates/client-core/src/reassembly.rs:219-226 | removes exactly the pending frames older than the one released, and counts them |
| `ReassemblerClass.Reassembler.PruneOldest` | crates/client-core/src/reassembly.rs:228-239 | removes the pending id farthest before the numerically largest, and counts it |
| `ReassemblerClass.Reassembler.Drain` | crates/client-core/src/reassembly.rs:188-206 | releases held frames in order until the head must wait |
| `ReassemblerClass.Reassembler.Push` | crates/client-core/src/reassembly.rs:108-186 | the state after one shard and the frames released |
| `ReassemblyBounds.PushedBoundedAndAccounted` | crates/client-core/src/reassembly.rs:110-186 | one push keeps the bounds and loses no entry unaccounted |
| `ReassemblyBounds.RunBoundedAndAccounted` | crates/client-core/src/reassembly.rs:28-33 | after every run: at most 8 pending and 3 held, a held head is no keyframe and waits for an older pending frame, and opened = pending + held + released + dropped |
| `RecoveryCount.RecoveredExactly` | crates/client-core/src/reassembly.rs:151-170 | over every run the recovered counter is the number of frames finished with data shards missing; with the frames finished whole they are exactly those released or held |
| `ReassemblyBounds.PrunesOldestExactlyWhen` | crates/client-core/src/reassembly.rs:228-239 | for any pending ids: the pruned one is the numerically smallest, and it is the wrap-aware oldest exactly when the largest and the smallest id are less than half the id space apart |
| `ReassemblyBounds.NewestThrownAway` | crates/client-core/src/reassembly.rs:228-239 | a concrete run: of nine open frames across the wrap the frame just opened, the newest, is thrown away |
| `ReassemblyBounds.ShardsSurviveExactlyWhen` | crates/client-core/src/reassembly.rs:129-132 | a stored shard survives an arrival for another slot exactly when the arrival has the entry's epoch and geometry; otherwise the entry holds the arrival alone |
| `ReassemblyBounds.LateEpochRestarts` | crates/client-core/src/reassembly.rs:129-132 | a concrete run: a late shard of the earlier epoch throws away what the newer epoch collected |
| `ReassemblyOrder.OlderIsLess` | crates/client-core/src/reassembly.rs:96-100 | inside a window the wrap-aware order is the order of unwrapped frame numbers |
| `ReassemblyOrder.PushedOrdered` | crates/client-core/src/reassembly.rs:110-206 | one push keeps held sorted and duplicate-free, held and pending disjoint and newer than the last release, and releases in ascending order |
| `ReassemblyOrder.RunOrdered` | crates/client-core/src/reassembly.rs:110-206 | over every run whose live frame numbers stay close together, released numbers strictly increase: none is released twice |
| `EndToEnd.ReconstructedIs` | crates/client-core/src/reassembly.rs:261-326 | from any shards of a chunked frame, reconstruction gives the frame exactly when every group has as many shards as data shards, otherwise none |
| `EndToEnd.CompletesExactlyWhen` | crates/client-core/src/reassembly.rs:142-145 | an open frame completes exactly when every group has enough shards: the cheap counter test never delays completion |
| `EndToEnd.RecoverableImpliesCount` | crates/client-core/src/reassembly.rs:65-79 | recoverable groups imply enough shards in total |
| `EndToEnd.CompletedBytes` | crates/client-core/src/reassembly.rs:151-170 | the completed bytes are the sender's frame |
| `EndToEnd.AbsorbedFaithful` | crates/client-core/src/reassembly.rs:135-178 | a genuine shard moves its frame to held, with the sender's bytes, exactly at the push after which every group has enough |
| `EndToEnd.PushedFaithful` | crates/client-core/src/reassembly.rs:110-186 | one push of a genuine shard keeps every entry and held frame faithful to the sender |
| `EndToEnd.FromSenderIsGenuine` | crates/protocol/src/datagram.rs:143-274 | every datagram of a chunked frame parses to a genuine shard |
| `EndToEnd.ReleasedIsSent` | crates/client-core/src/reassembly.rs:110-206 | for any frames chunked by the sender and any interleaving, reordering, duplication and loss of their datagrams, every frame released has the sender's bytes, kind and capture timestamp |
| `FrameDelivery.DeliveredExactlyWhen` | crates/client-core/src/reassembly.rs:110-206 | over any run of one frame's datagrams, in any order and with repeats, the frame is released once and as sent exactly when every group has as many shards among the arrivals as data shards |
| `InterleavedDelivery.FinishedExactlyWhen` | crates/client-core/src/reassembly.rs:110-206 | over any interleaving of many frames, a frame is released, or held for release, exactly when one of its shards completed it |
| `InterleavedDelivery.LivingEntryCollects` | crates/client-core/src/reassembly.rs:127-140 | a pending entry holds exactly the shards of its frame that arrived since it was opened |
| `InterleavedDelivery.EnoughWhileLiving` | crates/client-core/src/reassembly.rs:110-206 | a frame that gets enough shards for every group before its entry is pruned or passed is released, or held for release, as sent |
| `InterleavedDelivery.FinishedOnce` | crates/client-core/src/reassembly.rs:110-206 | released and held frames carry strictly ascending frame numbers, so none is finished twice |
| `CrowdedDelivery.LivesUntilEnough` | crates/client-core/src/reassembly.rs:110-239 | among at most eight frames, at most three of them newer and none of those a keyframe, an entry is neither pruned nor passed before its shards are enough |
| `CrowdedDelivery.FinishedAmongFew` | crates/client-core/src/reassembly.rs:110-239 | decided by the arrivals alone: among such frames, in any interleaving, a frame is released or held for release exactly when every group has as many of its shards among the arrivals as data shards |
| `FrameDelivery.EnoughStays` | crates/client-core/src/reassembly.rs:65-79 | more shards never make a frame undecodable |
| `DecoderGate.Gate.Admit` | crates/client-core/src/lib.rs:571-652 | what the gate does with one frame: delivered or not, the new state and the requests sent |
| `DecoderGate.Gate.Announce` | crates/client-core/src/lib.rs:425-432 | the announced recovery point is stored, replacing the one before |
| `DecoderGate.Gate.ReportDecodeError` | crates/client-core/src/lib.rs:860-865 | a reported decode error is kept until the next frame |
| `DecoderGate.Gate.OnDecodeError` | crates/client-core/src/lib.rs:684-690 | freezes and requests |
| `DecoderGate.DeliveriesExplained` | crates/client-core/src/lib.rs:575-652 | over every run of frames in order: the reference chain is whole exactly when the gate is not alarmed and no stale recovery point let a frame through since the chain was last healed; each delivery is a keyframe, at or after the stored point, or a direct successor on a whole chain or after such a frame; and it is decodable exactly when there is no such frame |
| `DecoderGate.HeldExactlyWhen` | crates/client-core/src/lib.rs:613-632 | after any run, a frame is delivered exactly when it is a keyframe, is covered by the stored point, finds the chain whole, or directly follows a frame that a stale point let through; otherwise it is held |
| `DecoderGate.HoldKeptExactlyWhen` | crates/client-core/src/lib.rs:571-652 | the documented hold is kept over a run, so that every delivered frame is decodable, exactly when no frame that finds the chain not whole is covered by a point announced before the last break |
| `DecoderGate.RenewedMeans` | crates/client-core/src/lib.rs:425-432 | a point counts as new exactly when an announcement came after every break: every reported error, rejected frame and loss |
| `DecoderGate.CoversFromFirstSafe` | crates/client-core/src/lib.rs:617-622 | across the wrap, a recovery point covers the first safe frame and those after it |
| `DecoderGate.StalePointDelivers` | crates/client-core/src/lib.rs:613-632 | a concrete run: after two lost frames and a reported error a frame is delivered because of the point of an earlier, healed loss |
| `DecoderGate.WholeMeans` | crates/client-core/src/lib.rs:571-574 | the chain is whole exactly when a keyframe, or a frame at a point newer than the last break, came after every reported error, rejected frame and loss; the gate's own decisions play no part in it |
| `DecoderGate.TaintSpreads` | crates/client-core/src/lib.rs:600-637 | the run goes on: the gate delivers the successor of the undecodable frame, which no point covers |
| `DecoderGate.CoveredIsNeverHeld` | crates/client-core/src/lib.rs:613-632 | while a stored point covers what arrives, every frame is delivered, whatever breaks |
| `DecoderGate.KeyframeRuns` | crates/client-core/src/lib.rs:575-652 | with no recovery point announced, deliveries are runs that start at a keyframe and have consecutive ids on a whole chain, also after decode errors |
| `DecoderGate.ReassembledDeliveries` | crates/client-core/src/lib.rs:575-652 | for the frames the reassembler releases: what each delivery is, when each is decodable, and when all are |
| `DecoderGate.PassesExactlyWhen` | crates/client-core/src/lib.rs:596-637 | for any state and any ids: which frames pass |
| `DecoderGate.OutOfOrderPasses` | crates/client-core/src/lib.rs:600-606 | an out-of-order frame is warned about but passes |
| `DecoderGate.RequestsSpaced` | crates/client-core/src/lib.rs:760-770 | keyframe requests are at least 250 ms apart |
| `DecoderGate.AsksExactlyWhen` | crates/client-core/src/lib.rs:587-632 | an event adds a request exactly when it calls for help (a break revealed, a frame held, a frame rejected) at a time 250 ms or more past the last request, and afterwards no call of the event is |
| `DecoderGate.HelpIsAsked` | crates/client-core/src/lib.rs:762-778 | over every run, whenever a frame is held, a break is revealed or the decoder rejects a frame, a request was made less than 250 ms before or is made now |
| `DecoderGate.LossIsAsked` | crates/client-core/src/lib.rs:606-609 | over frames in order: a loss before a non-keyframe at an open gate is answered by a request, whether or not the frame is held |
| `DecoderGate.RequestsCite` | crates/client-core/src/lib.rs:772-778 | each request cites the frame delivered last before it, or asks for a keyframe when there is none |
| `PacketReceipt.ReceiveTask.RecordArrival` | crates/client-core/src/lib.rs:1005-1072 | the state after one arrival and the messages sent |
| `PacketReceipt.RequestsBetween` | crates/client-core/src/lib.rs:1020-1031 | requested numbers lie in order inside the gap and none is remembered as requested before |
| `PacketReceipt.GapIsRequested` | crates/client-core/src/lib.rs:1026-1031 | nothing in the gap is passed over: a number is requested unless it is remembered, or the budget is used up and then by nearer ones |
| `PacketReceipt.RequestIsSent` | crates/client-core/src/lib.rs:1033-1044 | what is requested is sent in one message while the control channel is up, and nothing else is |
| `PacketReceipt.SkippedIsRequested` | crates/client-core/src/lib.rs:1020-1044 | over every plausible run: a packet skipped by a gap of at most 64 is requested when the gap shows exactly when none of the last 512 requests was for a packet with the same wire number, unless the last 150 requests were made within the second; and it is in a message sent |
| `PacketReceipt.OldNumberBlocks` | crates/client-core/src/lib.rs:1026-1031 | a concrete run: after the numbers wrap a lost packet is not requested because its number is remembered |
| `PacketReceipt.NotInExact` | crates/client-core/src/lib.rs:1027-1031 | the filter keeps exactly the numbers not remembered |
| `PacketReceipt.RequestsRemembered` | crates/client-core/src/lib.rs:1033-1040 | over every run, with no condition on arrivals or clock: the memory is the last 512 requests and no request repeats one of the 512 before it |
| `PacketReceipt.RequestsAreSound` | crates/client-core/src/lib.rs:1010-1051 | over plausible runs no number is requested twice and none that had arrived |
| `PacketReceipt.RequestedNumbersTruncate` | crates/client-core/src/lib.rs:1027-1031 | the unwrapped request numbers are those put on the wire |
| `PacketReceipt.RequestBudget` | crates/client-core/src/lib.rs:1019-1032 | at most 150 requests per started second |
| `PacketReceipt.EveryArrivalReported` | crates/client-core/src/lib.rs:1009-1071 | the feedback messages and the unsent batch are exactly the arrivals, in order, each once with its own time |
| `PacketReceipt.FeedbackRate` | crates/client-core/src/lib.rs:1052-1057 | feedback messages number at most one per 512 arrivals and one per 50 ms |
| `SendRecords.SendHistory.Push` | crates/session/src/pipeline.rs:62-68 | appends, evicting the oldest at 8192 |
| `SendRecords.SendHistory.TakeUpto` | crates/session/src/pipeline.rs:70-84 | takes the leading records up to a number |
| `SendRecords.TakenAcrossWrap` | crates/session/src/pipeline.rs:72-84 | what a batch takes from consecutive packets: nothing when the numbers wrap between the front and its last packet, everything when they wrap right after it, else the packets up to it |
| `SendRecords.TakesUptoExactlyWhen` | crates/session/src/pipeline.rs:72-84 | exactly the packets up to the last one are taken if and only if the numbers wrap neither before it nor right after it with more packets following |
| `SendRecords.BweDriver.OnFeedback` | crates/session/src/bwe_driver.rs:81-148 | pending records after a batch, the media the estimator is told, its clock, and the reports: matched ones received with their arrival times, overdue ones lost, in sequence order |
| `SendRecords.MediaClock` | crates/session/src/bwe_driver.rs:54-70 | the estimator's clock never runs backwards, media is told in time order |
| `SendRecords.MediaToldExactly` | crates/session/src/bwe_driver.rs:87-91 | the estimator is told every media packet and nothing else, in order: as many entries as media records, each with the bytes of its record, at the latest send instant so far |
| `SendLedger.RunBalanced` | crates/session/src/bwe_driver.rs:81-148 | over every run below 2^32 packets each record is in exactly one of history, evicted, pending, received or lost; received with the time its batch gives; lost only more than 500 ms after sending and named by no batch while pending |
| `SendLedger.AnsweredExactlyWhen` | crates/session/src/service.rs:421-427 | a kept record is reported received by a batch exactly when the batch names it and it is pending or not above the batch's last number |
| `SendLedger.RunAnswered` | crates/session/src/service.rs:421-427 | when every batch ends with its largest number, each reported packet is received by the first batch naming it, unless evicted or given up before |
| `SendLedger.UnorderedBatchMisses` | crates/session/src/service.rs:423-426 | a batch whose last number is not its largest leaves a reported packet unmatched |
| `SendLedger.ArrivalSurvives` | crates/session/src/bwe_driver.rs:94-98 | the arrival time joined at the sender is the one measured at the client |
| `FeedbackPath.ReceivedIsMeasured` | crates/session/src/bwe_driver.rs:94-120 | every arrival time reported to the estimator was measured by the client for a packet of that number |
| `FeedbackPath.InOrderLargestLast` | crates/session/src/service.rs:421-427 | packets arriving in order give batches that end with their largest number |
| `FeedbackPath.ArrivalsReachEstimator` | crates/session/src/service.rs:421-427 | client and sender runs together: when packets arrive in order, each one in a batch taken in is reported received with exactly its arrival time, unless evicted or given up |
| `Retransmission.SenderTask.SendVideo` | crates/session/src/pipeline.rs:514-537 | stamps, records, numbers and keeps one datagram |
| `Retransmission.SenderTask.SendPadding` | crates/session/src/pipeline.rs:121-130 | numbers and records one padding datagram |
| `Retransmission.SenderTask.Retransmit` | crates/session/src/pipeline.rs:443-451 | answers a request from the ring |
| `Retransmission.AnswersEach` | crates/session/src/pipeline.rs:443-451 | every request gets its own answer, in its place among the others |
| `Retransmission.RunKeepsLast` | crates/session/src/pipeline.rs:435-438 | the ring is exactly the last 2048 video datagrams, with the numbers they carry |
| `Retransmission.AnswerIsOriginal` | crates/session/src/pipeline.rs:443-451 | a request is answered exactly by the datagram that carried the number, byte for byte, while it is among the last 2048 |
| `RetransmissionPath.AnswersFromSender` | crates/session/src/pipeline.rs:443-451 | every answer to every request is a datagram of a sent frame |
| `RetransmissionPath.ShardFillsSlot` | crates/client-core/src/reassembly.rs:135-141 | an answered shard pushed while its frame is live is in its slot |
| `RetransmissionPath.RequestedShardReturns` | crates/client-core/src/lib.rs:1020-1044 | client and sender together: a requested packet had not arrived; if it is a kept video datagram the answer is exactly that shard of a sent frame, and it reaches its slot |
| `RetransmissionPath.SkippedShardReturns` | crates/client-core/src/lib.rs:1020-1044 | from loss to repair: a skipped packet is requested, answered exactly, and in its slot, unless the budget is used up, the wire number is remembered, or 2048 video datagrams have gone out since |
| `PresentHealth.AscendingSorts` | crates/client-core/src/stats.rs:346-353 | a percentile is taken from the samples in ascending order |
| `PresentHealth.PercentileRank` | crates/client-core/src/stats.rs:346-353 | a percentile is the sample of its rank: at most that share of the other samples are less, and more than that are not greater |
| `PresentHealth.RankUnique` | crates/client-core/src/stats.rs:351-353 | the rank leaves no choice of the sample |
| `PresentHealth.KindMeans` | crates/client-core/src/stats.rs:211-235 | after two seconds a present is a freeze from 250 ms on, and a stutter over 40 ms when at least half of the gaps before it are less than half of this one |
| `PresentHealth.PresentStats.OnPresented` | crates/client-core/src/stats.rs:196-257 | the state after one presented frame |
| `PresentHealth.RunReadsOff` | crates/client-core/src/stats.rs:196-257 | the state after a run, read off the presentation times: cadence window, freezes and their total time, stutters and break list |
| `PresentHealth.RunCountsOff` | crates/client-core/src/stats.rs:196-207 | presents, the last 3600 latencies and the late captures of a run, across the wrap of capture times |
| `PresentHealth.EpisodesCounted` | crates/client-core/src/stats.rs:236-247 | `episodes` is the number of maximal runs of breaks at most a second apart holding three breaks or a freeze |
| `PresentHealth.WorstEpisode` | crates/client-core/src/stats.rs:248-252 | the worst episode is the longest such run, measured from the present before its first break |
| `PresentHealth.FreezesFit` | crates/client-core/src/stats.rs:224-228 | the freeze total is within the time since the first present |
| `LatencyAccounting.ClockSync.Record` | crates/client-core/src/stats.rs:34-41 | keeps a sample with a smaller round trip |
| `LatencyAccounting.RunKeepsLeast` | crates/client-core/src/stats.rs:38-40 | the kept sample is the first with the least round trip |
| `LatencyAccounting.OffsetBound` | crates/client-core/src/stats.rs:32-48 | the kept offset is off by at most half of any round trip seen, rounded up |
| `LatencyAccounting.ClockSync.FrameLatencyUs` | crates/client-core/src/stats.rs:49-59 | the latency of a frame |
| `LatencyAccounting.LatencyExactlyWhen` | crates/client-core/src/stats.rs:52-59 | for any clocks and capture time: when a latency is reported and which, across timestamp wraps; it is the true one plus the offset error exactly when that sum lies in 0 to 10 s |
| `LatencyAccounting.LatencyBound` | crates/core/src/time.rs:35-48 | a reported latency is the true one to within half of any round trip |
| `LatencyAccounting.LatencyStats.OnFrameComplete` | crates/client-core/src/stats.rs:85-100 | the byte total stays that of the window |
| `LatencyAccounting.TotalSplits` | crates/client-core/src/stats.rs:88-98 | the byte total is that of its parts, whatever the cut |
| `LatencyAccounting.WindowIsLastSecond` | crates/client-core/src/stats.rs:91-99 | the window holds exactly the completions of the last second |
| `AnnexB.SampleToAnnexB` | crates/encode-videotoolbox/src/imp.rs:432-536 | the wire form of a sample |
| `AnnexB.SplitAnnexB` | crates/decode-videotoolbox/src/imp.rs:314-345 | the units between start codes |
| `AnnexB.BuildPayload` | crates/decode-videotoolbox/src/imp.rs:140-166 | parameter sets, and the length-prefixed rest |
| `AnnexB.SplitRoundTrip` | crates/decode-videotoolbox/src/imp.rs:314-345 | delimiting and splitting returns the same units exactly when each is nonempty and free of 00 00 01 |
| `AnnexB.SplitMixed` | crates/decode-videotoolbox/src/imp.rs:314-345 | start codes of either length, and bytes before the first: splitting returns the units, if none that ends in a zero is followed by a short code |
| `AnnexB.SplitIsClean` | crates/decode-videotoolbox/src/imp.rs:314-345 | on any input every unit is nonempty and free of start codes |
| `AnnexB.WalkRoundTrip` | crates/encode-videotoolbox/src/imp.rs:458-476 | length prefixes are walked back to the same units exactly when none is empty |
| `AnnexB.WalkIsPrefix` | crates/encode-videotoolbox/src/imp.rs:458-476 | on any input the units walked are a length-prefixed beginning of it |
| `AnnexB.WalkStops` | crates/encode-videotoolbox/src/imp.rs:458-468 | and the longest such beginning: the walk stops only at a zero or overlong length or too few bytes |
| `AnnexB.PayloadRestored` | crates/decode-videotoolbox/src/imp.rs:133-166 | the decoder hands on the bytes of the encoder's sample when it has no parameter sets or delimiters of its own, and on a keyframe the same parameter sets |
| `AnnexB.SampleSorted` | crates/decode-videotoolbox/src/imp.rs:140-166 | for any start-free units: the units that are neither parameter sets nor delimiters are handed on, and the parameter sets collected, the stream's own first |
| `AnnexB.SortsUnits` | crates/decode-videotoolbox/src/imp.rs:140-166 | the payload and the parameter sets are selections of the units: all that pass the test and no others, in order |
| `AnnexB.UnitTypes` | crates/decode-videotoolbox/src/imp.rs:212-226 | which first bytes make a unit a keyframe slice, a parameter set or a delimiter |
| `Resampling.Resampler.Push` | crates/capture-windows/src/audio.rs:495-516 | appends exactly the outputs the packet completes |
| `Resampling.CountExact` | crates/capture-windows/src/audio.rs:503-510 | output j exists exactly when its position lies before the last source frame |
| `Resampling.OutputsExtend` | crates/capture-windows/src/audio.rs:511-514 | later frames never change outputs already made |
| `Resampling.BoundaryFree` | crates/capture-windows/src/audio.rs:468-472 | however the stream is cut into packets the output is the same |
| `Resampling.CopyAtOutputRate` | crates/capture-windows/src/audio.rs:468-472 | at 48 kHz the output is the input quantised, without the last frame |
| `Resampling.RisingStaysRising` | crates/capture-windows/src/audio.rs:503-510 | rising input gives rising output |
| `Resampling.LineFollowed` | crates/capture-windows/src/audio.rs:503-510 | between any two frames the output is the line through them at its very position, quantised toward zero |
| `Resampling.RampStaysRamp` | crates/capture-windows/src/audio.rs:503-510 | a straight ramp comes out as the ramp sampled at the output positions, at any rate |
| `RateControl.StartInBounds` | crates/session/src/service.rs:61-81 | a session opens between the limits, and under ABR within request and host cap |
| `RateControl.StartExactly` | crates/session/src/service.rs:61-81 | which bitrates an opening session may use, and that it opens at the largest, under ABR at 8 Mb/s at most |
| `RateControl.Connection.StartSession` | crates/session/src/service.rs:347-378 | a session starts at the resolved rates |
| `RateControl.Connection.Tick` | crates/session/src/service.rs:225-247 | one tick of bitrate and parity |
| `RateControl.Connection.ChangeBitrate` | crates/session/src/service.rs:451-467 | a manual bitrate is clamped and becomes the ceiling |
| `RateControl.Connection.ChangeAbr` | crates/session/src/service.rs:468-486 | turning ABR off pins the bitrate |
| `RateControl.PinnedExactly` | crates/session/src/service.rs:468-486 | the pinned bitrate is the largest up to the ceiling within nine tenths of the estimate, or the ceiling when nothing was estimated |
| `RateControl.RunRates` | crates/session/src/service.rs:224-486 | after every sequence of messages and ticks MIN <= bitrate <= ceiling <= MAX while a session runs, and no clamp meets crossed bounds |
| `RateControl.RunsSinceStart` | crates/session/src/service.rs:347-378 | over every run a session is active exactly when one was begun and none was stopped since |
| `RateControl.SwitchesFollow` | crates/session/src/service.rs:224-486 | what each event leaves alone: the ABR switch, the estimate, the parity share and the bitrate |
| `RateControl.CeilingWithinCapExactlyWhen` | crates/session/src/service.rs:451-467 | over every run, an automatic session's ceiling is within the host's cap exactly when no manual bitrate was set since it was opened, or the last one is within the cap |
| `RateControl.ManualExceedsCap` | crates/session/src/service.rs:451-460 | a concrete run: a manual bitrate replaces the host's cap |
| `RateControl.AdjustedFits` | crates/session/src/service.rs:238-247 | bitrate and parity together fit in nine tenths of the estimate, or the bitrate is the least allowed |
| `RateControl.AdjustedIsLargest` | crates/session/src/service.rs:238-247 | and it is the largest such bitrate up to the ceiling |
| `RateControl.ParityCoversLoss` | crates/session/src/service.rs:228-235 | parity covers four times the permille lost, up to the cap |
| `RateControl.ParityAnswersLoss` | crates/session/src/service.rs:196-236 | in packets sent and lost: parity is at the cap or above four times the loss less its rounding, at least nine tenths of what it was, and above the floor only if one of the two asks |
| `RateControl.LossMeasured` | crates/session/src/service.rs:200-232 | the loss is the permille of the packets sent that were lost, rounded down |
| `RateControl.AtFloor` | crates/session/src/service.rs:228-235 | thirteen lossless ticks bring parity to the floor |

## Left out

- QUIC, TLS, pairing, sockets, the control-message codec, logging and the command line: I/O and library wrappers.
- Capture, hardware encoders and decoders, input injection and window presentation: foreign calls and user interface.
- The bandwidth estimator behind `BweDriver`: it receives the reports the model computes, its body is not modelled; nor are `on_tick` and probe deadlines.
- Pacing, task scheduling and wall-clock reads: times and channel states are parameters of the modelled operations.
- De-jitter hold times, fps figures and the statistics summaries: single-branch arithmetic.
- Audio datagrams and the mix-format conversion ahead of the resampler: straight-line code.
- Resampling.Resampler.Push: positions and samples are exact reals, so floating-point rounding is not captured; the input rate is positive (at rate 0 the loop would not end).
- RateControl.Connection.Tick: the loss ratio is an exact quotient; path-clean tracking and probe scheduling are not modelled.
- ReassemblyBounds.RunBoundedAndAccounted: the drop and recovery counters are unbounded integers.
- ErasureCode.ReconstructData: the shard list is a sequence in an array, and the matrices of `LinearSystems` are two-dimensional arrays in place of vectors of vectors.
- ReassemblerClass.Reassembler.Push: the pending entries are values in a map, so updating an entry in place is writing it back; `received_total` wraps at 16 bits as in a release build, a debug build would panic there.
- SendLedger.RunBalanced: packet counts stay at or below 2^32, where sequence numbers start to repeat; what `take_upto` does across the wrap is `SendRecords.TakenAcrossWrap`.
- SendRecords.BweDriver.OnFeedback: instants are microseconds after the anchor; the estimator's packet ids and sizes are fields of the record.
- Retransmission.AnswerIsOriginal: speaks of kept datagrams whose numbers span less than 2^32; the sender's stop on a connection error is not modelled.
- PresentHealth.PresentStats.OnPresented: the counters are unbounded integers and the library sort is a function.
- LatencyAccounting.ClockSync.Record: clock values stay below 2^63, so the signed casts are exact.
- AnnexB.BuildPayload: the decompression session rebuilt from the parameter sets is a foreign call.
- Widths of 64 bits are not modelled: sums and products of sizes, and microsecond clocks, do not overflow.
