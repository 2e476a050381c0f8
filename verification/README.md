# Verified model of perftest's concurrent and protocol core

A Dafny 4.11 model of the parts of perftest, the RDMA bandwidth and latency
benchmark, whose correctness depends on interleavings, on two parties agreeing,
or on non-linear arithmetic, with proofs over every input, run and reachable
state. `dafny verify dfyconfig.toml` checks all of it.

**Host data validation.**
`ValidatorPool` is the pool of validator threads as a step system: a step is one
access to shared memory by one thread, or a move of the remote peer or the main
thread. The accounting of hits, skipped steps, verdicts, slots and bytes, the
first-error record and termination are proved for every interleaving.
`MarkerCheck` is one look at a chunk, where the scan, the retry and the sample
may each see different memory. `SimdScan` proves the four vector scanners equal
to the plain scan. `Distribution` is the sharing out of the markers, with its
in-place sort of slices. `ValidationCommon` and `BufferLayout` are the sizing,
classification and address arithmetic with the C widths written out.

**Two-party exchange.**
`RdmaExchange` is the channel in which each side sends from the buffer it
receives into; `StreamExchange` the length-prefixed exchange over a byte stream
with short reads and writes and bounded channels, one side's code and the
two-party system tied together call by call. `KvNegotiation` is the `name=hex;`
serializer, parser and comparison, `KeyMessage` the fixed-width key message,
`HandShake` its exchange, and `Hex` and `Sockets` what they share.

**The MAC forwarder.**
`Forwarder` is the send window, the moderated completions and the receive
credits of `run_iter_fw`.

**Smaller pieces.**
`IpChecksum`, `CmEvents` and `CyclicAddress`. `Arithmetic` holds the steps of
non-linear arithmetic, `NetworkOrder` numbers in network byte order, `Sums` sums
over sequences and partitions, `Wrappers` the optional value.

Where the source works in place the model does too: arrays sorted and filled in
place, classes for the forwarder loop, the socket, the connection master and
the send request, loops with invariants. Each such method is tied to a function
of its inputs or of the old state, and the properties are proved of that
function.

Some results go against what one might expect of the code:

- The CQ moderation clamp is exact. The forwarder is free of deadlock if and
  only if `cq_mod <= min(rx_depth, tx_depth)`; for every larger value a run into
  a state that never moves again is constructed.
- The tail-zone subtraction `chunk_bytes - tail_bytes` wraps exactly for
  payloads above 4 MiB (at the required `tx_depth >= 32`); a wrapped zone never
  clears a late flush, so no mismatch is classified stale there.
- The rounding branch `target >= tx_depth` of `derive_validation_chunk_size` is
  never taken.
- `rdma_cm_connect_events` counts ESTABLISHED events, not nodes: on the client
  SUCCESS means that every node is connected if and only if the events carried
  distinct ids of unconnected nodes.
- A client attempt that ends in a failed connect of a node already connected
  loses that node's id, and then only; a retry gives it a new one. Events in the
  library's order, routes before connections, never lead there.
- The 32-bit slot number of a chunk's address wraps for parameters the program
  admits. Every admitted configuration is laid out truthfully, but its chunks are
  scanned in disjoint ranges if and only if the last slot number fits 32 bits, and
  queue pair i is told to write where its chunk 0 is scanned if and only if
  `i * chunks * ops < 2^32`; 16384 queue pairs writing single bytes are beyond it.
- `compute_validation_layout` by itself checks one product of three. What it
  accepts is laid out truthfully if and only if the others and the end of the
  buffer fit too; an input it accepts with an empty marker region is given, which
  the program's own limits never let through.
- After a successful negotiation the two sides agree on reordering if and only if
  it was off already or both find the same cause: a device of one vendor facing
  one of another turns it off alone, because the mask is compared only on the
  first vendor's devices.
- A key message fills its declared size exactly when every field fits its
  width, and is longer otherwise.
- Both sides of a handshake can succeed if and only if they have the same message
  format. With different ones the side with the larger format fails, but a side
  without a GID accepts the front of any longer message and takes GID bytes or
  digits of the marker address for the SRQ number.
- The forwarder reads the queue pair index of a send completion from the receive
  batch. No run reads an entry never written if and only if
  `min(rx_depth, tx_depth) < 2 * cq_mod`.

## Model

| member | source | states |
|---|---|---|
| `ValidatorPool.StepInv` | src/host_validation.c:600-683 | every enabled step, by any thread or the environment, keeps the invariant: per-thread accounting at each program point, last_seen never ahead of the marker, one writer of the error record |
| `ValidatorPool.RunInv` | src/host_validation.c:737-796 | hence every run does |
| `ValidatorPool.PollExact` | src/host_validation.c:748-763 | in every reachable state a marker is passed over iff its value is the one last seen, and a hit takes the value it has at that moment; without re-polling one hit a visit |
| `ValidatorPool.RunMarks` | src/host_validation.c:1102-1117 | the markers count the peer's increments, and the stop flag tells whether it was raised |
| `ValidatorPool.QuietIs` | src/host_validation.c:1102-1117 | the peer counts as silent at stop iff it fell silent before stop was raised |
| `ValidatorPool.EndOfScan` | src/host_validation.c:768-776 | in every reachable state a scan with a hit starts the idle count again, and only the 1024th idle scan in a row looks at the stop flag and leaves |
| `ValidatorPool.PoolReport` | src/host_validation.c:1125-1156 | after any run with all threads exited: hits + skipped = sum of last_seen, and = sum of all markers = number of increments if the peer was silent when stop was raised; hits = clean + stale + race + real; slots and bytes are exact multiples of hits; errors = number of real mismatches; markers scanned = scans begun times markers owned, summed |
| `ValidatorPool.FirstError` | src/host_validation.c:665-678 | the pool passes iff no hit was classified real, and otherwise the five recorded fields are those of one single real mismatch of this configuration |
| `ValidatorPool.SeenTotal` | src/host_validation.c:600-602 | hits and skipped steps together are the marker increments seen |
| `ValidatorPool.SeenIsMarkers` | src/host_validation.c:779-790 | the drain leaves nothing unseen: with a silent peer the seen total is the markers' total |
| `ValidatorPool.VolumeTotals` | src/host_validation.c:681-682 | work items = hits * ops_per_chunk, bytes = hits * chunk_bytes, pool-wide |
| `ValidatorPool.ScanTotals` | src/host_validation.c:738-766 | every scan begun passes each owned marker exactly once, whatever is hit and re-polled on the way |
| `ValidatorPool.VerdictTotals` | src/host_validation.c:660-678 | every hit has exactly one verdict; the shared count is the number of real ones although it is bumped in a separate step |
| `ValidatorPool.VerdictsBooked` | src/host_validation.c:660-678 | after any run the stale, race, real and clean totals are the numbers of verdicts of each kind its scans gave |
| `ValidatorPool.HostValidationStop` | src/host_validation.c:1102-1164 | the aggregation loop computes the report the theorems are about, all seven totals |
| `ValidatorPool.HostValidationStart` | src/host_validation.c:960-1100 | the number of validators, the distributed markers and the threads in their first scan are a configuration and an initial state the pool theorems apply to; a mismatch the pool can report names the QP and chunk of the entry scanned |
| `ValidatorPool.VerdictIsEnabled` | src/host_validation.c:585-679 | whatever the chunk holds at its three looks, the verdict is a step the pool model allows, so the pool covers every memory behaviour |
| `ValidatorPool.VerdictKept` | src/host_validation.c:660-676 | each verdict becomes the outcome of its own kind; a real one keeps QP, chunk, offset, expected and actual byte |
| `ValidatorPool.LocalDecreases` | src/host_validation.c:737-777 | with stop raised and markers settled each thread step lowers the lexicographic measure (unseen increments, idle scans left, place in the scan) |
| `ValidatorPool.PoolStops` | src/host_validation.c:737-796 | then no run is longer than the pool's work left |
| `ValidatorPool.PoolTerminates` | src/host_validation.c:737-796 | from every reachable such state, any interleaving is bounded, and a thread that has not exited can always step |
| `MarkerCheck.ValidateChunk` | src/host_validation.c:407-421 | whichever scanner the build selects returns the least mismatch and its byte |
| `MarkerCheck.RetryTail` | src/host_validation.c:613-641 | a retry matches iff the mismatch lies in the tail zone and everything from it on now reads as expected; otherwise the spot moves to the retry's own first mismatch |
| `MarkerCheck.Classify` | src/host_validation.c:643-678 | sample and classification: stale if the retry matched, race iff five equal bytes of another pattern start at the spot, real otherwise |
| `MarkerCheck.ValidateOneMarker` | src/host_validation.c:585-679 | the verdict as a function of the three memories seen: clean, flushed tail, five overwritten bytes, or real with offset, expected and actual byte |
| `MarkerCheck.StableVerdict` | src/host_validation.c:606-678 | on unchanging memory: clean iff all bytes match, never stale, race iff the first mismatch starts five equal bytes of another pattern inside the chunk, real otherwise with that byte |
| `MarkerCheck.FilledVerdict` | src/host_validation.c:63-71 | a chunk filled for marker value k is clean at n iff k and n are a multiple of three apart: at n itself, never one or two later |
| `MarkerCheck.LateWriteIsRace` | src/host_validation.c:643-663 | a chunk of five bytes or more still filled for the cycle before is a race |
| `MarkerCheck.RealReports` | src/host_validation.c:612-676 | under changing memory a real verdict reports the scan's first mismatch and byte outside the tail zone, and the retry's inside it |
| `MarkerCheck.WrapNeverStale` | src/host_validation.c:617-641 | where the tail-zone subtraction wraps no mismatch is ever stale |
| `SimdScan.FirstMismatchIs` | src/host_validation.c:125-193 | the plain scan's result is the only index that mismatches with everything before it matching, or -1 iff all match |
| `SimdScan.MaskCtz` | src/host_validation.c:125-193 | trailing zeros of the complemented compare mask are the first mismatching lane |
| `SimdScan.AndFour` | src/host_validation.c:125-193 | four masks anded are all ones iff each is |
| `SimdScan.FourVectors` | src/host_validation.c:125-193 | one turn of the unrolled loop finds the first mismatch or clears all four vectors |
| `SimdScan.VectorLoop` | src/host_validation.c:125-193 | one-vector loop and scalar tail complete the scan from any cleared prefix |
| `SimdScan.ValidateAvx512` | src/host_validation.c:125-193 | equals the plain scan for every buffer, pattern and size, with the mismatching byte |
| `SimdScan.ValidateAvx2` | src/host_validation.c:198-266 | the same for AVX2 |
| `SimdScan.ValidateSse42` | src/host_validation.c:271-339 | the same for SSE4.2 |
| `SimdScan.FourLanes` | src/host_validation.c:344-405 | NEON's test of the two 64-bit halves of four anded comparisons holds iff all 64 bytes match |
| `SimdScan.ValidateNeon` | src/host_validation.c:344-405 | the same as the plain scan for NEON |
| `Distribution.WalkIsPermutation` | src/host_validation.c:881-886 | the chunk-major, QP-interleaved order visits every marker exactly once |
| `Distribution.BuildWalk` | src/host_validation.c:875-886 | the two nested loops fill the array with that order |
| `Distribution.InsertKey` | src/host_validation.c:921-927 | the inner loop inserts the key into the sorted part of the slice and touches nothing outside |
| `Distribution.SortSlice` | src/host_validation.c:919-928 | the slice becomes its sorted form, everything outside is unchanged |
| `Distribution.SortedSorts` | src/host_validation.c:919-928 | sorting gives an ascending permutation |
| `Distribution.MarkerCounts` | src/host_validation.c:888-896 | every validator gets its share: the quotient, and one more for the first remainder |
| `Distribution.FairCovers` | src/host_validation.c:895-917 | the shares add up to the number of markers |
| `Distribution.SlicesBag` | src/host_validation.c:912-948 | contiguous shares together lose and repeat nothing |
| `Distribution.SliceEven` | src/host_validation.c:875-917 | each validator's count of markers per QP is the floor or ceiling of its count / num_qps |
| `Distribution.SlicesBalanced` | src/host_validation.c:865-948 | exact partition, counts differing by at most one, strictly ascending lists, even over the QPs |
| `Distribution.Populate` | src/host_validation.c:930-947 | entries carry the slice's markers in order, with QP and chunk decoded from the index |
| `Distribution.ShareOut` | src/host_validation.c:912-948 | one pass over the array leaves each validator its own slice, sorted and decoded |
| `Distribution.DistributeMarkers` | src/host_validation.c:865-956 | the whole in-place procedure yields that balanced partition |
| `Distribution.ExactlyOneOwner` | src/host_validation.c:912-948 | every (qp, chunk) pair sits in one slot of one validator and no other |
| `Distribution.GetNumValidators` | src/host_validation.c:74-119 | two or three per QP and at least four, or the lowest of the caps that apply: half the cores, 32, the number of markers; at least one |
| `Distribution.Wanted` | src/host_validation.c:79-83 | three a QP for reads, two for writes, and at least four |
| `Distribution.EveryValidatorOwns` | src/host_validation.c:74-119 | with that count no validator is left without a marker |
| `ValidationCommon.ChunkSizing` | src/validation_common.h:109-127 | for every payload and depth whose product fits 64 bits the derived chunk is well sized: 64 KiB to 8 MiB for payloads up to 8 MiB, one operation beyond; the least multiple of tx_depth reaching 64 KiB and below 128 KiB when raised; the most operations that fit when lowered |
| `ValidationCommon.RaisedChunk` | src/validation_common.h:109-127 | the two roundings together give the least multiple that reaches the minimum |
| `ValidationCommon.LoweredChunk` | src/validation_common.h:109-127 | the rounding branch is dead; the result is 8 MiB / payload, or one |
| `ValidationCommon.RingDepth` | src/validation_common.h:136-165 | 4 to 24 chunks, non-increasing in the chunk size |
| `ValidationCommon.RingTable` | src/validation_common.h:136-165 | the depth for every tier, number of QPs and direction |
| `ValidationCommon.RingMonotone` | src/validation_common.h:136-165 | more QPs never get deeper rings, reads never shallower ones |
| `ValidationCommon.RingBytes` | src/perftest_parameters.c:1625-1638 | the ring of one QP as force_dependecies sizes it is below 144 MiB for payloads up to 8 MiB |
| `ValidationCommon.TailZoneExact` | src/validation_common.h:266-302 | for derived chunks the tail-zone subtraction stays in range iff payload <= 4 MiB |
| `ValidationCommon.TailZone` | src/validation_common.h:266-302 | the zone is the larger of two payloads and 256 bytes and ends with the chunk where it fits |
| `ValidationCommon.PatternRound` | src/validation_common.h:83-93 | fill bytes go round 0x01, 0x02, 0x03, starting at 0x01, and these are the known patterns |
| `ValidationCommon.PatternPeriod` | src/validation_common.h:83-87 | two cycles share a fill byte iff a multiple of three apart |
| `BufferLayout.SafeMul` | src/validation_common.h:187-194 | fails exactly when the product does not fit 64 bits |
| `BufferLayout.SlotsSizeExact` | src/validation_common.h:221-226 | the chained checks fail exactly when the full product does not fit |
| `BufferLayout.LayoutExact` | src/validation_common.h:202-240 | for every input: the layout is accepted with true region sizes and its four regions 64-byte aligned, in order, disjoint and inside total_size, iff no count is zero, the three products fit their types and the true end fits 64 bits |
| `BufferLayout.ArrangeExact` | src/validation_common.h:228-238 | the wrapping alignments and sums put the regions in order iff their true end fits 64 bits |
| `BufferLayout.WrappedMarkers` | src/validation_common.h:202-240 | of the function alone: every accepted input whose marker count is a multiple of 2^32 leaves its markers a region of no bytes |
| `BufferLayout.WrappedLayout` | src/validation_common.h:202-240 | of the function alone: there is such an input, 65536 QPs with rings of 65536 one-byte chunks, beyond the program's limits |
| `BufferLayout.AdmittedFits` | src/perftest_resources.c:1426-1432 | every configuration the options admit (payload up to 2^31 - 1, tx_depth up to 15000, 16384 QPs, doubled for two ports, derived chunks and rings) is laid out truthfully |
| `BufferLayout.ChunkOffsetExact` | src/host_validation.c:939-946 | a chunk is scanned at its qp-major number times the chunk size iff its slot number fits 32 bits; that place is inside the slot region |
| `BufferLayout.DisjointIff` | src/host_validation.c:939-946 | all chunks are scanned in disjoint ranges iff the slot numbers fit 32 bits; the first that wraps meets chunk 0 |
| `BufferLayout.PublishedIsScanned` | src/perftest_communication.c:1009-1014 | in a true layout the address published for QP i is where its chunk 0 is scanned iff i * chunks * ops < 2^32; the published ring lies in the slot region |
| `BufferLayout.PublishedElsewhere` | src/perftest_communication.c:1009-1014 | an admitted configuration where it is not: 16384 QPs, one-byte payload, tx_depth 32, WRITE |
| `RdmaExchange.StepInv` | src/perftest_communication.c:1713-1779 | every copy, post, landing, completion, poll and repost keeps the two-sided invariant |
| `RdmaExchange.ExchangeSafe` | src/perftest_communication.c:1678-1779 | over every run: at most one receive posted per side, no copy or landing destroys unread or unsent bytes, each read returned exactly what the peer wrote |
| `RdmaExchange.NotStuck` | src/perftest_communication.c:1678-1707 | some step is enabled until both sides have finished |
| `RdmaExchange.ExchangeCompletes` | src/perftest_communication.c:1678-1779 | at most ten steps a message; a run that cannot go on has delivered everything |
| `RdmaExchange.ExchangesDeliver` | src/perftest_communication.c:1678-1707 | for any sequence of exchanges the server's inbox is the client's data in order, and the reverse |
| `RdmaExchange.ClientFirst` | src/perftest_communication.c:1678-1707 | in every exchange the client's message comes first |
| `StreamExchange.LengthRoundTrip` | src/perftest_negotiation.c:58-75 | the 32-bit length field carries a size faithfully iff it is below 2^32 |
| `StreamExchange.LengthIsNetworkOrder` | src/perftest_negotiation.c:62-72 | the field is four bytes in network byte order |
| `NetworkOrder.FirstIsHighest` | src/perftest_negotiation.c:62-72 | in network order the first byte has the highest weight |
| `NetworkOrder.EncodeDecode` | src/perftest_negotiation.c:376-397 | a number that fits its bytes is read back as itself |
| `StreamExchange.EthernetWriteData` | src/perftest_communication.c:1784-1801 | under any short writes: fails only if a call moved nothing; on success exactly the message is appended, on failure a strict prefix |
| `StreamExchange.EthernetReadData` | src/perftest_communication.c:1806-1823 | under any short reads: fails only if a call moved nothing; on success exactly size bytes leave the input, in order |
| `StreamExchange.WriteDataChunked` | src/perftest_negotiation.c:17-35 | the chunk loop sends exactly the data, or a strict prefix on failure |
| `StreamExchange.ReadDataChunked` | src/perftest_negotiation.c:37-55 | the chunk loop takes exactly size bytes |
| `StreamExchange.ExchangeLength` | src/perftest_communication.c:1644-1673 | one fixed-size exchange: on success mine is sent and as many bytes are taken |
| `StreamExchange.XchgDataChunked` | src/perftest_negotiation.c:58-100 | succeeds iff no call of the exchange fails; then one side has sent its stream, taken a length field and as many bytes as it announces, and made exactly the calls the two-party system prescribes, to the last |
| `StreamExchange.TakenIsPayload` | src/perftest_negotiation.c:58-100 | if the input began with a peer's stream, exactly that payload was received and the rest is untouched |
| `StreamExchange.CallIsMove` | src/perftest_negotiation.c:58-100 | a prescribed call of one side's code is a step of the two-party system with the same effect |
| `StreamExchange.StepInv` | src/perftest_negotiation.c:58-100 | any positive short read or write of either side keeps: read + in channel = sent, calls in program order |
| `StreamExchange.NotStuck` | src/perftest_negotiation.c:58-100 | for every channel capacity of at least one byte some side can move until both are done |
| `StreamExchange.ReadsPrefix` | src/perftest_communication.c:1806-1823 | whatever the sizes, what a side has read is a prefix of what the peer sends |
| `StreamExchange.ProgramOrder` | src/perftest_negotiation.c:58-100 | in every run the client writes before it reads and the server reads before it writes, lengths then payloads |
| `StreamExchange.ExchangeCompletes` | src/perftest_negotiation.c:58-100 | for payloads below 2^32 bytes every run is bounded, and one that cannot go on leaves each side with exactly the peer's payload |
| `KvNegotiation.BufferSize` | src/perftest_negotiation.c:233-237 | the precomputed size is the length of the text plus its terminator |
| `KvNegotiation.Serialize` | src/perftest_negotiation.c:233-253 | the snprintf loops fill the precomputed buffer exactly with the table's text |
| `KvNegotiation.TokensOfText` | src/perftest_negotiation.c:262-288 | the tokens of a serialized table are its entries |
| `KvNegotiation.Receive` | src/perftest_negotiation.c:262-288 | the token, name and byte loops update the table in place as the token-by-token function does |
| `KvNegotiation.StoreHex` | src/perftest_negotiation.c:277-283 | the byte loop on a printed value of any size: one long enough fills the entry and marks it received, a shorter one overwrites its front and leaves it unreceived |
| `KvNegotiation.ScanExact` | src/perftest_negotiation.c:278-281 | reading a printed value succeeds exactly at its own bytes, and the read that fails is at its terminator, never past it |
| `KvNegotiation.StoreExact` | src/perftest_negotiation.c:277-283 | whatever the text, the bytes that can be read are stored and only a complete value is marked received |
| `KvNegotiation.ApplyWhere` | src/perftest_negotiation.c:264-285 | a token without = changes nothing, any other only the first row of its name |
| `KvNegotiation.NegotiationRoundTrip` | src/perftest_negotiation.c:221-292 | whatever the sizes, the value of every shared name is stored in its row and no other row changes |
| `KvNegotiation.RoundTripExact` | src/perftest_negotiation.c:221-292 | with equal sizes each side marks received precisely the shared names, with the peer's exact bytes |
| `KvNegotiation.CompareAll` | src/perftest_negotiation.c:474-485 | SUCCESS iff no received entry whose condition holds fails its comparison; then the parameters are adjusted by all of them in order |
| `KvNegotiation.AdjustedExact` | src/perftest_negotiation.c:330-358 | out_reads ends as the least of its value and the peer's limits; reordering is off iff it was or a mask differs |
| `NetworkOrder.BigEndianInjective` | src/perftest_negotiation.c:297-328 | comparing decoded values is comparing bytes |
| `KvNegotiation.NegotiationAgrees` | src/perftest_negotiation.c:474-485 | both sides reach the same verdict, and it is success iff all shared compared fields are equal |
| `KvNegotiation.AdjustmentsAgree` | src/perftest_negotiation.c:330-358 | after SUCCESS: for a compared limit no side asks for more reads than the peer's, and the two end alike on reordering iff it was off already or either both or neither find a compared mask that differs |
| `KvNegotiation.OneSideAdjusted` | src/perftest_negotiation.c:330-358 | one side over the exchanged tables: reordering is off iff it was or a shared mask it compares differs |
| `KvNegotiation.LimitTaken` | src/perftest_negotiation.c:330-341 | against a peer that declares n as its limit, out_reads comes out as the lesser of its value and n |
| `KvNegotiation.BitIs` | src/perftest_negotiation.c:344-358 | the mask bit is the binary digit of its weight |
| `KvNegotiation.FlagsEqual` | src/perftest_negotiation.c:436-436 | SUCCESS means equal starting flags, since no_enhanced_reorder is compared |
| `KvNegotiation.SameConditions` | src/perftest_negotiation.c:421-445 | masks compared on both sides or on neither are turned off by both or by neither |
| `KvNegotiation.VendorsDisagree` | src/perftest_negotiation.c:442-444 | a disagreement after SUCCESS: the mask is compared on one vendor's devices only |
| `KeyMessage.SizeExact` | src/perftest_communication.h:79-91 | for all four formats the printed message with its terminator fills the declared size iff every field fits its width |
| `KeyMessage.FieldOrder` | src/perftest_communication.h:87-91 | the order and widths of the fields in each format |
| `KeyMessage.ParseKeys` | src/perftest_communication.c:382-486 | the reader's loops compute the reading function: sscanf without a GID, cuts at colons with one |
| `KeyMessage.ScanJoin` | src/perftest_communication.c:370-410 | sscanf of the print format recovers every value |
| `KeyMessage.SkipToSrqn` | src/perftest_communication.c:475-483 | the fixed skip lands on srqn |
| `KeyMessage.KeysRoundTrip` | src/perftest_communication.c:302-488 | for all four formats and in-range fields every carried field is recovered and the others keep their values |
| `HandShake.EthernetWriteKeys` | src/perftest_communication.c:302-365 | one write call: success iff it took the whole message, a strict prefix otherwise |
| `HandShake.EthernetReadKeys` | src/perftest_communication.c:370-488 | one read call: anything short of a whole message fails, a whole one is parsed |
| `HandShake.CtxHandShake` | src/perftest_communication.c:1593-1635 | one side: fails iff a call moves less than a message or the message taken does not parse; on success the client has made a write and a read, the server a read and a write, each of one whole message |
| `HandShake.HandShakeExact` | src/perftest_communication.c:1593-1635 | two sides that take whole messages, each off the front of the one the other wrote, have equal formats and hold each other's destination |
| `HandShake.HandShakeIff` | src/perftest_communication.c:1593-1635 | both can take whole messages iff their formats are equal |
| `HandShake.LargerStarves` | src/perftest_communication.c:1593-1635 | with different formats the side with the larger one can never take a whole message |
| `HandShake.MixedFormats` | src/perftest_communication.c:398-409 | a reader without a GID accepts the front of any GID message, with the first GID byte for srqn |
| `HandShake.MixedValidation` | src/perftest_communication.c:398-409 | a reader with neither GID nor validation accepts the front of any validation message, with the first eight digits of the marker address for srqn |
| `HandShake.MixedBoth` | src/perftest_communication.c:382-397 | a reader with validation and no GID accepts the front of a GID message without, with two GID bytes for the marker address and srqn |
| `Hex.RoundTrip` | src/perftest_communication.h:87-91 | a printed hexadecimal field is read back |
| `Hex.WidthExact` | src/perftest_communication.h:87-91 | a field keeps its width iff the value fits |
| `Hex.FirstDigitHighest` | src/perftest_communication.h:87-91 | the first digit has the highest weight |
| `Hex.DigitTable` | src/perftest_communication.h:87-91 | the digits are 0-9 and a-f |
| `Forwarder.StepInv` | src/raw_ethernet_resources.c:1010-1132 | every arrival, completion, send, poll and repost keeps counters, window, credits and signalling |
| `Forwarder.SignalsCount` | src/raw_ethernet_resources.c:1013-1043 | the flag logic signals exactly every cq_mod-th send, so n sends yield n / cq_mod completions |
| `Forwarder.Conservation` | src/raw_ethernet_resources.c:1010-1132 | in every reachable state ccnt <= scnt <= rcnt <= posted and scnt - ccnt <= tx_depth; outside the repost loop outstanding + waiting + in flight = rx_depth |
| `Forwarder.ClampedIsLive` | src/raw_ethernet_resources.c:1010-1132 | with cq_mod within both depths there is always an outstanding receive, an allowed send or a signalled send in flight |
| `Forwarder.UnclampedDeadlocks` | src/raw_ethernet_resources.c:1010-1132 | for every larger cq_mod, a run into a state with none of them, from which no continuation moves any counter |
| `Forwarder.DeadStaysDead` | src/raw_ethernet_resources.c:1010-1132 | from any invariant state with none of the three, no counter ever moves again |
| `Forwarder.DeadlockFreeIff` | src/perftest_parameters.c:1879-1883 | freedom from deadlock iff cq_mod <= min(rx_depth, tx_depth) |
| `Forwarder.ForceDependencies` | src/perftest_parameters.c:1489-1491 | the clamps of lines 1489-1491 and 1879-1883 give exactly the least of cq_mod and the depths that apply, and with the later rounding of rx_depth (line 2377) leave a deadlock-free configuration |
| `Forwarder.Loop.constructor` | src/raw_ethernet_resources.c:963-1005 | the loop starts in the initial state, which satisfies the invariant |
| `Forwarder.Loop.PostOne` | src/raw_ethernet_resources.c:1013-1043 | one send: signal flag before and after, counter |
| `Forwarder.Loop.SendPhase` | src/raw_ethernet_resources.c:1010-1045 | the send loop is a run of the system and forwards exactly min(free window, packets waiting) |
| `Forwarder.Loop.PollRecv` | src/raw_ethernet_resources.c:1070-1079 | the receive completions of one poll, and how much of the batch has been written |
| `Forwarder.Loop.PollSend` | src/raw_ethernet_resources.c:1086-1107 | each completion is booked, cq_mod sends, on the QP whose index stands in the same entry of the receive batch; with entries that were written, or under the exact condition, this is the system's step |
| `Forwarder.IndexUnwritten` | src/raw_ethernet_resources.c:1086-1095 | for every moderation, a run in which one poll returns as many completions as the depths and the batch allow although no receive poll returned more than one entry |
| `Forwarder.IndexSafeIff` | src/raw_ethernet_resources.c:983-1095 | no run reads an entry of the receive batch never written iff min(rx_depth, tx_depth) < 2 * cq_mod |
| `Forwarder.Loop.RepostPhase` | src/raw_ethernet_resources.c:1114-1132 | the repost loop is a run of the system and brings posted - ccnt back to rx_depth |
| `IpChecksum.FoldIsCanon` | src/raw_ethernet_resources.c:112-113 | folding terminates in the 16-bit representative modulo 65535 |
| `IpChecksum.WideSumIsOnesSum` | src/raw_ethernet_resources.c:105-116 | the wide sum of 32-bit words, folded once, is the 16-bit one's-complement sum |
| `IpChecksum.Checksum` | src/raw_ethernet_resources.c:105-116 | the loops return the complement of the one's-complement sum (section 2 of RFC 1071) without overflowing the accumulator |
| `IpChecksum.ByteOrderIndependent` | src/raw_ethernet_resources.c:105-116 | the sum folds to all ones in host order iff it does in network order |
| `IpChecksum.CheckCompletes` | src/raw_ethernet_resources.c:146-166 | storing the complement makes the header's sum fold to 0xFFFF |
| `IpChecksum.GenIpv4Header` | src/raw_ethernet_resources.c:146-166 | every header built passes the receiver's check of section 3.1 of RFC 791 and carries its fields |
| `CmEvents.Master.constructor` | src/perftest_communication.c:3156-3164 | zeroed nodes, all connections outstanding |
| `CmEvents.Master.AddressHandler` | src/perftest_communication.c:2489-2527 | a failed ToS option leaves connects_left, the other failures lower it |
| `CmEvents.Master.RouteHandler` | src/perftest_communication.c:2532-2601 | every failure lowers connects_left; a failed connect also clears the node's id |
| `CmEvents.Master.ConnectionRequestHandler` | src/perftest_communication.c:2606-2713 | a full table fails without counting, a refusal clears the slot and counts, success fills the next slot |
| `CmEvents.Master.EstablishedHandler` | src/perftest_communication.c:2718-2750 | marks the first node of that id; only the client counts |
| `CmEvents.Master.Dispatch` | src/perftest_communication.c:2777-2814 | each event's effect on counters and nodes |
| `CmEvents.Master.ConnectEvents` | src/perftest_communication.c:2819-2852 | the wait loop against any sequence of events and call failures |
| `CmEvents.Master.ClientAttempt` | src/perftest_communication.c:2971-3010 | address lookup, resolutions for the unconnected nodes, and the wait loop; a failed resolution lowers connects_left |
| `CmEvents.AttemptStarts` | src/perftest_communication.c:2971-3010 | an attempt gets to the events exactly when the lookup and every start succeed; a failed start costs one connection |
| `CmEvents.DropsByAtMostOne` | src/perftest_communication.c:2777-2814 | every event lowers connects_left by at most one and never raises it |
| `CmEvents.NeverPassesZero` | src/perftest_communication.c:2826-2844 | so the loop cannot pass zero, and succeeds only at zero |
| `CmEvents.SuccessIsAllOk` | src/perftest_communication.c:2826-2852 | a loop that returns SUCCESS has handled every event without a failure |
| `CmEvents.SuccessIsClean` | src/perftest_communication.c:2826-2852 | SUCCESS means that no input used was an error event, had a failed library call or a failed acknowledgement |
| `CmEvents.FailsAtFirst` | src/perftest_communication.c:2755-2852 | a loop that waits after j inputs fails at input j iff it is an error, has a failed call, or is misplaced; connects_left is then one lower, except for the ToS option and a full table, and nothing else is counted |
| `CmEvents.FailureIsLast` | src/perftest_communication.c:2826-2852 | a loop that fails has handled every event but its last without a failure |
| `CmEvents.ServerCounters` | src/perftest_communication.c:2606-2713 | for every event sequence until a handler fails: connection_index + connects_left = num_of_qps, requests fill the slots in order and once, disconnects_left = connection_index - DISCONNECTED events |
| `CmEvents.ServerConnects` | src/perftest_communication.c:2819-2852 | SUCCESS on the server: exactly num_of_qps requests, every node connected |
| `CmEvents.ClientCounters` | src/perftest_communication.c:2718-2750 | the client's counters and nodes in closed form over any event sequence |
| `CmEvents.ClientConnects` | src/perftest_communication.c:2819-2852 | SUCCESS on the client leaves every node connected iff the ESTABLISHED ids are distinct and of unconnected nodes |
| `CmEvents.RepeatedEstablished` | src/perftest_communication.c:2740-2743 | a repeated ESTABLISHED makes the loop succeed with a node unconnected |
| `CmEvents.Master.DestroyCma` | src/perftest_resources.c:7288-7333 | unconnected nodes lose their id and connects_left is recounted; fails exactly when an id to be destroyed cannot be, with the nodes before it cleared and the count unchanged |
| `CmEvents.Master.AllocateNodes` | src/perftest_resources.c:7171-7256 | nodes without an id get a new one; fails exactly when a needed creation fails, and then the ids before it are destroyed, connected ones too, and left in the table |
| `CmEvents.RetryReady` | src/perftest_communication.c:3021-3041 | for every failed attempt of a ready client, before the events or in them, cleanup and reallocation with fresh ids make it ready again with connects_left the unconnected nodes; connected nodes keep their ids iff the attempt did not end in a failed connect of a connected node |
| `CmEvents.RetryKeeps` | src/perftest_communication.c:3021-3041 | with route events before connections, as the library delivers them, connected nodes always keep their ids |
| `CmEvents.ConnectFailsLate` | src/perftest_communication.c:2585-2593 | such an attempt: the id of a connected node is cleared |
| `CyclicAddress.RoundUpLeast` | src/perftest_resources.h:161-162 | rounding gives the least multiple that reaches the value |
| `CyclicAddress.IncLeast` | src/perftest_resources.h:167-168 | a step is the least number of whole lines, at least one, that holds the message |
| `CyclicAddress.Slots` | src/perftest_resources.h:958-958 | as many slots as fit the cycle, at least one |
| `CyclicAddress.BuffSize` | src/perftest_resources.h:156-156 | the region is the larger of message and cycle |
| `CyclicAddress.GuardFits` | src/perftest_resources.h:156-168 | under size <= cycle/2 with lines tiling half the cycle, at least two slots fit |
| `CyclicAddress.SendRequest.IncreaseRemAddr` | src/perftest_resources.h:950-966 | takes the address after n posts to the address after n + 1, leaving the other verb's field alone |
| `CyclicAddress.SendRequest.Post` | src/perftest_resources.c:4661-4669 | after any n posts the address is base + (n mod k) * INC, in 64 bits |
| `CyclicAddress.StaysInside` | src/perftest_resources.h:950-966 | every message stays inside its region |
| `CyclicAddress.SlotsDisjoint` | src/perftest_resources.h:1016-1023 | two posts share an address iff a whole number of cycles apart, and otherwise do not overlap |
| `CyclicAddress.NeighboursDisjoint` | src/perftest_communication.c:1016-1016 | messages to different QPs never overlap |
| `CyclicAddress.PublishedHalf` | src/perftest_communication.c:1016-1016 | published regions are the second half of the buffer |
| `CyclicAddress.CheckSysData` | src/perftest_communication.c:2035-2071 | each size ends as the larger of the two sides' when sizes are exchanged with a recent enough peer, and as it was otherwise |
| `CyclicAddress.PeersAgree` | src/perftest_communication.c:2041-2064 | the peers end with equal sizes iff they exchanged them or had equal ones |
| `CyclicAddress.PeersInStep` | src/perftest_communication.c:2062-2064 | after the exchange equally many posts are at equal offsets on both sides |

## Left out

- Verbs, rdma_cm, umad and socket calls: they are environment steps, oracle parameters or the `Socket` class; RNR retry exhaustion and transport errors are not steps.
- Hardware memory ordering: steps are sequentially consistent.
- ValidatorPool.StepInv: threads are step functions on values, one shared access per step; thread creation failures, pinning and the NUMA lookup are not modelled, and markers are unbounded (the 64-bit counter does not wrap).
- RdmaExchange.StepInv: `rdma_read_data` and `rdma_write_data` appear as their steps on values, because the two sides interleave inside them; the server's and client's use of the channel is a common script of messages. A send completes only after it has landed, as on reliable connections; unreliable ones are not covered.
- StreamExchange.ExchangeCompletes: the two-party system covers calls that move at least one byte; failing calls are covered by the one-sided methods.
- MarkerCheck.ValidateOneMarker: the mask scanners read the mismatching byte once more after the vector load, and the NEON one the whole block; under a concurrent write the recorded byte can then equal the expected one. The model takes index and byte from one look.
- Distribution.DistributeMarkers: allocation failures and the debug print are not modelled; entry addresses are in `BufferLayout`.
- Distribution.GetNumValidators: the core counts read from the system are parameters.
- KvNegotiation.Receive: the text is a value, so the NUL bytes strtok_r and the parser write into it are not visible; `%2hhx` reads hexadecimal digits only (no leading white space, sign or 0x). A value with an odd number of digits, which the serializer never writes, would let the source read past its terminator; that read counts as failed.
- KvNegotiation.CompareAll: values are compared and limits taken as unsigned, which is exact below 2^31; the weight of the reorder bit is a parameter.
- KvNegotiation.NegotiationAgrees: assumes both tables give a shared name the same size and type and a compared one the same condition, as two sides of one version do.
- KeyMessage.ParseKeys: strtol on text that does not start with hexadecimal digits, and a missing colon (a null pointer in the source), are an error result; signed fields are taken as the unsigned values `%x` prints.
- HandShake.CtxHandShake: the socket variant; `rdma_read_keys` and `rdma_write_keys` copy the fields of a struct over the channel of `RdmaExchange`. A buffer without a terminator is read to its end and no further, so a GID reader given the front of a GID message with validation finds no colon and fails. Fields too wide for their format overrun the source's buffer, so they are required to fit.
- Forwarder.Conservation: one QP, post_list 1, DURATION mode, counters below 2^31; with several QPs the send-completion QP index is read from the receive batch, and ITERATIONS mode gates reposting near the end. The first-packet gate and the end of the duration only stop sending.
- IpChecksum.GenIpv4Header: the host is little-endian.
- CmEvents.Master.Dispatch: UD connections are left out; the set-up calls that can refuse a request are one flag because their exits have the same effect.
- CmEvents.ClientConnects: a client gets no CONNECT_REQUEST, since it does not listen; the ten-attempt loop around it is represented by `RetryReady`.
- CyclicAddress.SendRequest.Post: requires INC <= cycle_buffer, without which the source divides by zero; `increase_loc_addr` has the same arithmetic on one field.
- The sender loop of data validation: it is the environment that writes chunk bytes and bumps markers.
- GPU and accelerator backends, the CUDA validation queue, option parsing, reports, floating-point statistics, the legacy fixed-struct negotiation, version strings, IPv6 and L4 headers and flow rules: wrappers, I/O or flat field copying that would only add easy members.
- The scanner stub for builds without SIMD: such builds reject data validation when parameters are parsed.
