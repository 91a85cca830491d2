# An RDMA gateway's WAN reliability engine

A gateway sits between a LAN that carries RoCEv2 and a lossy WAN. It acknowledges RDMA WRITE packets on the
LAN at once, keeps a copy of each in a per-queue-pair *send window*, and forwards it over the WAN. The gateway at the
other end stores the segments of a WRITE in a *reassembly buffer*, asks for missing ones with NACKs, puts a complete
message on its LAN in order and answers with a cumulative ACK, which lets the first gateway drop its copies. Timers
retransmit what is not acknowledged and give up after three retries. CNPs slow the LAN senders down when packets are
marked by ECN or the windows fill up. Every RoCE packet the gateways create is protected by an invariant CRC.

This project models that engine in Dafny and proves what it guarantees, what it does not, and exactly when.

## How it is built

Code that changes state in place is a class or an array method, proved equal to a function on values; the properties are
lemmas about those functions and about runs of them.

| files | what they hold |
|---|---|
| `SerialNumbers` | 24-bit packet sequence numbers (PSNs) and the forward distance between them |
| `BitSerialCrc`, `CrcImage`, `CrcTables`, `CrcEngine`, `Icrc` | the shift register of the CRC, its algebra, the byte table and slice-by-8 tables and loops as class `Crc32`, and the invariant CRC computed inside a packet buffer |
| `Buffers` | packet buffers: references, hand-over to the card, completions (`BufferPool`) |
| `ArqWindow`, `Arq` | the send window as a value, and the class `ArqContext` that updates it in place |
| `ArqAcks`, `ArqNacks`, `ArqTimeouts`, `ArqTransmissions`, `ArqRuns`, `ArqProgress`, `ArqOverfull` | what ACKs, NACKs and timer sweeps do exactly to the window and hand to the card, what holds over every run of one window, and windows of more than 256 entries |
| `Gateway`, `Processor` | one gateway as a state machine over its tables, and the class whose handlers compute its steps |
| `GatewaySteps`, `GatewayNumbers`, `GatewayNotices` | what each step of a gateway does, entry by entry and packet by packet, stated without the functions that compute it; PSNs over whole runs; which CNPs go out |
| `Ownership`, `GatewayOwnership`, `GatewayPacing`, `GatewayUsage`, `Congestion` | conservation of packet references, CNP pacing, window usage and watermark hysteresis over whole runs |
| `Reassembly`, `ReassemblyOrder`, `JitterBuffer` | reassembly as a map from queue pair to partial message, its behaviour for every order of arrival, and the class `JitterBuffer` that refines the map |
| `WanPath`, `TwoGateways`, `TwoGatewayRuns` | the WAN data handler, the sender and receiver joined by a channel that loses, repeats and reorders, and particular runs of the two |
| `CtrlMsg` | ACK and NACK messages as bytes |

## What the code does not guarantee

Each of these is a lemma about the code as it is.

- **The first segment to arrive decides where a message starts** (`src/jitter_buffer.c:60`). A message comes out whole if and
  only if it has at most 256 segments, its segment 0 arrives first and every segment arrives (`ReassemblyOrder.WholeMessageIff`).
  The repository's README promises RDMA's reliable semantics over a lossy WAN and delivery of a message once all of it is
  there (`README.md:4` and `README.md:17`). From the first delivery until a second, everything the ACKs on the WAN cover has been delivered
  if and only if segment 0 was stored first (`TwoGateways.AckSoundIff`); otherwise the ACK makes the sender free whatever it
  still holds of the segments before the first stored one (`TwoGateways.AckFreesUndelivered`). For every message and every
  segment k but the first there is a run in which the segments from k on arrive, are delivered alone, and the whole message
  is freed (`TwoGatewayRuns.LateStartLosesData`).
- **The gap report depends on the order of arrival.** The expected PSN moves only on an exact hit (`src/jitter_buffer.c:90-91`).
  When segment 0 came first, the report is the PSN of the least missing segment if the segments before it first arrived in
  increasing order, and otherwise "nothing" (`ReassemblyOrder.GapReportExact`); PSN 0 doubles as "nothing", so a missing
  segment is reported if and only if those before it came in order and its PSN is not 0 (`ReassemblyOrder.GapReportedIff`).
  Once the expected segment is already stored the report stays silent for good, whatever is still missing
  (`ReassemblyOrder.SilentForGood`); segments 0, 2, 1, 4 are such an order (`ReassemblyOrder.GapUnreported`).
- **NACKs are sent when nothing is missing.** A message that arrives complete and in order makes the receiver NACK the PSN after
  every segment, the last included, unless that PSN is 0 or the segment is the 256th (`TwoGatewayRuns.LossFreeStillNacks`),
  and every entry a NACK selects loses one of its timeout retransmissions (`ArqProgress.NackUsesAttempt`).
- **Queue pair number 0 marks a free context** (`src/arq.c:41`), so the next new queue pair wipes what a WRITE for number 0 left
  there. A LAN packet keeps the account of references exactly when the context it takes into use holds nothing
  (`GatewayOwnership.LanWriteConservesIff`), and leaks exactly the references of that context
  (`GatewayOwnership.LanWriteLeaksExactly`, `GatewayOwnership.NumberZeroLeaks`).
- **ACKs commute except in a narrow band.** Two ACKs applied in either order agree unless one moves the base past a place
  from which the other, at a distance of about half the number space, looks like a new one (`ArqAcks.AcksCommuteIff`); every
  window of two entries has two ACKs that do not commute (`ArqAcks.AcksNeedNotCommute`).
- **NACKs wrap the 8-bit retry counter** (`src/arq.c:203`), which buys an entry three more timeout retransmissions each time.
  The bound of three per packet holds when no counter wraps, which at most 252 NACKs with at most 256 entries outstanding
  ensure (`ArqProgress.TimeoutsBoundedByCounts`); it fails in a run with 253 NACKs (`ArqProgress.WrapDefeatsBound`).
- **A timeout drop leaves a hole** (`src/arq.c:264-267`), so the ring can be lapped: a window has held more than 256 entries if and
  only if some send found 256 outstanding and the oldest dropped (`ArqOverfull.OverfullIff`), and every occupancy is reached
  by some run (`ArqOverfull.EveryOccupancyReached`). In a window lapped once an ACK for any of the 256 older entries frees
  nothing (`ArqOverfull.LappedAcksLost`). What needs occupancy at most 256 is stated for such windows or for runs without
  drops, everything else for all runs.

`cc->congestion_detected` (`src/congestion.c:33`) is the flag declared inside `cnp_ctx`; the model has one flag. The repository's
README speaks of an SSE4.2 form of the CRC; the code has the byte-table and slice-by-8 forms only, and these are modelled.

## Model

| member | source | states |
|---|---|---|
| `SerialNumbers.DistIsModular` | `include/common.h:8-13` | The forward distance of two 32-bit values is their difference modulo 2^24, wrapping included |
| `SerialNumbers.DistFromAdvanced` | `include/common.h:8-13` | Moving the start forward by k shortens the distance by k around the circle |
| `SerialNumbers.DistToAdvanced` | `include/common.h:8-13` | The distance to the PSN k places on is k |
| `SerialNumbers.AdvanceByDist` | `include/common.h:8-13` | Going forward by the distance reaches the other PSN: distance and advance are inverse |
| `SerialNumbers.DistMasked` | `include/common.h:8-13` | Only the low 24 bits of either argument matter |
| `BitSerialCrc.BitStepLinear` | `src/crc32c.c:12-13` | One clock of the shift register is linear over exclusive or |
| `BitSerialCrc.StepsLinear` | `src/crc32c.c:12-13` | So are any number of clocks |
| `BitSerialCrc.UnstepInverts` | `src/crc32c.c:12-13` | One clock is a bijection on 32-bit states; the inverse is given |
| `BitSerialCrc.FeedBitsInjective` | `src/crc32c.c:10-23` | Feeding the same bits never merges two different registers |
| `BitSerialCrc.SerialConcat` | `src/crc32c.c:19-24` | The CRC of a concatenation continues from the CRC of the first part |
| `CrcImage.FeedBitsClosedForm` | `src/crc32c.c:10-23` | Feeding n bits equals clocking the seed plus an image of the bits n times |
| `CrcImage.ImageInjective` | `src/crc32c.c:10-23` | For up to 32 bits the image determines the bits |
| `CrcImage.BurstChangesRegister` | `src/crc32c.c:10-23` | Two messages that differ only inside a window of at most 32 bits end in different registers, whatever comes before and after |
| `CrcTables.SerialByte` | `src/crc32c.c:10-14` | Feeding a byte bit by bit equals adding it to the register and clocking eight times |
| `CrcTables.TableStep` | `src/crc32c.c:22` | Eight clocks of any register equal one table lookup and a shift |
| `CrcTables.ByteTableStep` | `src/crc32c.c:22` | One round of the byte loop is eight clocks of the bit-serial register |
| `CrcTables.SerialFourBytes` | `src/crc32c.c:49-50` | Four bytes fed serially equal 32 clocks of the register plus their little-endian word |
| `CrcTables.WordClocks` | `src/crc32c.c:53-56` | Clocking a word splits into its four bytes, each clocked by its own distance |
| `CrcTables.SumOfTwoWords` | `src/crc32c.c:53-56` | The eight lookups of one slice-by-8 round add up to the first word clocked 64 times and the second 32 times |
| `CrcTables.SliceRound` | `src/crc32c.c:48-56` | One slice-by-8 round equals the bit-serial CRC of its eight bytes |
| `CrcEngine.Crc32.constructor` | `src/crc32c.c:6-7` | A new engine has neither table filled |
| `CrcEngine.Crc32.InitTable` | `src/crc32c.c:9-17` | Every entry of the byte table is its byte clocked eight times |
| `CrcEngine.Crc32.EightClocks` | `src/crc32c.c:31-34` | The inner loop computes eight clocks of a byte |
| `CrcEngine.Crc32.InitSlice` | `src/crc32c.c:29-44` | Entry [n][b] of the slice tables is byte b clocked through n more zero bytes |
| `CrcEngine.Crc32.FillColumn` | `src/crc32c.c:36-42` | The column loop extends rows 1 to 7 by one byte value |
| `CrcEngine.NextEntry` | `src/crc32c.c:39` | An entry of one row, looked up and shifted, is the entry of the next row: eight more clocks |
| `CrcEngine.Crc32.Le` | `src/crc32c.c:19-24` | The byte-table loop equals the bit-serial CRC for every seed and every byte string |
| `CrcEngine.Crc32.EightBytes` | `src/crc32c.c:49-56` | One slice-by-8 round through the tables equals the bit-serial CRC of eight bytes |
| `CrcEngine.Crc32.LeSlice8` | `src/crc32c.c:46-63` | The slice-by-8 loop with its byte tail equals the bit-serial CRC for every seed and every byte string, hence equals the byte-table form |
| `Icrc.SeedIsPseudoHeader` | `src/wan_tunnel.c:253` | The constant seed 0xDEBB20E3 is the bit-serial CRC of eight 0xFF bytes started from all ones |
| `Icrc.SpecFromSeed` | `src/wan_tunnel.c:253-262` | Starting from the constant seed over the masked packet equals the specified CRC over pseudo header and masked packet |
| `Icrc.Overwrite` | `src/wan_tunnel.c:245-251` | In place: the buffer becomes its masked form and the seven bytes overwritten are saved |
| `Icrc.PutBack` | `src/wan_tunnel.c:256-260` | In place: the saved bytes go back where they came from |
| `Icrc.RestoredIsOriginal` | `src/wan_tunnel.c:245-260` | Masking and putting back is the identity on the packet |
| `Icrc.RoceIcrc` | `src/wan_tunnel.c:241-263` | The result is the specified invariant CRC of the packet and the buffer is left byte for byte as found |
| `Icrc.MaskedEqualIff` | `src/wan_tunnel.c:247-251` | Two packets have the same masked form exactly when they agree outside TOS, TTL, both checksums and BTH byte 4 |
| `Icrc.MaskedFields` | `src/wan_tunnel.c:245-251` | In a packet laid out field by field the bytes masked are exactly type of service, time to live, both checksums and the fifth byte of the BTH |
| `Icrc.RewritesUnseen` | `src/wan_tunnel.c:247-251` | Any edit of those fields leaves the invariant CRC unchanged |
| `Icrc.BurstDetected` | `src/wan_tunnel.c:241-263` | Equal-length packets whose masked bits differ only within 32 consecutive bits have the same CRC exactly when they agree off the rewritable fields |
| `Icrc.FourByteBurstDetected` | `src/wan_tunnel.c:241-263` | The same for differences within four consecutive bytes |
| `Buffers.ApplyConcat` | `src/arq.c:220-227` | Buffer operations done in sequence compose |
| `Buffers.BufferPool.Free` | `src/arq.c:101` | Gives one reference back; a free without a reference is recorded as a fault |
| `Buffers.BufferPool.AddRef` | `src/arq.c:223` | Adds one reference; a fault if the buffer is not live |
| `Buffers.BufferPool.TxBurst` | `src/arq.c:224` | A packet the card accepts is pending until it completes; one it refuses is not |
| `Buffers.BufferPool.Arrive` | `src/processor.c:182` | A received packet holds one reference |
| `Buffers.BufferPool.TxDone` | `src/processor.c:260-264` | On completion the card gives its reference back |
| `ArqWindow.SentSound` | `src/arq.c:63-87` | After a send a slot is in flight exactly when it owns a packet, and every slot in flight is some i in [base, next) |
| `ArqWindow.AckedSound` | `src/arq.c:89-111` | The same after an ACK |
| `ArqWindow.TouchAllSound` | `src/arq.c:193-206` | The same after a NACK |
| `ArqWindow.SweptSound` | `src/arq.c:239-270` | The same after a timer sweep, drops included |
| `Arq.ArqContext.constructor` | `src/arq.c:17-20` | A new context is an empty window with number 0 |
| `Arq.ArqContext.Reset` | `src/arq.c:42-43` | In place: an empty window with the new number |
| `Arq.ArqContext.SendPkt` | `src/arq.c:63-87` | In place: refused with -1 exactly when the next slot is in flight, else the window with the new entry and counters |
| `Arq.ArqContext.HandleAck` | `src/arq.c:89-111` | In place: window and buffer references after a cumulative ACK |
| `Arq.ArqContext.ReleaseBase` | `src/arq.c:100-106` | One round of the ACK loop: the base slot is freed and its packet released |
| `Arq.ArqContext.HandleNack` | `src/arq.c:187-232` | In place: window, references and returned count after a NACK |
| `Arq.ArqContext.PickForNack` | `src/arq.c:193-206` | The first loop selects and stamps the burst; packets stay where they are |
| `Arq.ArqContext.Stamp` | `src/arq.c:202-204` | New send time, retry counter plus one modulo 256, one more retransmission |
| `Arq.ArqContext.ResendAll` | `src/arq.c:214-228` | The second loop transmits the packets selected, skipping empty slots |
| `Arq.ArqContext.ResendOne` | `src/arq.c:223-227` | A reference is added for the card and taken back if it refuses |
| `Arq.ArqContext.CheckTimeouts` | `src/arq.c:234-273` | In place: window and references after a timer sweep |
| `Arq.ArqContext.ExpireEntry` | `src/arq.c:240-269` | One round of the sweep: skip, retransmit or drop |
| `ArqAcks.CumulativeAckExact` | `src/arq.c:89-111` | With consecutive PSNs and at most 256 entries: an ACK at distance d < 2^23 from the base frees exactly the first min(d+1, occupancy) entries, any other ACK nothing |
| `ArqAcks.AckFreesExactly` | `src/arq.c:92-107` | The same said of each entry: freed if and only if d < 2^23 and it is at most d places from the base; its other fields and all other entries stay |
| `ArqAcks.AckReleasesExactly` | `src/arq.c:100-103` | The buffer releases of an ACK are exactly those of the packets in the freed entries, in order |
| `ArqAcks.AcksCommuteIff` | `src/arq.c:89-111` | Two ACKs in either order end in the same window and counters if and only if neither is overtaken into the ambiguous half by the other |
| `ArqAcks.AcksNeedNotCommute` | `src/arq.c:92-98` | In every consecutive window of two entries or more two ACKs are given that free everything in one order and one entry in the other |
| `ArqAcks.AckIdempotent` | `src/arq.c:89-111` | An ACK repeated at once changes nothing |
| `ArqAcks.AckedAllExact` | `src/arq.c:92-107` | Any sequence of ACKs off the ambiguous band frees exactly as many entries as the one that frees most |
| `ArqAcks.AcksEndAtFurthest` | `src/arq.c:92-107` | Any such sequence, reordered and repeated, ends where the single serially largest ACK ends |
| `ArqAcks.AckOrderIrrelevant` | `src/arq.c:92-107` | Only the set of ACKs received matters |
| `ArqNacks.NackSelectsExactly` | `src/arq.c:193-206` | For every NACK distance d: the entries selected are exactly a run of consecutive ones, with its start, end and the limit of 64 |
| `ArqNacks.NackFromBase` | `src/arq.c:193-206` | For d < 2^23 they are the first min(d+1, occupancy, 64) entries |
| `ArqNacks.NackedEntryResentIff` | `src/arq.c:193-206` | An entry whose own PSN is NACKed is in the burst if and only if it is fewer than 64 places past the base |
| `ArqNacks.TouchAllKeeps` | `src/arq.c:202-204` | A NACK changes only send times and retry counters of the entries selected and the retransmission count, which grows by the size of the burst |
| `ArqNacks.TouchedOnce` | `src/arq.c:202-203` | Each selected entry gets the new time and exactly one more on its 8-bit retry counter |
| `ArqTransmissions.NackTransmitsExactly` | `src/arq.c:214-228` | A NACK hands to the card exactly the packets of the entries it selects, oldest first, each with the answer of the card |
| `ArqTransmissions.NackPendingExactly` | `src/arq.c:214-228` | After a NACK at distance d, pending[m] has grown by exactly the number of entries of the burst that hold m and that the card accepts |
| `ArqTransmissions.SweepExpiresExactly` | `src/arq.c:239-270` | With at most 256 entries outstanding a sweep transmits the packet of every late entry with fewer than three retries, releases that of every other late one, and nothing else, oldest first |
| `ArqTransmissions.SweepPendingExactly` | `src/arq.c:245-256` | Then pending[m] has grown by exactly the number of late entries with fewer than three retries that hold m and that the card accepts |
| `ArqTransmissions.SweepMovesExactly` | `src/arq.c:239-270` | For any sound window: the packets handed to the card and those given up are exactly those due for a retry and to be dropped, as many as the two counters say |
| `ArqTimeouts.SweptFromExact` | `src/arq.c:239-270` | A sweep over any range, even one that passes a slot twice, ages exactly the slots it covers, each once |
| `ArqTimeouts.SweptExact` | `src/arq.c:234-273` | A sweep ages every slot exactly once and adds the exact numbers of due retries and due drops to the two counters; nothing else changes, drops and occupancy over 256 included |
| `ArqTimeouts.SweepIdempotent` | `src/arq.c:245-269` | A second sweep at the same time does nothing |
| `ArqRuns.AckMovesBase` | `src/arq.c:104-106` | An ACK moves the base and the ACK counter by the same amount, never past next |
| `ArqRuns.RunCounters` | `src/arq.c:79-106` | Over every run: total_sent is send_next, total_ack_received is send_base, send_max is the largest occupancy ever reached |
| `ArqRuns.RunSound` | `src/arq.c:63-273` | Over every run, drops included, the window is sound |
| `ArqRuns.RefusedIffFull` | `src/arq.c:66-70` | While the slots in flight are exactly the images of [base, next), a send is refused if and only if occupancy is 256 |
| `ArqRuns.DropFreeRunKeepsRing` | `src/arq.c:63-273` | Over every run without drops the slots in flight are exactly the images of [base, next), occupancy is at most 256 and sends are refused exactly at 256 |
| `ArqProgress.SweepUsesUp` | `src/arq.c:245-268` | Each timeout retransmission uses up one remaining attempt, and each retransmission or drop one life, exactly |
| `ArqProgress.AckUsesNothingUp` | `src/arq.c:92-107` | ACKs never add remaining attempts |
| `ArqProgress.NackAddsOnlyByWrapping` | `src/arq.c:203` | NACKs add remaining attempts only by wrapping the 8-bit counter, at most three per wrap |
| `ArqProgress.ProgressInvariant` | `src/arq.c:187-273` | Over every run: timeout retransmissions plus remaining attempts are at most 3 x (total_sent + wraps); expiries plus remaining lives at most 4 x total_sent + 3 x wraps |
| `ArqProgress.TimeoutsBounded` | `src/arq.c:234-273` | Without wraps: timeout retransmissions at most 3 x total_sent, expiries at most 4 x total_sent |
| `ArqProgress.FewNacksNoWrap` | `src/arq.c:193-206` | At most 252 NACKs, with never more than 256 entries outstanding, wrap no retry counter of an entry in flight |
| `ArqProgress.TimeoutsBoundedByCounts` | `src/arq.c:187-273` | So these two counts, which a caller can keep, give the bounds 3 x and 4 x total_sent |
| `ArqProgress.WrapDefeatsBound` | `src/arq.c:203` | A run with one packet sent, 253 NACKs, one wrap and four timeout retransmissions |
| `ArqProgress.NackUsesAttempt` | `src/arq.c:202-203` | An entry selected by a NACK, lost or not, has one timeout retransmission less left |
| `ArqOverfull.AcceptedIffBaseDropped` | `src/arq.c:66-70` | With 256 entries outstanding a send is accepted if and only if the oldest one has been dropped |
| `ArqOverfull.OverfullIff` | `src/arq.c:80-82` | Over every run: send_max exceeds 256 if and only if some send found 256 outstanding and the oldest dropped |
| `ArqOverfull.EveryOccupancyReached` | `src/arq.c:261-268` | Every occupancy, 257 included, is reached by some run |
| `ArqOverfull.LappedAckIff` | `src/arq.c:92-98` | In a window lapped once the base slot carries the PSN of the youngest entry, and an ACK does anything if and only if it is at or past that PSN |
| `ArqOverfull.LappedAcksLost` | `src/arq.c:92-98` | So an ACK for any of the 256 entries before the youngest frees nothing |
| `Ownership.ReleaseBalanced` | `src/arq.c:100-103` | Freeing a slot and releasing its packet keeps references minus slots minus pending unchanged |
| `Ownership.ResendBalanced` | `src/arq.c:223-227` | So does a retransmission, accepted or refused |
| `Ownership.AckBalanced` | `src/arq.c:89-111` | So does a whole ACK |
| `Ownership.NackBalanced` | `src/arq.c:187-232` | So does a whole NACK |
| `Ownership.SweepBalanced` | `src/arq.c:234-273` | So does a whole timer sweep |
| `Gateway.LanWriteFactors` | `src/processor.c:230-288` | The LAN path changes contexts and buffers as if CNPs, counters and the flow table were not there |
| `GatewaySteps.LanWriteStores` | `src/processor.c:250-283` | A WRITE with a flow entry and a context: the context carries its number, the slot at next its PSN, packet, type and send time, not retried and in flight, unless that slot was taken; every other slot and context stays; the card gets the packet, with a reference of its own if the window keeps it |
| `GatewaySteps.LanWriteFound` | `src/arq.c:31-49` | From then on that context is the one found for the number |
| `GatewaySteps.LanWriteUntracked` | `src/processor.c:231-235` | Without a context the packet goes out untracked and no context changes; without a flow entry it is freed and nothing changes |
| `GatewaySteps.AckStepExactly` | `src/processor.c:313-317` | An ACK takes an entry of a consecutive window out if and only if the distance d from the first PSN is below 2^23 and the entry is at most d places past the base; every other entry stays |
| `GatewaySteps.AckStepReleases` | `src/processor.c:313-317` | The references that go are exactly those of the entries that leave, for every buffer; nothing is transmitted |
| `GatewaySteps.AckStepElsewhere` | `src/processor.c:313-317` | No other context, flow or CNP changes; an ACK for an unknown number changes nothing |
| `GatewaySteps.NackStepExactly` | `src/processor.c:318-320` | A NACK stamps exactly the entries of the burst and adds one to their 8-bit retry counters; every other entry stays |
| `GatewaySteps.NackStepTransmits` | `src/processor.c:318-320` | pending[m] grows by exactly the number of entries of the burst that hold m and that the card accepts |
| `GatewaySteps.NackStepElsewhere` | `src/processor.c:318-320` | No other context, flow or CNP changes |
| `GatewaySteps.TickStepExactly` | `src/processor.c:405-410` | A tick ages every slot of every context in use once, with the clock reading of that context, and leaves free contexts alone |
| `GatewaySteps.TickStepTransmits` | `src/processor.c:405-410` | pending[m] grows by exactly the number of entries due for a retry that hold m and that the card accepts, over all contexts in use |
| `GatewaySteps.CompletionExactly` | `src/processor.c:260-264` | A completion takes one reference and one pending transmission of its packet and changes nothing else |
| `GatewaySteps.ControlBytes` | `src/processor.c:310-322` | Bytes of type 1 have the effect of the ACK step, of type 2 that of the NACK step, any other type none |
| `GatewaySteps.AckBytesExactly` | `src/processor.c:310-317` | The bytes of an ACK take out of the window exactly the entries up to its PSN and touch no other context |
| `GatewayNumbers.RunFollows` | `src/processor.c:226-255` | Over every run in which each WRITE of a queue pair that its window takes in carries the next PSN, the last 256 entries carry consecutive PSNs, drops included |
| `GatewayNumbers.WindowConsecutive` | `src/processor.c:226-255` | So while it has dropped nothing its window is consecutive from the PSN of its base on |
| `GatewayNumbers.RunAckExactly` | `src/processor.c:313-317` | And in such a run the ACK of entry i takes out exactly the entries up to i |
| `GatewayNotices.EmitsExactly` | `src/processor.c:143-164` | A CNP goes out if and only if the flow has someone to notify, the last one is an interval ago, a buffer is there and the card takes it; only then the time is remembered; it is counted when built |
| `GatewayNotices.CheckNotices` | `src/processor.c:166-180` | A congestion check sends one CNP for each active flow that notifies if it leaves the flag set, otherwise none |
| `GatewayNotices.LanWriteNotices` | `src/processor.c:237-288` | A WRITE sends exactly the CNP its ECN mark causes and, on every fifth WRITE that leaves the flag set, one for each active flow that notifies; the notified host is the sender of the flow |
| `GatewayNotices.OthersSendNone` | `src/processor.c:310-326` | No other step sends a CNP |
| `GatewayOwnership.AckConserves` | `src/processor.c:313-317` | For every buffer, references = slots that hold it + pending transmissions, with no fault, after an ACK |
| `GatewayOwnership.NackConserves` | `src/processor.c:318-320` | The same after a NACK |
| `GatewayOwnership.TickConserves` | `src/processor.c:405-410` | The same after a timer tick over all 1024 contexts, each with its own reading of the cycle counter |
| `GatewayOwnership.CompletionConserves` | `src/processor.c:260-264` | The same after the card completes a transmission |
| `GatewayOwnership.WithCtxConservesIff` | `src/arq.c:40-47` | Taking a context into use keeps the account if and only if the recycled context holds nothing |
| `GatewayOwnership.ForwardedConservesIff` | `src/processor.c:250-283` | Forwarding a packet keeps the account if and only if the recycled context holds nothing |
| `GatewayOwnership.LanWriteConservesIff` | `src/processor.c:226-289` | A whole LAN WRITE keeps the account if and only if no table entry is free for its flow or the recycled context holds nothing |
| `GatewayOwnership.RunConserves` | `src/processor.c:182-410` | Over every run of LAN WRITEs, ACKs, NACKs, ticks and completions without queue pair number 0, references = slots + pending for every buffer, with no fault |
| `GatewayOwnership.AliveIffOwned` | `src/processor.c:182-410` | In such a run a buffer is live if and only if some slot holds it or the card does; nothing is freed twice or leaked |
| `GatewayOwnership.LanWriteLeaksExactly` | `src/arq.c:40-47` | After a LAN WRITE the references of any other buffer are those of slots and pending transmissions plus those of the context recycled, which are lost |
| `GatewayOwnership.NumberZeroLeaks` | `src/arq.c:41` | A run with queue pair number 0 after which a packet has a reference that no slot and no pending transmission holds |
| `GatewayPacing.EmitPaced` | `src/processor.c:143-164` | One CNP attempt keeps every flow paced, whatever the card does |
| `GatewayPacing.LanWritePaced` | `src/processor.c:241-288` | So does a whole LAN WRITE with its ECN CNP and its congestion sweep |
| `GatewayPacing.RunPaced` | `src/processor.c:143-180` | Over every run with a steady clock the CNPs of each table entry are at least cnp_timer_cycles apart, and entries have distinct queue pair numbers that never change |
| `GatewayPacing.CnpPacing` | `src/congestion.c:44-46` | k CNPs for one queue pair number span at least (k-1) x cnp_timer_cycles |
| `GatewayUsage.RunKeepsRings` | `src/arq.c:63-273` | Over every run each window without drops has its slots in flight exactly at the images of [base, next) |
| `GatewayUsage.UsagePercentExact` | `src/processor.c:133-172` | In every drop-free run usage is at most 1024 x 256, the 32-bit sum and the x 100 do not overflow, and the percentage is exact and at most 100 |
| `GatewayUsage.UsageCountsInFlight` | `src/processor.c:133-141` | In every run without drops usage is the number of slots in flight in the contexts in use |
| `GatewayUsage.FlagFollowsReadings` | `src/processor.c:166-172` | Over every run the congestion flag is what the readings taken on every fifth forwarded WRITE make of it, and nothing else moves it |
| `GatewayUsage.RunHysteresis` | `src/processor.c:166-172` | With low < high, after every run: set if and only if some reading was >= high and all later ones > low |
| `Congestion.CongestionControl.constructor` | `src/congestion.c:17-25` | Watermarks of 0 become the defaults 80 and 60; the interval is 50 microseconds in cycles, in 64-bit arithmetic |
| `Congestion.InitialSettings` | `src/congestion.c:17-25` | The marks and the pacing interval in numbers: 80 and 60 for 0, and 50 microseconds rounded down to whole cycles |
| `Congestion.CongestionControl.CheckBuffer` | `src/congestion.c:27-42` | In place: percentage and flag after a reading, and the status returned |
| `Congestion.HysteresisExact` | `src/congestion.c:32-41` | For any watermarks: the flag is set exactly when some reading raised it and no later one cleared it |
| `Congestion.Hysteresis` | `src/congestion.c:32-41` | With low < high: set if and only if some reading >= high has occurred since the last reading <= low |
| `Congestion.PercentExact` | `src/congestion.c:30` | Without overflow the percentage is the true one and at most 100 |
| `Reassembly.AddedPrefix` | `src/jitter_buffer.c:69-100` | For any PSNs: the expected PSN is at most 256 past the first, everything before it is stored with the PSN of its place, every segment sits at its distance modulo 256 |
| `Reassembly.AddSegPrefixes` | `src/jitter_buffer.c:55-109` | The same for the whole table after any arrival |
| `Reassembly.MissingIsMissing` | `src/jitter_buffer.c:186-209` | A nonzero answer is a PSN that is not stored, and everything from the first PSN up to it is |
| `Reassembly.OthersUntouched` | `src/jitter_buffer.c:55-184` | Operations on one queue pair leave all others as they were |
| `Reassembly.PendingInvariant` | `src/jitter_buffer.c:55-184` | Over every sequence of arrivals and removals: the prefix property, at most 64 pending messages, none of them empty |
| `Reassembly.RefusedIffNoRoom` | `src/jitter_buffer.c:37-52` | A segment is refused if and only if its queue pair has no message pending while 64 others have |
| `ReassemblyOrder.CollectedExactly` | `src/jitter_buffer.c:69-85` | After any arrivals in any order, with repetitions and PSN wrap, exactly the arrived segments are stored, each once, each in its place |
| `ReassemblyOrder.DeliveryExact` | `src/jitter_buffer.c:121-166` | Whatever came first: delivery becomes possible exactly when every segment from the first arrival to the last has arrived, and delivers exactly these in order |
| `ReassemblyOrder.WholeMessageIff` | `src/jitter_buffer.c:121-166` | For messages of any length: the whole message comes out in order if and only if it has at most 256 segments, segment 0 came first and all have arrived |
| `ReassemblyOrder.OrderIrrelevant` | `src/jitter_buffer.c:55-166` | Two arrival sequences with the same first segment and the same set store and deliver the same |
| `ReassemblyOrder.EndSeenIff` | `src/jitter_buffer.c:102-104` | write_complete is set exactly when the last segment has arrived |
| `ReassemblyOrder.ExpectedStep` | `src/jitter_buffer.c:87-91` | The expected PSN moves on exactly when the expected segment itself arrives |
| `ReassemblyOrder.ExpectedIsPassed` | `src/jitter_buffer.c:87-91` | After any arrivals that start with segment 0 the expected PSN is that of the first segment not passed in order |
| `ReassemblyOrder.GapReportExact` | `src/jitter_buffer.c:186-209` | For every order of arrival that starts with segment 0: the report is the least missing segment if those before it first arrived in increasing order, otherwise 0 |
| `ReassemblyOrder.GapReportedIff` | `src/jitter_buffer.c:199-208` | A missing segment is reported if and only if those before it came in order and its PSN is not 0 |
| `ReassemblyOrder.SilentForGood` | `src/jitter_buffer.c:71-77` | Once the expected segment is already stored, nothing is ever reported again, whatever arrives |
| `ReassemblyOrder.MissingNamesGap` | `src/jitter_buffer.c:186-209` | Whatever came first, a nonzero report names a segment not stored, with everything from the first arrival up to it stored |
| `ReassemblyOrder.GapUnreported` | `src/jitter_buffer.c:90-91` | An order in which the report is lost, for every start PSN: segments 0, 2, 1, 4 arrive, 3 does not |
| `JitterBuffer.WriteContext.Open` | `src/jitter_buffer.c:39-42` | In place: the context represents a message with nothing received |
| `JitterBuffer.WriteContext.Add` | `src/jitter_buffer.c:69-104` | In place: the context represents the message with the segment added, counts and completion flag included; a taken place refuses it |
| `JitterBuffer.WriteContext.MarkWaiting` | `src/jitter_buffer.c:92-99` | Marking slots as waiting cannot be observed: the slots represent the same message |
| `JitterBuffer.WriteContext.Scan` | `src/jitter_buffer.c:134-160` | The loop returns the packets in order up to the end of the message, or nothing if a place is empty |
| `JitterBuffer.WriteContext.Clear` | `src/jitter_buffer.c:173-179` | In place: every slot and field is zero again |
| `JitterBuffer.JitterBuffer.constructor` | `src/jitter_buffer.c:12-16` | A new buffer represents the empty map |
| `JitterBuffer.JitterBuffer.Find` | `src/jitter_buffer.c:18-25` | Finds the one context of a queue pair, -1 exactly when there is none |
| `JitterBuffer.JitterBuffer.GetOrCreateWrite` | `src/jitter_buffer.c:27-53` | The context in use, else a free one opened at this PSN; refuses exactly when 64 messages are pending |
| `JitterBuffer.JitterBuffer.CreateAt` | `src/jitter_buffer.c:38-46` | A free context joins the map under its number |
| `JitterBuffer.JitterBuffer.AddSeg` | `src/jitter_buffer.c:55-109` | The represented map after an arrival, and the status 1, 0 or -1 |
| `JitterBuffer.JitterBuffer.AddAt` | `src/jitter_buffer.c:67-108` | The same once the context is known; only this queue pair changes |
| `JitterBuffer.JitterBuffer.IsWriteComplete` | `src/jitter_buffer.c:111-119` | True exactly when a pending message of this number has its last segment |
| `JitterBuffer.JitterBuffer.GetOrderedSegs` | `src/jitter_buffer.c:121-166` | Status and packets are those of the represented message |
| `JitterBuffer.JitterBuffer.RemoveWrite` | `src/jitter_buffer.c:168-184` | The map without this number; the count of active writes stays the size of the map |
| `JitterBuffer.JitterBuffer.RemoveAt` | `src/jitter_buffer.c:172-181` | The same once the context is known |
| `JitterBuffer.JitterBuffer.CheckMissing` | `src/jitter_buffer.c:186-209` | The expected PSN if its place is empty, else 0 |
| `JitterBuffer.IndexSize` | `src/jitter_buffer.c:37-38` | A free context exists exactly when fewer messages are pending than there are contexts |
| `WanPath.OpcodeTellsSegment` | `src/processor.c:24-33` | Each opcode a sender uses for segment i of n (0x0D if n = 1, else 0x0A, 0x0B, and 0x0C or 0x0E at the end) is a WRITE and is taken for that part of it |
| `WanPath.EndsIffLast` | `src/processor.c:24-33` | A WRITE opcode ends a message if and only if it is 0x0C, 0x0D or 0x0E |
| `WanPath.ProcessWanData` | `src/processor.c:334-402` | The handler stores, reports a gap, delivers, removes and acknowledges exactly as the map function says for the packet and its opcode; other opcodes change nothing |
| `WanPath.DeliverIfComplete` | `src/processor.c:375-389` | Delivers and forgets exactly the messages that are complete and in order, and returns their packets |
| `TwoGateways.Decoded` | `src/processor.c:344-350` | Segment i as it comes off the wire, opcode and all, is handled as segment i of the message |
| `TwoGateways.SenderKept` | `src/arq.c:63-273` | Whatever happens, entry c of the sender window is segment c - base0 of the message |
| `TwoGateways.ReceiverKept` | `src/processor.c:350-402` | Before the first delivery exactly the stored segments are pending and nothing is acknowledged; after it every ACK names a segment of a message stored to its end |
| `TwoGateways.RunInvariant` | `src/processor.c:350-402` | Both hold in every reachable state over a channel that loses, duplicates and reorders data, ACKs and NACKs, with timers and traffic of other queue pairs |
| `TwoGateways.FirstDelivery` | `src/processor.c:375-389` | In every reachable state the first delivery is the run of segments from the one stored first to the last, in order; it is the whole message if and only if segment 0 was stored first |
| `TwoGateways.AckSound` | `src/processor.c:390-392` | When segment 0 is stored first, every segment that any ACK on the WAN covers has been stored, ACKs left over from earlier messages included |
| `TwoGateways.AckSoundIff` | `src/processor.c:375-392` | From the first delivery until a second, every segment the ACKs on the WAN cover is in it if and only if segment 0 was stored first |
| `TwoGateways.AckFreesOnlyStored` | `src/arq.c:89-111` | When segment 0 is stored first, every entry an arriving ACK frees is a segment the receiver has stored |
| `TwoGateways.AckFreesUndelivered` | `src/arq.c:89-111` | Otherwise the ACK on the WAN makes the sender free every earlier segment it still holds, none of them delivered |
| `TwoGatewayRuns.LateStartLosesData` | `src/jitter_buffer.c:60` | For every message and every k > 0 a run in which segments k to the last arrive alone, are delivered, and the ACK frees the whole message |
| `TwoGatewayRuns.LossFreeStillNacks` | `src/processor.c:357-372` | A message that arrives complete and in order is delivered whole and still makes the receiver NACK every PSN that follows one of its first 255 segments, unless it is 0 |
| `TwoGatewayRuns.NackNamesMissing` | `src/processor.c:357-372` | In every reachable state before the first delivery a NACK that an arrival causes names a segment that is not stored, with everything from the first stored up to it stored |
| `TwoGatewayRuns.NacksSound` | `src/processor.c:357-372` | In every such state every NACK ever sent names the segment behind a run of stored ones |
| `CtrlMsg.LoadStored` | `src/arq.c:146-150` | A 32-bit word in network byte order reads back as stored |
| `CtrlMsg.LoadInverts` | `src/arq.c:170-179` | The value read determines the four bytes |
| `CtrlMsg.BuildCtrlMsg` | `src/arq.c:146-155` | In place: the payload bytes after building, padding and unused list entries left as they were |
| `CtrlMsg.ParseCtrlMsg` | `src/arq.c:164-185` | The loop parses exactly the fields and list entries the bytes carry |
| `CtrlMsg.Layout` | `include/arq.h:16-23` | Where the fields are: ARQ0, type, three bytes of padding left alone, then queue pair, PSN and count at bytes 8, 12 and 16 |
| `CtrlMsg.ListLayout` | `src/arq.c:152-154` | Entry i of the list is at byte 20 + 4 i |
| `CtrlMsg.NetworkOrder` | `src/arq.c:146-153` | Words are written most significant byte first |
| `CtrlMsg.RoundTrip` | `src/arq.c:146-182` | For every type, queue pair, PSN, count and list, whatever the buffer held: parsing what was built gives the same fields and the first min(count, 64) list entries |
| `CtrlMsg.RoundTripNoList` | `src/processor.c:363-392` | Without a list all fields come through |
| `CtrlMsg.RefusedIff` | `src/arq.c:170-173` | A payload is refused exactly when its first four bytes are not the magic number |
| `Processor.Processor.constructor` | `src/processor.c:97-108` | A new context is the booted state |
| `Processor.Processor.FindArq` | `src/arq.c:22-29` | The first context with this number |
| `Processor.Processor.GetOrCreateArq` | `src/arq.c:31-54` | In place: the table with a context for this number if there is room, and where it is |
| `Processor.Processor.GetOrCreateQp` | `src/qp_ctx.c:16-42` | In place: the flow table with an entry for this number if there is room, and where it is |
| `Processor.Processor.WindowUsage` | `src/processor.c:133-141` | The sum of all windows in use, in 32-bit arithmetic |
| `Processor.Processor.EmitCnp` | `src/processor.c:143-164` | One CNP attempt: paced, counted when built, recorded when the card takes it |
| `Processor.Processor.CheckCongestion` | `src/processor.c:166-180` | Updates the flag and, while set, tries one CNP for every active flow |
| `Processor.Processor.NoteFlow` | `src/processor.c:230-242` | The packet is received and its flow noted; a mark by ECN may cause a CNP |
| `Processor.Processor.EnterWindow` | `src/processor.c:252-257` | The packet enters its window exactly when there is a context and the next slot is free; either way the context remembers the peer gateway |
| `Processor.Processor.Transmit` | `src/processor.c:259-283` | One reference for the card if the window keeps the packet, else the packet is handed over; taken back or freed if refused |
| `Processor.Processor.Forward` | `src/processor.c:250-283` | Window and references after forwarding |
| `Processor.Processor.ForwardAndCount` | `src/processor.c:250-288` | The same, with the congestion check on every fifth packet |
| `Processor.Processor.LanWrite` | `src/processor.c:226-289` | The whole WRITE branch equals the LAN step of the state machine |
| `Processor.Processor.OnAck` | `src/processor.c:313-317` | The ACK branch equals the ACK step |
| `Processor.Processor.OnNack` | `src/processor.c:318-320` | The NACK branch equals the NACK step |
| `Processor.Processor.OnControl` | `src/processor.c:310-326` | A control payload has the effect of the message it parses to; unknown types and refused payloads have none |
| `Processor.ControlArrives` | `src/processor.c:310-322` | An ACK or NACK as the other gateway builds it has exactly the effect of its queue pair and PSN |
| `Processor.Processor.TimerTick` | `src/processor.c:405-410` | The timer loop over all contexts, each with its own clock reading, equals the tick step |
| `Processor.Processor.SweepContext` | `src/processor.c:407-409` | One context is swept if it is in use |
| `Processor.Processor.OnTxDone` | `src/processor.c:260-264` | A completion gives back the reference of the card |

## Left out

- DPDK set-up, ports, receive-side scaling, main loops, options and signals (`src/main.c`), logging and statistics: calls into a library that is not part of this model.
- Ethernet, IP and UDP headers, ARP cache, next hop, pass-through and dropped packets before the WRITE branch, and the contents of spoofed ACKs and CNPs: field assignments.
- Spinlocks: each exported function is one step; the nested `global_lock` of `src/jitter_buffer.c:28` and `src/jitter_buffer.c:56` is not modelled.
- The split of LAN and WAN cores over separate contexts (`src/main.c:457-462`): one context per gateway runs the LAN, WAN and timer functions.
- Cycle counter readings, whether the card accepts a packet and whether a buffer can be allocated are parameters, free to vary from one use to the next.
- 32-bit wrap of `send_base`, `send_next` and `send_max` and 64-bit wrap of the totals: the counters are unbounded, because the loops compare them as plain integers.
- Receive times, partition keys and MAC addresses; the peer address of a context is stored, as in the source, and used nowhere.
- Who frees packets on the WAN delivery loop (`src/processor.c:380-389`) and for duplicates (`src/jitter_buffer.c:75`): delivered packets are values there; references are counted on the sending side.
- Queue pair number 0 in the reassembly buffer: `jb_find` takes any free context for it (`src/jitter_buffer.c:20`), so its operations require another number. On the sending side number 0 is modelled.
- Exactly-once delivery across messages: a late duplicate after a delivery opens a fresh context, so the guarantees end at the first delivery of a message.
- Liveness of repair: a NACK reaches at most 64 entries and the expected PSN can stay behind, so only safety and bounds are proved.
- `src/peer_manager.c`, flow hashing and `src/stats.c`: scans, a modulo and counters.
- TwoGateways.RunInvariant: follows one message of at most 256 segments on one queue pair from an empty window with ACKs of earlier messages still on the WAN, and takes a segment as sent once the sender has it, so a channel that never carries it is one of the runs covered.
- CtrlMsg.ParseCtrlMsg: takes payloads of at least 276 bytes; the source reads a shorter one past its end without a length check, and what it then finds there is not part of this model.
- Processor.Processor.OnControl: the same limit on the payload.
