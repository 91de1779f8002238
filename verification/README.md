# A verified model of the Aegis packet path

Aegis relays fixed-size Sphinx packets over links that carry one cell a slot. This project models the
code on that path and the small stateful protocols beside it, and proves what they are for. Code that
rewrites buffers, queues or dictionaries in place is modelled by methods on arrays and classes; each is
proved equal to a function on values, and the properties of whole runs are proved about those functions.

The modules, from the packet outwards:

| modules | what they model |
|---|---|
| `SphinxOnion`, `SphinxKeys`, `Sphinx`, `SphinxBuild` | The packet layout; the onion a sender means, slot by slot; `peel` and `build` on byte buffers, proved to compute it for every path of 2 to 6 hops, every secret, header, id and fill, and every hash function; what the streams, MACs and replay tags keep apart |
| `ReplayWindow`, `ReplayCaches`, `Mix` | The replay cache with its four redundant structures; what it remembers over any run; one mix, runs of packets through it, and a packet's trip along its whole path |
| `Fragments`, `Reassembly`, `FragmentStreams` | Packets cut into 18 cells; the in-order reassembler on arbitrary cells |
| `Emitter`, `Delivery`, `SessionDriver`, `SessionRuns`, `CoverTiming` | The constant-rate emitter; the session's channel and driver loop under every interleaving of sender, receive, tick and shutdown; delivery end to end, and when the cover signal comes |
| `Padding`, `HardCap`, `Shaper`, `Percentiles` | The hard-cap padder, and the batch analysis of the same recurrence with its order statistics, and what its figures mean |
| `Nullifiers`, `Causality` | Nullifier registries with export, import and merge; double spends over any number of them |
| `Median`, `Gossip`, `GossipEpoch`, `DiverseGossip` | Median merging of outcome reports, the two merge buffers, and an epoch at a victim |
| `RateLimit`, `Link`, `Guards` | Token buckets; the link handshake; the guard mitigation loop |
| `Arithmetic`, `Bytes` | Shared facts and types |

The hash, the KEM and the Diffie-Hellman function are arbitrary functions throughout. Where a result needs
more of them it says so: that decapsulating a hop's header gives that hop's secret, that Diffie-Hellman
commutes, or, as an explicit alternative, that two named hash inputs collide.

## Where the code and its documentation differ

The model follows the code in each of these.

- `advance_epoch` empties the cache. A comment at `crates/aegis-crypto/src/replay.rs:67-68` speaks of four
  retained generations, but the front generation is dropped before the next one is added, so at most one is
  ever active, and `max_generations` never keeps an old tag (`ReplayCaches.ReplayCache.AdvanceEpoch`).
- A cache of capacity 0 accepts everything, because membership scans `capacity` slots
  (`crates/aegis-crypto/src/replay.rs:206`; `ReplayWindow.DetectsRepeatIffCapacity`).
- `wait_idle_cover` promises that fragments are on the wire before a session shuts down
  (`crates/aegis-client/src/session.rs:217-220`). Cells still in the channel are not counted, so the signal
  can stand while a sent cell has not even been received (`SessionRuns.CoverDoneTooSoon`), and a full emitter
  drops a cell whose sender was told it was sent (`SessionRuns.CoverDoneAfterDrop`). When the signal stands,
  the sent cells are exactly those on the wire if and only if the channel is empty and nothing was dropped
  (`SessionRuns.CoverDoneMeans`).
- The payload block is filled up with random bytes, and the exit strips only zeros, so what it logs is the
  payload exactly in the case given by `Mix.PrefixIsPayloadIff`; `Mix.PrefixIsNotPayload` has two payloads that
  it is not.
- A fresh reassembler that refuses a decodable cell has still noted its packet id
  (`Reassembly.RefusalKeepsState`, `Reassembly.StrayIdBlocks`).
- A larger multiple never has a larger 99th percentile only from positive multiples on: at a cap that is not
  positive the deferral is recorded as zero (`HardCap.MonotoneExactlyWhenPositive`).
- `TokenBucket.allow` follows a clock that goes back, and then counts the same time twice
  (`RateLimit.BackwardClockOverAdmits`). A pair of calls spends only what was there and what flowed in if and
  only if the first does not go back, or finds the bucket full and asks for more than it can hold
  (`RateLimit.RefillHonestIffClockForward`).
- Asked for no epochs, `mitigated_dirty_epochs` still records one and `_run_mitigated_trial` none
  (`Guards.TrialAgainstRecord`, `Guards.DisagreeOnNoEpochs`).

## Model

| member | source | states |
|---|---|---|
| SphinxOnion.FieldsOfWire | crates/aegis-crypto/src/sphinx.rs:41-57 | The four fields of any packet are read back from its bytes |
| SphinxOnion.WireOfFields | crates/aegis-crypto/src/sphinx.rs:41-57 | Any packet's bytes are rebuilt from its four fields |
| SphinxOnion.XorTwice | crates/aegis-crypto/src/sphinx.rs:299-323 | XOR with a key stream is its own inverse |
| SphinxOnion.PeelAdvances | crates/aegis-crypto/src/sphinx.rs:209-238 | One peel of the packet meant for hop k, under hop k's secret, names hop k+1 and gives exactly the packet meant for hop k+1 |
| SphinxOnion.PeelsReach | crates/aegis-crypto/src/sphinx.rs:209-238 | After k real peels of the sender's packet hop k holds exactly the packet meant for it, on every path |
| SphinxOnion.EveryHopVerifies | crates/aegis-crypto/src/sphinx.rs:121-152 | After k peels alpha is hop k's header, gamma verifies under hop k's secret, and, before the last hop, the next peel names hop k+1 |
| SphinxOnion.PayloadRecovered | crates/aegis-crypto/src/sphinx.rs:154-159 | After all hops have peeled, the payload block is the one the sender started from |
| SphinxOnion.TamperedHeaderFails | crates/aegis-crypto/src/sphinx.rs:178-183 | A packet whose routing block was changed under an unchanged MAC verifies if and only if the hash collides on the two MAC inputs |
| Bytes.LittleEndianValue | crates/aegis-crypto/src/sphinx.rs:299-323 | A number that fits is read back from its little-endian bytes |
| Bytes.Le64Injective | crates/aegis-crypto/src/sphinx.rs:299-323 | No two 64-bit counters have the same bytes |
| SphinxKeys.BlockInputInjective | crates/aegis-crypto/src/sphinx.rs:254-323 | What is hashed for a stream block tells domain, secret and counter apart |
| SphinxKeys.BlocksEqualIff | crates/aegis-crypto/src/sphinx.rs:254-323 | Two blocks, of one stream or of two, are equal if and only if they are the same block of the same stream or the hash collides on their two named inputs |
| SphinxKeys.StreamsOfUses | crates/aegis-crypto/src/sphinx.rs:240-274 | Slots, payload layers and pads use streams of three different domains |
| SphinxKeys.MacsEqualIff | crates/aegis-crypto/src/sphinx.rs:291-297 | Two MACs are equal if and only if secret and routing block are, or the hash collides |
| SphinxKeys.TagsEqualIff | crates/aegis-crypto/src/sphinx.rs:171-176 | Two replay tags are equal if and only if the secrets are, or the hash collides |
| Sphinx.StreamXorRange | crates/aegis-crypto/src/sphinx.rs:299-323 | The counter and position loops XOR exactly the given byte range with the keyed stream, in place, and nothing else |
| Sphinx.PeelPad | crates/aegis-crypto/src/sphinx.rs:254-274 | The pad is the stream of its own domain, of the requested length |
| Sphinx.VerifyMac | crates/aegis-crypto/src/sphinx.rs:178-183 | True exactly when the keyed digest of beta equals gamma |
| Sphinx.Peel | crates/aegis-crypto/src/sphinx.rs:209-238 | The in-place shift, pad and swap give the next hop and a packet with the next header, MAC, routing block and payload layer |
| SphinxBuild.XorSlots | crates/aegis-crypto/src/sphinx.rs:240-252 | The loop XORs each of the first `layers` slots with its own hop's stream and leaves the others |
| SphinxBuild.SlotsXoredTwice | crates/aegis-crypto/src/sphinx.rs:240-252 | Encrypting all slots and then decrypting them restores the buffer, so the two passes are inverses |
| SphinxBuild.MacAfterPeels | crates/aegis-crypto/src/sphinx.rs:276-285 | The simulated peels give the MAC of the slots from `peels` on followed by the hops' pads: nothing of the earlier slots survives |
| SphinxBuild.WriteRouting | crates/aegis-crypto/src/sphinx.rs:124-130 | Every used slot gets its next hop's id and header; the unused slots keep their fill |
| SphinxBuild.EmbedMacs | crates/aegis-crypto/src/sphinx.rs:137-149 | Copying the MACs in keeps all routing and makes every slot from the given one on carry the MAC its next hop will compute |
| SphinxBuild.SealedIsLayers | crates/aegis-crypto/src/sphinx.rs:132-152 | A buffer with routing and those MACs, sealed, is the inside-out onion from that slot on, whatever the outer slots hold |
| SphinxBuild.BuildBeta | crates/aegis-crypto/src/sphinx.rs:121-152 | The repeated seal, MAC and unseal passes over one buffer end in the routing block that the first hop should see |
| SphinxBuild.LayersCommute | crates/aegis-crypto/src/sphinx.rs:154-159 | Adding a payload layer outermost equals adding it innermost, so the order in which `build` adds them does not matter |
| SphinxBuild.BuildDelta | crates/aegis-crypto/src/sphinx.rs:154-159 | The payload block carries one layer per hop, over the payload followed by random bytes |
| SphinxBuild.Build | crates/aegis-crypto/src/sphinx.rs:98-168 | Path and payload length errors, the first failing encapsulation, or a packet whose fields are exactly the onion meant for hop 0 |
| ReplayWindow.WindowIsRecentHistory | crates/aegis-crypto/src/replay.rs:121-168 | After any run the cache holds exactly the end of its history of acceptances: the last `capacity` for a small cache, those since the last flush for a large one |
| ReplayWindow.AcceptedTwiceFarApart | crates/aegis-crypto/src/replay.rs:121-168 | Between two acceptances of one tag a small cache accepts at least `capacity` other times, and a large one comes to a later block of as many acceptances as its threshold |
| ReplayWindow.RepeatMeansFlush | crates/aegis-crypto/src/replay.rs:121-168 | A large cache accepts a tag it has checked before only if some step strictly between was a flush, a clear or an advance |
| ReplayWindow.FlushedForgets | crates/aegis-crypto/src/replay.rs:128-136 | After such a step nothing older is remembered |
| ReplayWindow.SizeBounded | crates/aegis-crypto/src/replay.rs:121-149 | Over any run a cache holds at most its capacity, and from 1024 on at most its threshold |
| ReplayWindow.FillsUp | crates/aegis-crypto/src/replay.rs:121-149 | Below that a new tag is added and nothing is forgotten |
| ReplayWindow.GenerationCountsFlushes | crates/aegis-crypto/src/replay.rs:153-177 | The generation is the number of flushes since the last clear, modulo 2^32 |
| ReplayWindow.HistoryIsSeen | sim/aegis_sim/sphinx_oracle.py:179-192 | The tags ever accepted since the last clear or advance are exactly the plain seen-set |
| ReplayWindow.NeverRejectsFresh | crates/aegis-crypto/src/replay.rs:204-216 | A rejected tag is always one the seen-set holds, the all-zero pad tag included |
| ReplayWindow.AgreesWithOracleIff | sim/aegis_sim/sphinx_oracle.py:179-192 | For positive capacity the cache answers like the seen-set on every tag if and only if the seen-set is no larger than the cache's limit |
| ReplayWindow.DetectsRepeatIffCapacity | crates/aegis-crypto/src/replay.rs:204-216 | Any positive capacity refuses an immediate repeat after any run; capacity 0 accepts every tag |
| ReplayCaches.ReplayCache.constructor | crates/aegis-crypto/src/replay.rs:97-118 | The four structures start in agreement, empty |
| ReplayCaches.ReplayCache.CtContains | crates/aegis-crypto/src/replay.rs:204-216 | The full scan over padded slots finds exactly the remembered tags |
| ReplayCaches.ReplayCache.CheckAndInsert | crates/aegis-crypto/src/replay.rs:121-149 | Keeps the agreement of set, FIFO, generation map and active list, answers fresh exactly for tags not remembered, and moves the window as the plain step does |
| ReplayCaches.ReplayCache.AdvanceEpoch | crates/aegis-crypto/src/replay.rs:153-168 | Empties all structures for any `max_generations`, with the generation wrapping at 2^32, and leaves only the new generation active |
| ReplayCaches.ReplayCache.ClearAll | crates/aegis-crypto/src/replay.rs:171-177 | Back to the empty cache at generation 0 |
| ReplayCaches.ReplayCache.EvictOldest | crates/aegis-crypto/src/replay.rs:140-144 | Forgets exactly the oldest tag in every structure |
| ReplayCaches.ReplayCache.InsertTag | crates/aegis-crypto/src/replay.rs:218-229 | Adds the tag, newest, to every structure, with the agreement kept |
| ReplayCaches.ReplayCache.RemoveTagFromGeneration | crates/aegis-crypto/src/replay.rs:231-240 | Removes the tag from set and generation, and a generation left empty from map and active list |
| ReplayCaches.ReplayCache.DropGeneration | crates/aegis-crypto/src/replay.rs:242-250 | Removes every trace of one generation and nothing else |
| Mix.Process | crates/aegis-crypto/src/sphinx.rs:186-203 | The verdict and the cache afterwards: decapsulation, integrity and replay refusals in that order, the cache touched only by packets whose MAC verifies |
| Mix.RefusedPacketsDoNotDisturb | crates/aegis-crypto/src/sphinx.rs:186-203 | Leaving any refused packets out of any run changes neither the other verdicts nor the final cache |
| Mix.ForwardedIff | crates/aegis-crypto/src/sphinx.rs:186-203 | A packet is forwarded if and only if its header opens, its gamma is the keyed digest of its beta and its tag is not remembered; the cache changes then only, and by that tag; integrity failures are exactly the rest of what opens |
| Mix.RunForwardsAuthentic | crates/aegis-crypto/src/sphinx.rs:186-203 | In any run of packets through one mix every packet forwarded is authentic |
| Mix.TamperedRefusedIff | crates/aegis-crypto/src/sphinx.rs:178-203 | The packet meant for a hop with another routing block under the same header and MAC is refused for integrity, the cache untouched, if and only if the hash does not collide on the two MAC inputs |
| Mix.HopForwards | crates/aegis-crypto/src/sphinx.rs:186-238 | A hop that has not seen the packet meant for it forwards the packet meant for the next hop, and refuses the same packet a second time |
| Mix.PathDelivers | crates/aegis-crypto/src/sphinx.rs:186-238 | The sender's packet reaches the end of its path if and only if no cache on it still holds its tag; the hops named are the path's, the payload block is bare, and an early end is a replay |
| Mix.BuiltPayloadArrives | crates/aegis-crypto/src/sphinx.rs:98-238 | A packet from `build`, sent through relays that can open it and have not seen it, arrives with the payload at the front of the payload block, by the given ids |
| Mix.PayloadPrefix | crates/aegis-node/src/exit_sink.rs:301-309 | The prefix the exit logs has only zeros after it and does not end in one |
| Mix.PrefixIsPayloadIff | crates/aegis-node/src/exit_sink.rs:301-309 | That prefix is the payload if and only if the random tail is all zero and the payload does not end in a zero byte |
| Mix.PrefixIsNotPayload | crates/aegis-node/src/exit_sink.rs:301-309 | Two payloads whose logged prefix differs from them: one with a tail that is not zero, one that ends in a zero |
| Fragments.DecodeIffAssembled | crates/aegis-crypto/src/fragment.rs:187-224 | A cell decodes to a fragment if and only if it is that fragment's cell, byte for byte |
| Fragments.EncodeFragmentCell | crates/aegis-crypto/src/fragment.rs:187-204 | The filled buffer is the cell of the packet's chunk, zero-padded |
| Fragments.Decode | crates/aegis-crypto/src/fragment.rs:206-224 | Whatever decodes has an index below 18 |
| Fragments.DecodeComplains | crates/aegis-crypto/src/fragment.rs:206-224 | Each complaint of the decoder, and its success, by the bytes of the cell that cause it |
| Fragments.SphinxReassembler.constructor | crates/aegis-crypto/src/fragment.rs:139-143 | Starts expecting fragment 0 with no id and a zero buffer |
| Fragments.SphinxReassembler.Push | crates/aegis-crypto/src/fragment.rs:145-178 | Every answer and new state, with the id noted before an order error, and a reset after the last fragment |
| Fragments.SphinxReassembler.Reset | crates/aegis-crypto/src/fragment.rs:180-184 | Back to the fresh state |
| Reassembly.CarriesIff | crates/aegis-crypto/src/fragment.rs:187-224 | A cell carries a packet's chunk if and only if it agrees with the encoded cell on header and data; only the last cell's tail is free |
| Reassembly.AcceptedCollects | crates/aegis-crypto/src/fragment.rs:145-178 | On arbitrary cells, those accepted since the last packet are fragments 0 onwards, in order, under one id, and the buffer holds their data |
| Reassembly.AcceptedIffOk | crates/aegis-crypto/src/fragment.rs:145-178 | Those are exactly the cells since the last packet that were not refused |
| Reassembly.CompletedPacketIsItsFragments | crates/aegis-crypto/src/fragment.rs:145-178 | Whenever a packet comes out, the accepted cells since the last one are fragments 0 to 17 of that very packet under one id |
| Reassembly.RefusalKeepsState | crates/aegis-crypto/src/fragment.rs:145-178 | A refusal leaves the state unchanged if and only if an id was already noted or the cell does not decode |
| Reassembly.RefusalReports | crates/aegis-crypto/src/fragment.rs:145-178 | A refusal reports the decoder's complaint, a foreign id, or the index expected and the one the cell has, which differ |
| Reassembly.StrayIdBlocks | crates/aegis-crypto/src/fragment.rs:145-178 | After a stray fragment with another index than 0, cells of other packets are all refused until a reset |
| FragmentStreams.Fragment | crates/aegis-crypto/src/fragment.rs:81-88 | One cell for each chunk, in order |
| FragmentStreams.Reassemble | crates/aegis-crypto/src/fragment.rs:102-119 | A wrong count is reported as incomplete; otherwise the first packet or refusal of a fresh reassembler |
| FragmentStreams.ReassemblesIff | crates/aegis-crypto/src/fragment.rs:81-119 | 18 cells reassemble to a packet if and only if they carry its chunks in order under one id: both round trips |
| FragmentStreams.NoiseIgnored | crates/aegis-crypto/src/fragment.rs:145-178 | Cover, data and malformed cells among the fragments change neither state nor packets |
| FragmentStreams.StartsOver | crates/aegis-crypto/src/fragment.rs:145-184 | After a stream that ends between packets the reassembler yields from the rest as if fresh |
| FragmentStreams.StreamYields | crates/aegis-crypto/src/fragment.rs:81-178 | Any prefix of the cells of many packets yields exactly the packets complete in it |
| Emitter.EncodeDataCell | crates/aegis-client/src/emitter.rs:252-265 | Command, saturated length, truncated payload, random rest |
| Emitter.EncodeDummyCell | crates/aegis-client/src/emitter.rs:267-272 | A drop command over random bytes |
| Emitter.CoverIsNotFragment | crates/aegis-client/src/emitter.rs:252-272 | No data or cover cell decodes as a fragment, whatever its random bytes |
| Emitter.DataCellReads | crates/aegis-client/src/emitter.rs:252-265 | A receiver reads back the data command, the length up to 65535 and the first 509 bytes of the payload; the rest is noise |
| Emitter.DummyCellReads | crates/aegis-client/src/emitter.rs:267-272 | A dummy reads as a drop command over noise |
| Emitter.ConstantRateEmitter.constructor | crates/aegis-client/src/emitter.rs:138-147 | Both queues empty, no slot used, nothing dropped |
| Emitter.ConstantRateEmitter.Enqueue | crates/aegis-client/src/emitter.rs:161-169 | Refused with the limit, and nothing changed, exactly when both queues together are full; else queued last |
| Emitter.ConstantRateEmitter.EnqueueCell | crates/aegis-client/src/emitter.rs:172-176 | The same for pre-formed cells |
| Emitter.ConstantRateEmitter.EnqueueDropNewest | crates/aegis-client/src/emitter.rs:180-190 | Full: only the drop counter moves; else the payload is queued last |
| Emitter.ConstantRateEmitter.NoteDroppedEnqueue | crates/aegis-client/src/emitter.rs:198-200 | Only the drop counter moves |
| Emitter.ConstantRateEmitter.TryPushReal | crates/aegis-client/src/emitter.rs:202-210 | Refuses exactly at the limit |
| Emitter.ConstantRateEmitter.PendingEmissions | crates/aegis-client/src/emitter.rs:213-215 | Counts both queues |
| Emitter.ConstantRateEmitter.NextCell | crates/aegis-client/src/emitter.rs:227-238 | One cell a slot: the oldest pre-formed cell, else the oldest payload, else cover |
| Delivery.FragmentsConserved | crates/aegis-client/src/emitter.rs:172-238 | In any run of offers, payloads and slots, the fragments emitted followed by those queued are the fragments taken, in order |
| Delivery.BacklogBounded | crates/aegis-client/src/emitter.rs:161-238 | Over any run both queues together stay within the backlog limit, and the tick counter is the number of cells emitted |
| Delivery.TurnedAwayIff | crates/aegis-client/src/emitter.rs:161-210 | Something offered is turned away exactly when both queues together are at the limit; else it is queued last; only a droppable payload counts as dropped |
| Delivery.SlotTakesOne | crates/aegis-client/src/emitter.rs:227-238 | A slot takes at most one item from the queues and drops none |
| Delivery.CellLeavesOnTime | crates/aegis-client/src/emitter.rs:227-238 | A pre-formed cell with p before it leaves at exactly the p-th tick after the next one, whatever else is offered or queued |
| Delivery.PayloadLeavesAfterCells | crates/aegis-client/src/emitter.rs:227-238 | A payload leaves after every pre-formed cell and the payloads before it, at exactly that tick, while no new cell is offered |
| Delivery.PacketsDelivered | crates/aegis-client/src/emitter.rs:172-238 | If the fragments taken are those of a list of packets, the receiver's reassembler yields a prefix of that list, and all whole packets once the cell queue has drained, for any timing and any other traffic |
| SessionDriver.Link.constructor | crates/aegis-client/src/session.rs:84-87 | An empty channel of the given capacity, no signal set |
| SessionDriver.Link.TrySend | crates/aegis-client/src/session.rs:161-177 | Closed, full or sent, with the channel unchanged in the first two cases |
| SessionDriver.StartWithTransport | crates/aegis-client/src/session.rs:76-117 | A session and a running driver on one new channel with room for `max_backlog` cells, nothing sent, seen or signalled |
| SessionDriver.PacedSession.EnqueueFragments | crates/aegis-client/src/session.rs:161-177 | As many cells as there is room for get in and stay in; the error says whether the channel was full or closed; the cover signal is withdrawn |
| SessionDriver.AllSentIs | crates/aegis-client/src/session.rs:161-177 | Attempt by attempt, exactly as many cells get into the channel as it has room for while the driver lives |
| SessionDriver.EnqueueSeenByDriver | crates/aegis-client/src/session.rs:161-177 | A session's sending is, to its driver, the cover signal withdrawn and one attempt a cell, and succeeds exactly when all get in |
| SessionDriver.Driver.constructor | crates/aegis-client/src/driver.rs:44-62 | The driver's starting state, with no deadline and nothing seen |
| SessionDriver.Driver.SyncPending | crates/aegis-client/src/driver.rs:63-65 | The published count is the emitter's |
| SessionDriver.Driver.OnRecv | crates/aegis-client/src/driver.rs:71-84 | One cell moves from the channel to the emitter or to the drop count; deadline and cover signal are withdrawn |
| SessionDriver.Driver.OnTick | crates/aegis-client/src/driver.rs:85-106 | One slot is emitted; the cover deadline and signal follow the queue and the clock; a failed send stops the loop |
| SessionDriver.Driver.OnShutdown | crates/aegis-client/src/driver.rs:107-111 | Stops exactly on a true shutdown value |
| SessionRuns.AlwaysSound | crates/aegis-client/src/driver.rs:44-117 | In every state of every interleaving: cells sent are those received then those in the channel; received is kept plus dropped; kept, in order, is shipped, then lost to the transport (at most one), then queued; a deadline means an empty queue and a real cell seen |
| SessionRuns.CoverDoneMeans | crates/aegis-client/src/session.rs:217-230 | When the cover signal stands, nothing is queued or lost and the cells on the wire are those kept, in order; they are exactly the sent cells if and only if the channel is empty and nothing was dropped |
| SessionRuns.CoverDoneTooSoon | crates/aegis-client/src/session.rs:217-230 | A five-step run in which the signal stands while a sent cell is still in the channel |
| SessionRuns.CoverDoneAfterDrop | crates/aegis-client/src/driver.rs:71-106 | A six-step run in which the signal stands over an empty channel and a cell that was sent has been dropped |
| CoverTiming.TickedSignal | crates/aegis-client/src/driver.rs:85-106 | What a tick does to deadline and signal, from what was pending, seen and due |
| CoverTiming.CoverTakesItsTime | crates/aegis-client/src/driver.rs:90-106 | A tick that itself sets the deadline raises the signal only if the cover time has passed between its two readings of the clock |
| CoverTiming.SignalMeansCovered | crates/aegis-client/src/driver.rs:64-106 | Over any interleaving, if the signal stands, some tick left nothing pending after the last receive and the cover time passed from it to a later or the same tick, since which no sending began |
| CoverTiming.SignalIff | crates/aegis-client/src/driver.rs:64-106 | On a clock that goes forward, with nothing received or begun since a receive, the signal stands if and only if such a pair of ticks has come since |
| SessionRuns.NothingDropped | crates/aegis-client/src/session.rs:76-117 | If channel and queues together never exceed the backlog limit, no cell is dropped |
| SessionRuns.ShippedThenTheRest | crates/aegis-client/src/driver.rs:44-117 | Without drops, what was sent is what was shipped followed by what is on its way, in order |
| SessionRuns.SessionDelivers | crates/aegis-client/src/session.rs:124-177 | A session without drops delivers, through any interleaving, a prefix of the packets sent, and all whole ones once channel and queue are empty and the transport stands |
| Padding.HardCapPadder.constructor | crates/aegis-client/src/padding.rs:57-66 | Nothing pending, round 0 |
| Padding.HardCapPadder.DeliverReal | crates/aegis-client/src/padding.rs:73-75 | The item is pending, last |
| Padding.HardCapPadder.TakeSlots | crates/aegis-client/src/padding.rs:102-112 | Exactly Q slots: the oldest items in order, then cover |
| Padding.CountRealSlots | crates/aegis-client/src/padding.rs:113-118 | Counts exactly the slots holding real items |
| Padding.HardCapPadder.RoundTick | crates/aegis-client/src/padding.rs:102-133 | The slots, the counts of real and cover ones, the round, the items left and the deferral, division by a zero Q included |
| Padding.ReleasedThenPending | crates/aegis-client/src/padding.rs:102-133 | Over any rounds, what was released followed by what is pending is what arrived, in order |
| Padding.ShapeHidesArrivals | crates/aegis-client/src/padding.rs:102-133 | Any two arrival histories show an observer the same slot counts |
| Padding.ExcessIs | crates/aegis-client/src/padding.rs:72-134 | The excess of a window is its arrivals less Q for every round in it |
| Padding.BacklogIsWorstExcess | crates/aegis-client/src/padding.rs:72-134 | The backlog is the largest excess over all closing windows: a bound for each, reached by one |
| Padding.BurstBoundsBacklog | crates/aegis-client/src/padding.rs:72-134 | If no closing window exceeds the rate by more than sigma, the backlog does not exceed sigma |
| Padding.ReleasedOnTime | crates/aegis-client/src/padding.rs:102-112 | The item at position p of the queue leaves exactly p div Q rounds later, in slot p mod Q, whatever arrives in between |
| Padding.QueueLaterIs | crates/aegis-client/src/padding.rs:102-133 | The queue followed ahead from a round is the one the run finds in the later round |
| Padding.BurstBoundsDelay | crates/aegis-client/src/padding.rs:72-134 | Under the same burst bound every item of a round's queue is released, in a known slot of a round of the run at most sigma / Q rounds later, rounded up, whatever arrives in between |
| HardCap.SortedSorts | crates/aegis-client/src/padding.rs:187-195 | Sorting gives exactly the same values, ascending |
| HardCap.RankIndex | crates/aegis-client/src/padding.rs:187-195 | The rank is always the index of a value, for any percentile |
| HardCap.OrderStatisticsMonotone | crates/aegis-client/src/padding.rs:187-195 | If one series is nowhere above another, neither is any of its order statistics |
| HardCap.PercentileOf | crates/aegis-client/src/padding.rs:187-195 | The nearest-rank percentile of the sorted values, with the index clamped, and zero for no values |
| Percentiles.RankNearest | crates/aegis-client/src/padding.rs:193-194 | The rank of a percentile is within one half of its share of the way from first to last |
| Percentiles.RankTies | crates/aegis-client/src/padding.rs:193-194 | Half-way between two ranks it is the upper one |
| Percentiles.PercentileCounts | crates/aegis-client/src/padding.rs:187-195 | A percentile is one of the values, with at least rank + 1 of them no greater and at least n - rank no smaller |
| Percentiles.PercentileEnds | crates/aegis-client/src/padding.rs:187-195 | The 0th percentile is the least value and the 100th the greatest |
| HardCap.DeferralSeries | crates/aegis-client/src/padding.rs:164-171 | The running backlog loop records at every slot the deferral of the counts so far |
| HardCap.MeanOf | crates/aegis-client/src/padding.rs:157-163 | The mean of the values, zero for none |
| Percentiles.SumSplits | crates/aegis-client/src/padding.rs:158-162 | The sum of two series joined is the sum of their sums |
| Percentiles.MeanIs | crates/aegis-client/src/padding.rs:158-162 | The mean is the one number that times the count is the sum |
| Percentiles.DeferralIs | crates/aegis-client/src/padding.rs:167-170 | The deferral times the cap is the backlog |
| Percentiles.DividedIs | crates/aegis-client/src/padding.rs:122 | The padder's deferral times Q is what is pending; without slots it is infinite, or no number when nothing is pending |
| HardCap.AnalyzeHardCap | crates/aegis-client/src/padding.rs:157-185 | Cap, mean deferral, 99th percentile and stability of the whole series |
| HardCap.LargerCapSmallerBacklog | crates/aegis-client/src/padding.rs:164-171 | A larger cap has a smaller or equal backlog after every slot |
| HardCap.LargerMultipleSmallerP99 | crates/aegis-client/src/padding.rs:157-195 | For positive multiples and any non-negative counts, a larger multiple never has a larger 99th percentile |
| HardCap.MonotoneExactlyWhenPositive | crates/aegis-client/src/padding.rs:164-171 | That holds from a multiple on, for all counts, if and only if the multiple is positive |
| Shaper.BatchAgreesWithPadder | sim/aegis_sim/shaper.py:17-38 | With whole counts and cap Q the batch recurrence gives the incremental padder's backlog and deferral after every round |
| Shaper.InterpolatedMonotone | sim/aegis_sim/shaper.py:17-38 | The interpolated percentile, too, is monotone in the series |
| Percentiles.NoTrafficNotAdequate | sim/aegis_sim/shaper.py:17-51 | Without any traffic no multiple is adequate |
| Percentiles.InterpolatedIs | sim/aegis_sim/shaper.py:34 | The interpolated percentile lies its share of the way from first to last, in proportion between neighbouring order statistics |
| Shaper.MeetsUpward | sim/aegis_sim/shaper.py:41-51 | If a multiple meets the budget, so does every larger one |
| Shaper.MinMultiple | sim/aegis_sim/shaper.py:41-51 | The answer is an adequate multiple of the scan, none a step or more below which is adequate, rounded to a tenth; stepping by whole tenths, the answer itself is such a multiple; none found means none up to a step below the bound |
| Shaper.TenthsStay | sim/aegis_sim/shaper.py:47-51 | Stepping by whole tenths from 1.1, rounding to a tenth changes nothing |
| Nullifiers.NullifierRegistry.constructor | sim/aegis_sim/ac_nullifier_unlinkability.py:58-61 | Nothing is spent |
| Nullifiers.NullifierRegistry.IsSpent | sim/aegis_sim/ac_nullifier_unlinkability.py:63-64 | True exactly for a pair the registry holds |
| Nullifiers.NullifierRegistry.TryRegister | sim/aegis_sim/ac_nullifier_unlinkability.py:66-72 | Newly spent exactly if not held; held afterwards, and nothing else changed |
| Nullifiers.NullifierRegistry.ExportDict | sim/aegis_sim/ac_nullifier_unlinkability.py:80-84 | Lists exactly the pairs held, none twice |
| Nullifiers.NullifierRegistry.MergeBucket | sim/aegis_sim/ac_nullifier_unlinkability.py:86-97 | One epoch's union, with counts of what was new and what was known |
| Nullifiers.NullifierRegistry.Merge | sim/aegis_sim/ac_nullifier_unlinkability.py:86-97 | The union with the other registry, itself included; added and already are the sizes of difference and intersection |
| Nullifiers.NullifierRegistry.ImportBucket | sim/aegis_sim/ac_nullifier_unlinkability.py:99-110 | One list is taken in whole if and only if it repeats nothing; a conflict names an entry listed at least twice |
| Nullifiers.FromExport | sim/aegis_sim/ac_nullifier_unlinkability.py:99-110 | Succeeds if and only if no list repeats an entry, and then holds exactly what was exported; a conflict names an epoch and an entry its list repeats |
| Nullifiers.NullifierRegistry.VerifyAndSpend | sim/aegis_sim/ac_nullifier_unlinkability.py:247-255 | Rejected as a double spend exactly if the registry held the pair |
| Causality.ContentsAreWhatReached | sim/aegis_sim/ac_nullifier_unlinkability.py:57-110 | Over any run of spends, exports and merges, a registry holds a pair if and only if a spend of it has reached that registry |
| Causality.RefusedIffInPast | sim/aegis_sim/ac_nullifier_unlinkability.py:247-255 | A spend is refused if and only if a spend of the same pair is in its causal past |
| Causality.DoubleSpendsAreConcurrent | sim/aegis_sim/ac_nullifier_unlinkability.py:247-255 | Two accepted spends of one pair are causally concurrent and at different registries |
| Causality.SomeSpendAccepted | sim/aegis_sim/ac_nullifier_unlinkability.py:247-255 | Every spend has an accepted spend of its pair at it or in its causal past |
| Causality.PastIsTransitive | sim/aegis_sim/ac_nullifier_unlinkability.py:57-110 | The causal past is transitive |
| Causality.StepRegistries | sim/aegis_sim/ac_nullifier_unlinkability.py:57-110 | One event on real registries changes their contents as the event model says, files included |
| Causality.RunRegistries | sim/aegis_sim/ac_nullifier_unlinkability.py:57-110 | Real registries taken through any events hold what the model says and answer every spend as it is accepted or refused there |
| Median.MedianWithinHonest | sim/aegis_sim/gossip_eclipse.py:55-80 | With fewer than half of the non-empty reports adversarial, the median rate is within any bounds the honest rates respect |
| Median.HonestAreKept | sim/aegis_sim/gossip_eclipse.py:59-66 | Discarding empty reports discards only adversarial ones |
| Median.MedianRobustIffMinority | sim/aegis_sim/gossip_eclipse.py:55-80 | For given numbers of honest and adversarial reports, the median of the non-empty ones stays in the honest range for all reports if and only if the honest ones are more |
| Median.MergeRobust | sim/aegis_sim/gossip_eclipse.py:55-80 | The merge then yields counts with the rounded mean total, failures within one half of the median rate times it, none negative |
| Median.NonEmptyIs | sim/aegis_sim/gossip_eclipse.py:57-64 | Exactly the reports with samples are kept, each as often as reported |
| Median.MiddleIs | sim/aegis_sim/gossip_eclipse.py:67-73 | The median is half-way between the two middle order statistics, which are one for an odd count |
| Median.SampleTotalNearMean | sim/aegis_sim/gossip_eclipse.py:74-75 | The synthetic total is within one half of the mean total |
| Arithmetic.RoundHalfEvenIff | sim/aegis_sim/gossip_eclipse.py:74-76 | Rounding gives the nearest whole number, and of two the even one |
| Gossip.GossipMergeBuffer.constructor | sim/aegis_sim/gossip_eclipse.py:104-106 | Quorum at least one, nothing pending |
| Gossip.GossipMergeBuffer.Ingest | sim/aegis_sim/gossip_eclipse.py:108-124 | The new pending set and the answer: buffered below quorum, else the merge of exactly the pending reports |
| Gossip.CountHonest | sim/aegis_sim/gossip_eclipse.py:120-121 | The number of reporters with non-negative ids |
| Gossip.HonestOrAdversary | sim/aegis_sim/gossip_eclipse.py:120-121 | Honest and adversarial reports together are all |
| Gossip.IngestIsRunStep | sim/aegis_sim/gossip_eclipse.py:108-124 | One report taken in is one step of a run, and is answered as a merge exactly when the pending reports reach the quorum |
| Gossip.QuorumAccounting | sim/aegis_sim/gossip_eclipse.py:101-124 | Every merge has exactly K distinct reporters, all of the run; K times the merges and the pending ones never exceed the reports |
| Gossip.MergesCounted | sim/aegis_sim/gossip_eclipse.py:101-124 | With distinct reporters the merges are exactly the reports div K |
| GossipEpoch.ApplyGossipHalfWeight | sim/aegis_sim/gossip_eclipse.py:83-91 | Each count is halved on its own, rounded down, before it is added |
| GossipEpoch.HalfWeightIs | sim/aegis_sim/gossip_eclipse.py:83-91 | Each window count moves by half its merged count, short of it by less than one sample |
| GossipEpoch.WindowIsHalf | sim/aegis_sim/gossip_eclipse.py:195-199 | Over any merges the window moves by half of all counts merged, short of it by less than one sample a merge |
| GossipEpoch.ReporterLoop | sim/aegis_sim/gossip_eclipse.py:186-211 | The records, the window and the counts of pure and mixed merges are those of the run's batches |
| GossipEpoch.RecordsOfBatches | sim/aegis_sim/gossip_eclipse.py:195-211 | When every batch has a median each has one record, in order, with its reporters, its honest ones and its rate; purely adversarial records are those of batches with no honest report |
| GossipEpoch.HonestReportsAddNoPureMerge | sim/aegis_sim/gossip_eclipse.py:172-211 | Honest reports after the adversarial ones add no purely adversarial merge |
| GossipEpoch.PureMergesExactly | sim/aegis_sim/gossip_eclipse.py:172-211 | With a adversaries first and h honest reporters after them, a div K merges are purely adversarial, of (a+h) div K in all |
| GossipEpoch.EpochRobust | sim/aegis_sim/gossip_eclipse.py:172-211 | In any order, fewer than K/2 adversarial reports, empty or not, leave every merge applied, its median within the honest range and its failures within one half of that rate times the total |
| GossipEpoch.EpochRecords | sim/aegis_sim/gossip_eclipse.py:172-211 | With fewer than K/2 adversarial reports the epoch records every merge, none purely adversarial, each with K reporters, an honest majority and a rate whose failures are within one half of a median in the honest range |
| DiverseGossip.DiverseGossipMergeBuffer.constructor | sim/aegis_sim/gossip_eclipse_defense.py:87-91 | Both quorums at least one, nothing pending |
| DiverseGossip.DiverseGossipMergeBuffer.Ingest | sim/aegis_sim/gossip_eclipse_defense.py:93-117 | Buffered, waiting for diversity or merged, with both dictionaries kept in step |
| DiverseGossip.AppliedIffQuorate | sim/aegis_sim/gossip_eclipse_defense.py:105-117 | A merge is answered if and only if both quorums are there, and waiting for diversity exactly when only the organisations are missing |
| DiverseGossip.IngestIsRunStep | sim/aegis_sim/gossip_eclipse_defense.py:93-117 | One report taken in is one step of a run: the same pending reports, and a merge exactly when the run has that batch more |
| DiverseGossip.IngestAll | sim/aegis_sim/gossip_eclipse_defense.py:84-117 | The buffer, given a whole run, ends with what is pending there and answers exactly its merges |
| DiverseGossip.MergesAreQuorate | sim/aegis_sim/gossip_eclipse_defense.py:84-117 | Every merge has at least K distinct reporters from at least the required number of organisations |
| DiverseGossip.DiverseQuorumAccounting | sim/aegis_sim/gossip_eclipse_defense.py:84-117 | K times the merges and the pending reports never exceed the reports taken in |
| DiverseGossip.ColludersNeverMergeAlone | sim/aegis_sim/gossip_eclipse_defense.py:84-117 | With two or more organisations required, adversaries of one organisation never make up a merge, in any order of reports |
| DiverseGossip.OneOrgNeverMerges | sim/aegis_sim/gossip_eclipse_defense.py:84-117 | Reporters all of one organisation never cause a merge |
| DiverseGossip.AssignOrgIds | sim/aegis_sim/gossip_eclipse_defense.py:47-81 | Exactly the reporters of both kinds get an organisation: dealt out under collusion, drawn otherwise |
| DiverseGossip.OrgFor | sim/aegis_sim/gossip_eclipse_defense.py:47-81 | Under collusion organisation 0 holds the adversaries and no one else; with two organisations or more every number is in range, drawn or dealt |
| DiverseGossip.HonestOrg | sim/aegis_sim/gossip_eclipse_defense.py:68-75 | An honest reporter's organisation is never 0 and is in range when there are two or more |
| DiverseGossip.HonestOrgsSpread | sim/aegis_sim/gossip_eclipse_defense.py:68-75 | Every organisation but 0 gets its honest reporter in turn |
| DiverseGossip.SameHonestOrgIff | sim/aegis_sim/gossip_eclipse_defense.py:68-75 | Two honest reporters share an organisation if and only if their ids are whole rounds apart |
| DiverseGossip.EveryReporterDraws | sim/aegis_sim/gossip_eclipse_defense.py:76-80 | Without collusion each reporter gets a draw of its own, adversaries first |
| RateLimit.TokenBucket.Allow | sim/aegis_sim/metrics_sidechannel.py:71-80 | The refill, capped at the burst, the answer and the tokens left; no rate lets everything through |
| RateLimit.TryAdmit | sim/aegis_sim/metrics_sidechannel.py:103-122 | Accepted plus dropped is offered; both buckets end as after asking cell by cell, the local one first |
| RateLimit.AdmitsWhatItHolds | sim/aegis_sim/metrics_sidechannel.py:71-80 | A bucket alone admits exactly as many cells as it has whole tokens for after refilling, and pays one for each |
| RateLimit.BucketsInTandem | sim/aegis_sim/metrics_sidechannel.py:103-122 | The local bucket pays as if alone, also for cells the shared one refuses; the shared one is asked exactly for the cells the local one lets through |
| RateLimit.TokenBucket.constructor | sim/aegis_sim/metrics_sidechannel.py:64-69 | A bucket starts with the given rate, burst, tokens and time |
| RateLimit.AllowedWithin | sim/aegis_sim/metrics_sidechannel.py:71-80 | One call at a time not before the last keeps the account of what was let through since any earlier time |
| RateLimit.AlwaysAccounted | sim/aegis_sim/metrics_sidechannel.py:103-122 | The accounts of every connection's bucket and the shared one hold over any run of ordered times |
| RateLimit.StaysSettled | sim/aegis_sim/metrics_sidechannel.py:64-122 | Over any run of ordered times every bucket stays between empty and its burst, and so may start a window |
| RateLimit.CountsShift | sim/aegis_sim/metrics_sidechannel.py:103-122 | What a run accepts does not depend on the counts it starts with, which are only added |
| RateLimit.RateLimited | sim/aegis_sim/metrics_sidechannel.py:64-122 | Over any window of a run at ordered times, whatever came before it, the window adds to a connection's cells at most its burst plus rate times the window, and to all cells together at most the shared burst plus shared rate times the window |
| RateLimit.WindowStarts | sim/aegis_sim/metrics_sidechannel.py:64-80 | Any bucket filled no higher than its burst may start such a window |
| RateLimit.BackwardClockOverAdmits | sim/aegis_sim/metrics_sidechannel.py:71-80 | A run on a backward clock that exceeds the bound |
| RateLimit.RefillHonestIffClockForward | sim/aegis_sim/metrics_sidechannel.py:71-80 | For any two calls, the second no earlier than the bucket's last time, spent plus left is at most what was there plus what flowed in, if and only if the first does not go back, or finds the bucket full and asks for more than its burst |
| Link.WriteHello | crates/aegis-crypto/src/link.rs:255-294 | The 48 bytes are the public key followed by the nonce |
| Link.ParseIffWritten | crates/aegis-crypto/src/link.rs:269-308 | A message parses to a hello if and only if it is that hello's encoding |
| Link.MacInputInjective | crates/aegis-crypto/src/link.rs:187-226 | Two MAC inputs are equal if and only if key, role, transcript and binding are, across the three shapes of binding |
| Link.EqualMacsIff | crates/aegis-crypto/src/link.rs:203-237 | Two MACs are equal if and only if role and beliefs are, or the hash collides on the named inputs |
| Link.ResponderAcceptsIff | crates/aegis-crypto/src/link.rs:397-411 | A responder accepts an initiator's MAC if and only if they share pre-shared key, transcript and binding, collisions aside |
| Link.NoReflection | crates/aegis-crypto/src/link.rs:377-394 | An initiator-role MAC passes as the responder's if and only if the hash collides across roles |
| Link.InitiatorKeysEqualIff | crates/aegis-crypto/src/link.rs:239-252 | The keys of two finished initiators are equal if and only if Diffie-Hellman value and transcript are, or the hash collides on their two key inputs |
| Link.ResponderKeysEqualIff | crates/aegis-crypto/src/link.rs:239-252 | Likewise for two responders that accept |
| Link.FinishComplains | crates/aegis-crypto/src/link.rs:353-411 | Wrong lengths are malformed, in the order they are read; any other failure is of integrity |
| Link.HonestHandshakeAgrees | crates/aegis-crypto/src/link.rs:363-411 | An undisturbed handshake with one key and binding finishes at both ends with one session key |
| Link.AcceptanceMeansSameKey | crates/aegis-crypto/src/link.rs:363-411 | Whatever happened to the messages, if both ends finish they share beliefs and session key, or the hash collides on the named inputs |
| Guards.MitigatedDirtyEpochs | sim/aegis_sim/fused_defense.py:73-114 | Records every epoch's dirtiness over the shared stream, for at least one epoch |
| Guards.RunMitigatedTrial | sim/aegis_sim/adversaries.py:275-313 | True if and only if some epoch is dirty, although it stops at the first |
| Guards.GuardDraws | sim/aegis_sim/fused_defense.py:95 | True exactly when one of the g draws is below the exposure |
| Guards.TrialAgainstRecord | sim/aegis_sim/fused_defense.py:73-114 | On one stream the trial's answer is "some recorded epoch is dirty" if and only if at least one epoch was asked for or none of the first g draws is below c |
| Guards.DisagreeOnNoEpochs | sim/aegis_sim/adversaries.py:275-313 | A stream and exposure for which, with no epochs asked for, the record is dirty and the trial answers no |
| Guards.Adjust | sim/aegis_sim/fused_defense.py:101-113 | The tail of an epoch: rotation and demotion on any signal, never below the floor, then linger or drift |
| Guards.AnyBelowIff | sim/aegis_sim/fused_defense.py:95 | An epoch is dirty if and only if one of its guard draws is below the exposure |
| Guards.EpochReads | sim/aegis_sim/fused_defense.py:93-104 | How far an epoch reads the stream, and that it rotates if and only if it is dirty, a signal draw says so or the hard cap is reached |
| Guards.RotationDemotes | sim/aegis_sim/fused_defense.py:101-113 | A rotation resets the counters and lowers the exposure to the floor or at most the decayed one, with both further factors where they apply |
| Guards.NoRotationDrifts | sim/aegis_sim/fused_defense.py:110-113 | Without a rotation the exposure only drifts, and only when no demotion lingers |
| Guards.StickyBounded | sim/aegis_sim/fused_defense.py:92-103 | No guard set is kept for as many epochs as the hard cap |
| Guards.ExposureInRange | sim/aegis_sim/fused_defense.py:73-114 | With factors at most one the exposure stays between the floor and its start in every epoch |
| Guards.MitigationNeverExposesMore | sim/aegis_sim/fused_defense.py:73-123 | A dirty epoch under mitigation would be dirty without it on the same guard draws |

## Left out

- X25519, ML-KEM-768, SHA3-256 and ChaCha20-Poly1305 themselves: they are foreign primitives; hash, KEM and Diffie-Hellman are arbitrary functions, and sealing of cells under the link key is not modelled.
- Build: the encapsulations and the random bytes are arguments; the KEM header is one block of 1120 bytes, its inner layout is not part of this model.
- Mix.Process: decapsulation is a function of the header; the case that the stored KEM header does not parse is one of its errors.
- CtContains, VerifyMac: that they run in constant time is not a property of results and is not modelled.
- CheckAndInsert: the fill threshold is any number instead of a capacity times an f64 ratio, so the rounding of that product is not modelled.
- The one-shot emitter loop, `process_cell`, and the length and statistics accessors: easy members.
- Cells are drawn with arbitrary random bytes given as arguments; the generators are not modelled.
- TCP transport, tokio's scheduling and the interval timer: the driver's select branches are atomic steps in any order, times are numbers, and a send either succeeds or fails.
- EnqueueFragments: the method runs without the driver in between; the sending of single cells between driver steps is in `SessionRuns`.
- Configuration: validation of rho, the clamp of Q, TOML and command line handling.
- Floating point: f64 and Python floats are reals, so rounding errors, overflow and NaN inputs are not modelled, except division by zero in `Padding` and the missing traffic case in `Shaper`.
- Counters of 64 bits (ticks, rounds, drops) are unbounded numbers; the 32-bit generation does wrap. A stream counter is below 2^64, which no buffer here reaches.
- PercentileOf: sorting is a function (insertion sort) instead of the library's in-place sort; only its sorted permutation matters.
- MinMultiple: with a step that is not of whole tenths the rounded answer may lie below the multiple found; then the contract speaks of the multiple before rounding.
- ExportDict, FromExport: hexadecimal text and the order of lists are not modelled, so which of several conflicts is reported is left open.
- VerifyAndSpend: the check of the credential's proof is not modelled.
- AssignOrgIds: the numbers drawn are an argument; nothing is said about their distribution.
- Decode: its own contract only bounds the index; which cells decode, and to what, is stated by `Fragments.DecodeIffAssembled`.
- StartWithTransport: the configuration is taken as valid, with room for at least one cell, which a bounded channel needs.
- ReporterLoop: the noise added to reports and the shuffled order are arguments, since any list of reports is taken.
- Link handshake drivers and timeouts, and the identity resolution before a binding is made: not part of this model.
- MitigatedDirtyEpochs: how parameters default when they are missing from the mapping is not modelled; a stream is a finite sequence long enough for the run.
- Monte Carlo profiles, sweeps, reports and statistics: not decidable by proof.
- Topology, roster, `node.rs`, `net.rs` and `cover_flow.rs`: not part of this model.
