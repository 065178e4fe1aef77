# Verification of the AF_XDP packet library

This project models the core of the AF_XDP library in Dafny and proves properties of the model for
all inputs, all runs and all interleavings. `dafny verify dfyconfig.toml` checks everything.

## What is modelled

**Frame circulation.** `Rings` is the single-producer single-consumer ring over wrapping 32-bit cursors and
its refinement of an unbounded FIFO, as pure steps; `RingObjects` is the same protocol as the objects of
`src/device.rs` and `src/socket.rs`. `Umem` is the free-list allocator. `Kernel` is the other participant: a
class whose `Run` makes any number of moves chosen nondeterministically. Its assumptions are written down as
its moves: it takes a published TX descriptor, later posts a completion with the same address, in any order;
it takes a published fill address, may write into that frame only, and delivers a descriptor that lies inside
that same frame, at any offset. A cooperative kernel moreover ends its activity with every published TX
descriptor taken and as many completions posted as there is room for. `TxModel`/`TxProgress`/`TxLoop`,
`ReceivePath`/`RxLoop` and `RelayModel`/`RelaySteps`/`RelayLoop` are the three loops, with the kernel allowed to
act before every synchronisation and every commit, which are the only points where the two sides see each
other. A run of `RelaySession` starts at the pre-fill's synchronisation; `Socket.Relay` puts kernel activity
before it. `Socket` opens sockets, with fill-ring prepopulation, and starts the three loops from there.
`FrameFit` is about packets longer than their frame.

**Packet pool.** `PacketPool` has the lock-free bitmap twice: as a machine over interleaved atomic steps of
any number of threads, and as the object one thread sees.

**Shred reassembly.** `DeshredModel` and `DeshredSimple` are the boundary-list and the status-array tracker as
values over whole runs, `DeshredOrder` what arrival order has to do with it, `Deshred` the two trackers as
objects. Decoding a segment is a parameter.

**Wire formats and routes.** `Packet` (checksums, header writers), `Netlink`, `NetlinkMessages` and `NetlinkStale`
(attributes, messages, the receive loop, bytes behind a datagram), `Route` (prefix match and lookup). `Bits`
has bitwise operations on naturals defined bit by bit, `Words` the machine-word types, `Frames` the arithmetic of frames.

## What was found

- A dropped packet does not count towards a chunk, so written descriptors can stay unpublished across batches.
  `TxModel.LeftoverExact` gives the exact number one batch leaves. `TxProgress` computes from the configuration
  and the events how many a whole run leaves (`RunLeftover`) and how many slots and frames it needs (`RunPeak`).
  The loop gets past every wait only if the peak fits ring and pool, and the final drain, which never commits,
  ends only if the leftover is zero; with a cooperative kernel and enough polls these conditions are exact
  (`TxLoop.TxSession.Serve`). `TxProgress.StallingRun` is a one-item run that never finishes,
  `TxProgress.DropsAccumulate` a family that needs ever more slots and frames. If nothing more
  arrives, it takes 501 empty polls in a row to publish what was left (`TxProgress.QuietPublishes`, `QuietNeeded`).
- A payload that does not fit its frame is not refused. Exactly the packets longer than a frame reach into the
  next one (`FrameFit.StaysInFrameIff`), and `FrameFit.OverflowRun` overwrites a queued packet. The model of the
  loop stops at such a payload.
- The relay's pre-fill drops a reserved frame when the fill ring is full. `RelayLoop.RelaySession.Prefill` states
  exactly when, from the state at its synchronisation. Over a new socket it takes prepopulation, frames left
  over, and a kernel that has not yet released as many fill slots (`Socket.Relay`).
- The relay never releases completions, so over a whole run at most a completion ring of transmitted frames
  comes back; and a run without wanted packets never releases an RX slot, so at most an RX ring of packets is
  delivered (`RelayLoop.RelaySession.Run`).
- After a full batch of 32 wanted packets the relay's counter is zero, so unwanted packets behind it are not released
  and the refill is not published at the end of the pass (`RelaySteps.FullBatchHoldsBack`); `Round` says exactly which slots
  are released.
- The boundary-list tracker takes tracked ends in arrival order. `DeshredModel.OutOfOrderGoesWrong` is a run of
  three shreds that emits a segment with an end marker inside it and then panics. The exact conditions of
  one attempt are `WellFormedIffFrontIsLeast` and `PanicIffBehind`, that of a run with everything received is
  in-order arrival (`DeshredOrder.GoodIffInOrder`).
- The status-array tracker clears the statuses of an emitted segment to Unknown, which later reads as a gap. It
  emits at most as often as data index zero arrives (`DeshredSimple.SimpleEmissionsBounded`): a second segment is
  lost (`SecondSegmentLost`) and a repeated first one is emitted again (`RepeatEmittedAgain`). The trackers agree
  on a whole run exactly when neither emits more than once (`TrackersAgreeIff`).
- The UDP checksum is not replaced by all ones when it comes out as zero; RFC 768 asks for that.
  `Packet.UdpChecksumZeroIff` says exactly when, `Packet.ZeroChecksumSent` is an input.
- A netlink message that is a bare header in the last 16 bytes of the buffer is refused although it is complete
  (`NetlinkMessages.BareEndRefused`); every other message is read back (`NetlinkMessages.ReadsBack`).
- A netlink message is checked against the buffer and not against the datagram, so a datagram shorter than its
  header says is delivered with bytes of an earlier one (`NetlinkStale.StaleDelivered`), exactly when the claimed
  length passes its end (`NetlinkStale.DeliveredInsideIff`).
- An IPv6 prefix longer than 128 makes the match panic, unless it is below 144 and the addresses differ
  (`Route.Ipv6MatchIff`).

## Model

| member | source | states |
|---|---|---|
| Rings.SlotOfPosition | src/device.rs:360-364 | for a power-of-two ring, masking the wrapped cursor gives the unbounded position modulo the size |
| Rings.RoomRefines | src/device.rs:286-334 | the producer's free space, computed with wrapping and saturating subtraction, is the true free space |
| Rings.WriteRefines | src/device.rs:395-407 | a write succeeds exactly when there is room, appends one value, and overwrites no value that is not yet released |
| Rings.ReadRefines | src/socket.rs:429-433 | a read returns the next visible value of the unbounded log, or nothing exactly when none is visible |
| Rings.StepRefines | src/device.rs:243-334 | every operation of either end keeps the refinement and returns what the FIFO returns |
| Rings.RunRefines | src/device.rs:243-334 | every interleaving of both ends' operations, across any number of wrap-arounds, returns what the unbounded FIFO returns |
| Rings.FifoHistory | src/device.rs:243-334 | over every run the FIFO's log is the accepted writes, its head the committed ones, its read part the values returned, its tail those returned before the last consumer commit |
| Rings.IdleRingIsFifo | src/device.rs:243-334 | from any starting cursor: values released are a prefix of values read, those of values committed, those of values accepted, with at most `size` accepted values not yet released |
| RingObjects.RingProducer.constructor | src/device.rs:294-303 | a producer starts from the shared cursors and its view is the true one |
| RingObjects.RingProducer.Available | src/device.rs:305-309 | the count returned is the true number of free slots in the producer's view |
| RingObjects.RingProducer.Produce | src/device.rs:311-320 | returns the wrapped next position exactly when there is room |
| RingObjects.RingProducer.Commit | src/device.rs:322-325 | publishes everything written, and only that changes |
| RingObjects.RingProducer.Sync | src/device.rs:327-333 | refreshes the view of the consumer, publishing first if asked |
| RingObjects.RingConsumer.Available | src/device.rs:260-262 | the count returned is the number of visible unread values |
| RingObjects.RingConsumer.Consume | src/device.rs:264-272 | returns the wrapped read position exactly when a value is visible, and advances it |
| RingObjects.RingConsumer.Commit | src/device.rs:274-276 | releases everything read, and only that changes |
| RingObjects.RingConsumer.Sync | src/device.rs:278-283 | refreshes the view of the producer, releasing first if asked |
| RingObjects.TxRing.Write | src/socket.rs:342-356 | appends the descriptor exactly when there is room, otherwise changes nothing |
| RingObjects.RxFillRing.Write | src/device.rs:395-407 | appends the frame's offset exactly when there is room, otherwise changes nothing |
| RingObjects.RxRing.Read | src/socket.rs:429-433 | returns the next visible descriptor and takes it, None exactly when there is none |
| RingObjects.TxCompletionRing.Read | src/device.rs:360-364 | returns the next visible completion and takes it, None exactly when there is none |
| Frames.FrameStart | src/umem.rs:124-132 | the offset handed out for a frame divides back to that frame |
| Frames.RangeInFrame | src/umem.rs:124-137 | a range that stays in one frame lies inside the buffer and every byte of it divides to that frame |
| Frames.FramesDisjoint | src/umem.rs:85-94 | byte ranges of different frames never overlap |
| Umem.SliceUmem.constructor | src/umem.rs:85-94 | every whole frame of the buffer is free, once |
| Umem.SliceUmem.Reserve | src/umem.rs:124-132 | pops the last free frame, aligned, and None exactly when the list is empty |
| Umem.SliceUmem.Release | src/umem.rs:134-137 | pushes the frame an offset falls in, aligned or not |
| Umem.AllFramesOnce | src/umem.rs:85-94 | the initial free list holds every frame of the buffer exactly once and nothing else |
| Umem.AllocationFits | src/umem.rs:159-169 | the masked rounding is the least multiple of the page size that holds every frame |
| Socket.Prepopulate | src/socket.rs:176-186 | succeeds exactly when there are enough frames; moves exactly one frame per slot and loses none, and publishes only on success |
| Socket.OpenPath | src/socket.rs:165-186 | a new socket, prepopulated or not, starts with every frame of the buffer free or in the fill ring, once; it fails exactly when prepopulation lacks frames |
| Socket.Receive | src/rx_loop.rs:60-147 | from the allocator on, any number of rounds of the receive loop keeps every frame of the buffer in exactly one place, counts exactly the packets taken, and has counted everything published when the last round began |
| Socket.Relay | src/relay_loop.rs:60-404 | from the allocator on, with the kernel active from the bind on, a relay run keeps every frame except at most one; one is lost exactly when the socket is prepopulated and the kernel had released fewer fill slots at the pre-fill's synchronisation than there are frames to add; up to a TX ring of wanted packets, every one is forwarded |
| Socket.Transmit | src/tx_loop.rs:80-316 | from the allocator on: with a cooperative kernel and enough polls the transmit loop finishes if and only if no address panics, no payload overruns its frame, the run's peak fits ring and pool, and its leftover is zero |
| Kernel.TakeEvolves | src/tx_loop.rs:142-316 | the kernel taking a TX descriptor moves its frame and no other |
| Kernel.CompleteEvolves | src/tx_loop.rs:177-198 | posting a completion, in any order, moves that descriptor's frame and no other |
| Kernel.IntactUnderWrites | src/relay_loop.rs:226-382 | writing into frames the kernel was given leaves every received and unread packet intact |
| TxModel.ExactlyOnePlace | src/tx_loop.rs:142-316 | every pool frame is in exactly one of: free list, loop, TX ring uncommitted, TX ring committed, kernel, completion ring; and inside the buffer |
| TxModel.SentPacket | src/tx_loop.rs:203-289 | a sent packet, byte by byte: own MAC, address and port as source, the fixed MAC or that of a next hop on the own interface and the job's address and port as destination, the job's payload, a valid IPv4 checksum |
| TxModel.FateIff | src/tx_loop.rs:203-247 | exactly which jobs are sent, are dropped, stop the loop by a panic, or overrun their frame |
| TxModel.InvRelease | src/tx_loop.rs:184-187 | taking a completion back keeps the ownership law |
| TxModel.InvKernel | src/tx_loop.rs:142-316 | any kernel activity keeps the ownership law and the bytes of live packets |
| TxModel.LeftoverExact | src/tx_loop.rs:173-289 | exactly how many descriptors a batch leaves uncommitted, for every pattern of sends and drops |
| TxModel.NoDropsNoLeftover | src/tx_loop.rs:207-289 | without drops a batch leaves nothing uncommitted |
| TxProgress.DropsAccumulate | src/tx_loop.rs:142-296 | n batches of one send and one drop leave n descriptors unpublished and need n + 1 slots and frames |
| TxProgress.PendingWaits | src/tx_loop.rs:142-175 | fewer than 64 packets ever wait, and only while no poll has come up empty |
| TxProgress.QuietPublishes | src/tx_loop.rs:152-162 | after any events 501 empty polls in a row leave nothing unpublished |
| TxProgress.QuietNeeded | src/tx_loop.rs:152-162 | a half-dropped item stays unpublished through 500 empty polls and not through 501 |
| TxProgress.StallingRun | src/tx_loop.rs:203-239 | one item to a neighbour and to an address without MAC leaves one descriptor unpublished, so that run can never be finished |
| TxProgress.FixedMacRun | src/tx_loop.rs:142-296 | with a fixed MAC every run over IPv4 addresses and fitting payloads needs at most 64 slots and frames, leaves nothing unpublished and stops nowhere |
| TxProgress.DrainedPeak | src/tx_loop.rs:173-289 | wherever a batch stops, the unpublished descriptors there are below the peak computed from configuration and events |
| TxProgress.BatchDrains | src/tx_loop.rs:173-289 | a finished batch leaves exactly the unpublished descriptors computed from configuration and events |
| FrameFit.StaysInFrameIff | src/tx_loop.rs:244-271 | a packet at a frame's start changes only that frame, in every buffer that holds it, if and only if it is no longer than the frame |
| FrameFit.SendKeepsIff | src/tx_loop.rs:244-277 | sending keeps ownership and integrity if and only if the packet fits its frame |
| FrameFit.NeighbourOverwritten | src/tx_loop.rs:247-271 | a longer packet overwrites a live packet in the next frame |
| FrameFit.OverflowRun | src/tx_loop.rs:247-271 | a concrete state and packet for which that happens |
| TxModel.AdvanceAllCounts | src/tx_loop.rs:139-296 | fates are recorded in order, the packet counter is the work left, and the chunk counter is positive while there is work |
| TxModel.AdvanceAllLeftover | src/tx_loop.rs:173-289 | the counters' uncommitted descriptors are those of the closed form |
| TxModel.AllSentWithFixedMac | src/tx_loop.rs:207-208 | with a fixed destination MAC every IPv4 job is sent |
| TxModel.BatchExtends | src/tx_loop.rs:175-296 | a finished batch appends exactly its jobs' fates, in order |
| TxModel.BatchCut | src/tx_loop.rs:175-296 | a batch cut short leaves a proper prefix of the run's fates |
| TxLoop.TxSession.constructor | src/tx_loop.rs:101-114 | a session over a new socket satisfies the whole-run invariant |
| TxLoop.TxSession.TakeCompletion | src/tx_loop.rs:185-187 | one visible completion returns to the free list, keeping the invariant |
| TxLoop.TxSession.ReleaseCompleted | src/tx_loop.rs:185-187 | no visible completion is left |
| TxLoop.TxSession.WaitForSpace | src/tx_loop.rs:177-198 | ends only if unpublished work is below the ring size and the pool size; then a cooperative kernel makes it end at the second poll at the latest |
| TxLoop.TxSession.EnsureSpace | src/tx_loop.rs:177-198 | a wait is for frames or slots the kernel has been given, whenever unpublished work fills neither |
| TxLoop.TxSession.Dispatch | src/tx_loop.rs:202-289 | the job gets its fate: its packet built in its frame and queued with every other live packet intact, a drop, a stop exactly for IPv6, a missing route or a payload that overruns the frame; the ring write cannot fail |
| TxLoop.TxSession.ProcessJob | src/tx_loop.rs:177-289 | with the wait: the reserve cannot fail and the job gets exactly one fate; it is reached past the wait exactly when unpublished work is below the limit, given a cooperative kernel |
| TxLoop.TxSession.DrainItem | src/tx_loop.rs:175-291 | the addresses of an item are processed in order, with the counters of the specification and their peak below the limit |
| TxLoop.TxSession.DrainBatch | src/tx_loop.rs:173-294 | the whole batch follows the specification; items are handed back in order; only unpublished work at the limit stops it under a cooperative kernel |
| TxLoop.TxSession.DrainWaiting | src/tx_loop.rs:173-295 | a batch is one step of the run: its fates, leftover and peak are those computed from configuration and events |
| TxLoop.TxSession.Run | src/tx_loop.rs:142-296 | every address yields exactly one packet or one drop, in order, up to the first that stops the loop; both zero-assertions hold; the descriptors left unpublished are exactly `RunLeftover`; it ends only if `RunPeak` fits ring and pool, and then every wait is for published work and a cooperative kernel lets it end |
| TxLoop.TxSession.DrainedMeansHome | src/tx_loop.rs:298-299 | the drain condition means the free list is a permutation of the initial one and both rings and the kernel are empty |
| TxLoop.TxSession.DrainRing | src/tx_loop.rs:298-315 | the drain ends only if nothing was unpublished, with every frame home; and then it does end with a cooperative kernel |
| TxLoop.TxSession.Serve | src/tx_loop.rs:105-316 | from first event to last drain: finishing means all fates assigned in order and every frame free; with a cooperative kernel and enough polls it happens if and only if the run can be finished |
| ReceivePath.RxPath.KernelActs | src/relay_loop.rs:206-404 | kernel activity on the receive side keeps every frame accounted for and touches nothing the loop owns |
| ReceivePath.RxPath.ReadyIsAccounted | src/socket.rs:165-186 | a newly opened receive side with an idle transmit side satisfies the whole-run invariant |
| ReceivePath.RxPath.Receive | src/relay_loop.rs:226-228 | takes the next received packet in hand with its bytes intact |
| ReceivePath.RxPath.Offer | src/relay_loop.rs:243-246 | gives the frame in hand to the fill ring exactly when it has room, else keeps it in hand |
| ReceivePath.RxPath.Recycle | src/relay_loop.rs:241-248 | the frame goes to the fill ring when there is room and otherwise to the free list |
| ReceivePath.RxPath.Rewrite | src/relay_loop.rs:327-352 | header rewriting in place yields the rewritten packet and disturbs no other packet |
| ReceivePath.RxPath.Refill | src/relay_loop.rs:385-395 | ends with the fill ring full or the free list empty, no frame lost; its release branch is unreachable |
| RxLoop.ReceiveConserves | src/rx_loop.rs:96-147 | every pool frame is free, filled, with the kernel or received, exactly once |
| RxLoop.DrainReceived | src/rx_loop.rs:119-128 | takes every visible packet and counts exactly their number and bytes |
| RxLoop.ReceiveRound | src/rx_loop.rs:110-147 | one round keeps every frame, takes everything published before it, in order, releases all its slots, and leaves the fill ring published and full, or no frame free |
| RxLoop.ReceiveLoop | src/rx_loop.rs:96-147 | over any number of rounds frames are conserved, the statistics are exactly the packets taken, and those include everything published when the last round began |
| RelayModel.InvInitial | src/socket.rs:165-186 | the ownership law over both directions holds of a new socket, with the fill ring empty or prepopulated |
| RelayModel.InvForward | src/relay_loop.rs:354-362 | queueing the packet in hand keeps the ownership law over both directions |
| RelayModel.InvRewrite | src/relay_loop.rs:327-352 | rewriting the packet in hand changes no other packet |
| RelayModel.InvRxKernel | src/relay_loop.rs:206-404 | kernel writes cannot reach a frame in hand or queued for transmission |
| RelayModel.TracedForward | src/relay_loop.rs:327-362 | each transmitted packet is the rewritten form of a wanted received packet, in receive order |
| RelayModel.WantedIff | src/relay_loop.rs:240-268 | the filter passes exactly the packets of at least 442 bytes with protocol 17; of UDP packets, those with a payload of at least 400 bytes |
| RelaySteps.BatchCounts | src/relay_loop.rs:372-381 | the batch counter is the number of wanted packets modulo 32 |
| RelaySteps.PacketsPlaced | src/relay_loop.rs:226-382 | the frames of the packets handled, and no others, go to TX ring, fill ring or free list, each once, and nothing already there moves |
| RelaySteps.UnwantedNotReleased | src/relay_loop.rs:226-403 | packets that pass no filter neither count towards a batch nor release their RX slots |
| RelaySteps.ForwardsWhileRoom | src/relay_loop.rs:226-382 | exactly the first wanted packets, as many as the TX ring has room for, are queued, in order and each in its own frame |
| RelaySteps.LastCommit | src/relay_loop.rs:371-403 | what is published and released whenever the batch counter is zero: all up to the last wanted packet, and nothing after it |
| RelaySteps.FullBatchHoldsBack | src/relay_loop.rs:371-403 | 32 wanted packets and an unwanted one: the pass ends without a commit and one slot stays unreleased |
| RelayLoop.RelaySession.TakeCompletion | src/relay_loop.rs:221-223 | a visible completion returns its frame to the free list |
| RelayLoop.RelaySession.Queue | src/relay_loop.rs:354-362 | the rewritten packet is queued in its own frame exactly when the TX ring has room |
| RelayLoop.RelaySession.HandlePacket | src/relay_loop.rs:226-369 | forwarded in place exactly when wanted, configured and with TX room; otherwise its frame is recycled |
| RelayLoop.RelaySession.CommitAll | src/relay_loop.rs:373-381 | everything read and written is published |
| RelayLoop.RelaySession.HandleNext | src/relay_loop.rs:226-382 | one packet follows the pure step, with a commit at every 32nd wanted packet |
| RelayLoop.RelaySession.ProcessReceived | src/relay_loop.rs:226-382 | all visible packets are handled, the loop's state is the fold of the pure step over them, and the packets forwarded are those of the fold |
| RelayLoop.RelaySession.SyncAll | src/relay_loop.rs:207-211 | the view of all four rings is at least what the kernel had done before, and nothing else changes |
| RelayLoop.RelaySession.FinishRound | src/relay_loop.rs:384-403 | the fill ring is full or no frame free; everything is published exactly if a batch had been started, and otherwise nothing is |
| RelayLoop.RelaySession.Round | src/relay_loop.rs:206-404 | one pass handles every packet and takes back every completion published before it, forwards exactly the first wanted packets the TX ring has room for, and publishes all it queued; its fill entries and RX slots too, unless the number of wanted packets is a multiple of 32, when slots are released exactly up to the last wanted packet |
| RelayLoop.RelaySession.Prefill | src/relay_loop.rs:156-172 | as many frames as fit are added and published; at most one frame is lost, and one is exactly when the fill ring has fewer free slots than frames to add |
| RelayLoop.RelaySession.Run | src/relay_loop.rs:156-404 | over any number of passes no frame is duplicated, at most one is lost, by the pre-fill, only rewritten wanted packets are transmitted, in order; no completion is ever released, so at most a completion ring of frames comes back; and without wanted packets no RX slot is ever released, so at most an RX ring of packets is delivered; up to the free slots of the TX ring, every wanted packet is forwarded |
| PacketPool.ClaimKeeps | examples/packet_pool.rs:130-147 | a successful exchange gives the packet its only reference, however stale the load was |
| PacketPool.ReleaseKeeps | examples/packet_pool.rs:156-160 | a release frees exactly that packet and removes its only reference |
| PacketPool.StepKeeps | examples/packet_pool.rs:110-160 | every atomic step of every thread keeps ownership |
| PacketPool.ExchangeClaims | examples/packet_pool.rs:130-148 | an exchange that finds the loaded word claims its lowest free packet; a stale or spurious one changes nothing |
| PacketPool.ReleaseFrees | examples/packet_pool.rs:156-160 | a release makes exactly its packet free |
| PacketPool.NoDoubleOwner | examples/packet_pool.rs:67-160 | in every interleaving of any number of threads no packet has two owners and a bit is set exactly when nobody holds the packet |
| PacketPool.FreePlusHeld | examples/packet_pool.rs:84-160 | free plus held packets are always the pool size |
| PacketPool.PassedWordWasZero | examples/packet_pool.rs:110-149 | in every interleaving a word a search has passed was zero at some moment of that search |
| PacketPool.ExhaustedSawAllZero | examples/packet_pool.rs:110-152 | in every interleaving a search that ends without a claim saw each word of the pool zero at some moment since it began |
| PacketPool.SoloAcquires | examples/packet_pool.rs:110-152 | in any state a search that runs alone takes the lowest free packet of the first nonempty word, and moves the hint past it |
| PacketPool.SoloExhausts | examples/packet_pool.rs:110-152 | over an empty pool it ends with nothing and nothing changed |
| PacketPool.SameClaim | examples/packet_pool.rs:110-152 | so machine and object take the same packet and leave the same packets free |
| PacketPool.FreeBitmap.constructor | examples/packet_pool.rs:84-106 | every packet of a new pool is free |
| PacketPool.FreeBitmap.Acquire | examples/packet_pool.rs:110-152 | takes the lowest free packet of the first nonempty word in circular order, None exactly when nothing is free |
| PacketPool.FreeBitmap.Release | examples/packet_pool.rs:156-160 | frees exactly that packet |
| DeshredModel.StepKeepsInv | examples/deshred_sharded.rs:42-121 | every arrival keeps the tracker's invariant; an emission starts where the last one ended |
| DeshredModel.SegmentsTile | examples/deshred_sharded.rs:42-121 | on every run, in any order, emitted segments tile a prefix of the indices: contiguous, none emitted twice |
| DeshredModel.EmittedOutput | examples/deshred_sharded.rs:76-121 | every output of every run is decoded from the payloads first received at the indices of its segment, in index order |
| DeshredOrder.RepeatChangesNothing | examples/deshred_sharded.rs:42-58 | on any run a repeated index, or one of 512 or more, changes nothing and returns nothing |
| DeshredModel.WellFormedIffFrontIsLeast | examples/deshred_sharded.rs:82-95 | the next segment has its only end marker at its end if and only if no tracked end is below the first tracked one |
| DeshredModel.PanicIffBehind | examples/deshred_sharded.rs:82-98 | the slice panics if and only if the first tracked end is behind |
| DeshredModel.OrderedRunIsGood | examples/deshred_sharded.rs:42-121 | if new end markers arrive in index order, no step of any run panics and every emitted segment has exactly one end marker, at its end |
| DeshredModel.OutOfOrderGoesWrong | examples/deshred_sharded.rs:59-121 | a run with end markers out of order that emits a wrong segment and then panics |
| DeshredOrder.InOrderIffSorted | examples/deshred_sharded.rs:42-121 | over every run, new end markers arrived in order if and only if the tracked ends are increasing and none is behind |
| DeshredOrder.GoodIffInOrder | examples/deshred_sharded.rs:42-121 | with everything up to the tracked ends received and decodable: every step and every further attempt is good if and only if new end markers arrived in order |
| DeshredOrder.InOrderEmitsAll | examples/deshred_sharded.rs:42-121 | in order and with everything received and decodable, every end marker that arrived is emitted in the end |
| DeshredOrder.BacklogHidesDisorder | examples/deshred_sharded.rs:76-121 | a run out of order whose every arrival still has a good outcome, since an arrival tries one segment only |
| DeshredSimple.FoundIff | examples/deshred.rs:129-152 | a segment is found if and only if it is the run of NotDataComplete from zero up to the first DataComplete |
| DeshredSimple.AddKeepsMatched | examples/deshred.rs:45-84 | a status is Unknown exactly when its shred is absent, after every add |
| DeshredSimple.TryKeepsMatched | examples/deshred.rs:89-126 | and after every attempt |
| DeshredSimple.NothingMissing | examples/deshred.rs:93-104 | so no shred of a found segment is missing and that check never fires |
| DeshredSimple.TrackersAgree | examples/deshred.rs:45-152 | for data shreds below 512 with end markers in order both trackers return the same on every arrival up to and including the first emission |
| DeshredSimple.EmissionTakesZero | examples/deshred.rs:118-126 | an emitted segment starts at index zero and clears it |
| DeshredSimple.SimpleOutput | examples/deshred.rs:89-126 | an output is decoded from the payloads stored at its indices, in index order |
| DeshredSimple.RepeatIgnored | examples/deshred.rs:45-60 | a data index that is still stored, or 32768 or more, changes nothing and returns nothing |
| DeshredSimple.FirstShred | examples/deshred.rs:45-152 | the first shred to arrive is emitted by both trackers exactly if it is data at index zero that ends a segment or the slot and decodes alone |
| DeshredSimple.SimpleEmissionsBounded | examples/deshred.rs:45-152 | on every run the status-array tracker emits at most as often as data index zero arrives |
| DeshredSimple.TrackersAgreeIff | examples/deshred.rs:45-152 | with in-order ends and data indices below 512 the trackers return the same on the whole run if and only if neither emits more than once |
| DeshredSimple.SecondSegmentLost | examples/deshred.rs:118-152 | two one-shred segments: the boundary-list tracker emits both, the status-array tracker only the first |
| DeshredSimple.RepeatEmittedAgain | examples/deshred.rs:45-126 | the same shred twice is emitted twice by the status-array tracker |
| Deshred.SlotShredsCompact.constructor | examples/deshred_sharded.rs:31-39 | a new tracker stands for the empty run |
| Deshred.SlotShredsCompact.AddShred | examples/deshred_sharded.rs:42-72 | bitset, vector and boundary list change as the model says; a repeated or too large index changes nothing |
| Deshred.SlotShredsCompact.AllReceived | examples/deshred_sharded.rs:86-93 | the bit scan is true exactly when every shred of the range was received |
| Deshred.SlotShredsCompact.CollectPayloads | examples/deshred_sharded.rs:96-102 | payloads of exactly the range, in index order |
| Deshred.SlotShredsCompact.TryDeshredFast | examples/deshred_sharded.rs:76-121 | emits, does nothing or panics exactly as the model says, and clears only an emitted segment |
| Deshred.CompactRunner | examples/deshred_sharded.rs:42-121 | over any sequence of shreds of one slot the tracker returns the model's run |
| Deshred.SlotShreds.AddShred | examples/deshred.rs:45-84 | the status-array tracker's add is the model's |
| Deshred.SlotShreds.FindCompleteSegment | examples/deshred.rs:129-152 | the forward search and backward scan find the model's segment |
| Deshred.SlotShreds.TryDeshred | examples/deshred.rs:89-126 | the status-array tracker's attempt is the model's |
| Deshred.SimpleRunner | examples/deshred.rs:45-152 | over any sequence of shreds of one slot the tracker returns the model's run |
| Packet.FoldResidue | src/packet.rs:90-92 | carry folding keeps the residue modulo 65535 and maps only zero to zero (section 1 of RFC 1071) |
| Packet.FoldCarries | src/packet.rs:90-94 | the folding loop ends and returns the complement of the folded sum |
| Packet.CalculateIpChecksum | src/packet.rs:97-114 | the loop computes the complement of the folded word sum, odd or even length, without overflow |
| Packet.CalculateUdpChecksum | src/packet.rs:62-95 | the loop with the skipped field computes the checksum of pseudo header and blanked segment, without overflow |
| Packet.IpHeaderVerifies | src/packet.rs:15-38 | re-summing any finished IPv4 header gives checksum zero (section 3.1 of RFC 791) |
| Packet.UdpSegmentVerifies | src/packet.rs:40-95 | pseudo header plus any finished checksummed segment folds to 0xFFFF (RFC 768) |
| Packet.ByteSumIsNumber | src/packet.rs:97-110 | the word sum is the whole string, padded with zero, read as one number modulo 65535 |
| Packet.HeaderIsMultiple | src/packet.rs:15-38 | a finished IPv4 header, read as one number, is a multiple of 65535 |
| Packet.SegmentIsMultiple | src/packet.rs:40-95 | so is a checksummed segment behind its pseudo header |
| Packet.UdpChecksumIgnoresField | src/packet.rs:77-84 | the checksum does not depend on the stored checksum bytes |
| Packet.UdpChecksumZeroIff | src/packet.rs:62-95 | the checksum is zero if and only if pseudo header and segment sum to a multiple of 65535; it is not replaced by all ones |
| Packet.ZeroChecksumSent | src/packet.rs:40-95 | a two-byte payload whose finished header carries checksum zero |
| Packet.WriteEthHeader | src/packet.rs:9-13 | writes the 14 header bytes and nothing else |
| Packet.WriteIpHeader | src/packet.rs:15-38 | writes the checksummed 20 header bytes and nothing else |
| Packet.WriteUdpHeader | src/packet.rs:40-60 | writes the 8 header bytes and nothing else, with the checksum over the segment if asked; without it the packet may be shorter than the payload length |
| Packet.WritePacket | src/tx_loop.rs:247-271 | builds payload and headers in place, nothing outside the packet changes |
| Packet.PacketDescribed | src/tx_loop.rs:244-271 | every field of a built packet's 42 header bytes, its payload, and an IPv4 checksum that verifies |
| Packet.HeadersDescribePacket | src/relay_loop.rs:327-352 | a rewritten packet keeps its length and payload; its headers are those of the route, field by field; its lengths describe it; its IPv4 checksum verifies |
| Netlink.AlignByMask | src/netlink.rs:187-189 | the masking form rounds up to the least multiple of 4 |
| Netlink.NextAttr | src/netlink.rs:205-236 | on arbitrary bytes an accepted attribute moves the offset forward by at least 4, keeps its alignment and stays inside the buffer |
| Netlink.AttrLayout | src/netlink.rs:205-236 | where length, type, data and next attribute lie in the bytes, and which of the three reasons refuses one |
| Netlink.AttrsRoundTrip | src/netlink.rs:191-246 | any list of padded attributes is read back exactly, whatever the padding bytes |
| Netlink.AcceptsExactly | src/netlink.rs:205-246 | a buffer is accepted if and only if it is a concatenation of padded attributes |
| Netlink.LastWins | src/netlink.rs:239-246 | an attribute with no later one of its masked type is the one kept |
| Netlink.KeyHasAttr | src/netlink.rs:239-246 | every key kept is the masked type of the last attribute that has it |
| Netlink.KeyIsLowBits | src/netlink.rs:243-243 | the masked type is the low 14 bits |
| Netlink.NlAttrsIterator.Next | src/netlink.rs:205-236 | one call yields the specified item and moves to the specified offset |
| Netlink.ParseAttrs | src/netlink.rs:239-246 | the loop ends, with the last-wins map of all attributes or the first error |
| NetlinkMessages.Read | src/netlink.rs:145-184 | an accepted message's length covers its header and fits the buffer, and it carries an error body exactly when its type is ERROR |
| NetlinkMessages.ReadLayout | src/netlink.rs:145-184 | where each header field, the data and the error body lie in the bytes, and for which buffers each error is returned |
| NetlinkMessages.MultiIff | src/netlink.rs:118-118 | a message is multipart exactly if bit 1 of its flags is set |
| NetlinkMessages.OffsetStaysInside | src/netlink.rs:115-118 | from an aligned offset every accepted message leads to a larger aligned offset inside the buffer |
| NetlinkMessages.ScanDatagram | src/netlink.rs:113-131 | the framing loop ends on any bytes, never indexes outside the buffer and never unwraps a missing error |
| NetlinkMessages.ReadsBack | src/netlink.rs:145-184 | a written message is read back exactly, unless it is a bare header that ends the buffer |
| NetlinkMessages.ScanDelivers | src/netlink.rs:113-131 | a concatenation of padded messages is delivered exactly, whatever stale bytes lie behind it |
| NetlinkMessages.BareEndRefused | src/netlink.rs:157-160 | a bare header in the last 16 bytes of the buffer is refused |
| NetlinkMessages.RecvDelivers | src/netlink.rs:91-135 | over any sequence of datagrams the receive loop delivers exactly the messages |
| NetlinkMessages.DumpReceived | src/netlink.rs:91-135 | a multipart dump yields exactly its messages before the DONE marker (section 2.3.2 of RFC 3549) |
| NetlinkMessages.ErrorReported | src/netlink.rs:119-127 | an error message makes the call fail with the positive error number, losing the messages before it |
| NetlinkMessages.AckIgnored | src/netlink.rs:119-127 | an acknowledgement ends a reply and adds no message |
| NetlinkMessages.Recv | src/netlink.rs:91-135 | the loop over the reused 4096-byte buffer computes the specified result for every sequence of replies |
| NetlinkStale.DeliveredInsideIff | src/netlink.rs:115-118 | a message that can be delivered is the same whatever lies behind the datagram if and only if its length ends inside the datagram |
| NetlinkStale.ScanIgnoresStale | src/netlink.rs:113-131 | if every message read lies inside the datagram, nothing behind it has any effect |
| NetlinkStale.StaleDelivered | src/netlink.rs:145-177 | a 20-byte datagram whose header claims 24 is delivered with four stale bytes |
| Route.MaskedEqualIff | src/route.rs:84-88 | comparing masked words compares exactly their leading bits |
| Route.Ipv4MatchIff | src/route.rs:79-89 | an IPv4 match is equality of the first min(prefix, 32) bits |
| Route.NumberBit | src/route.rs:96-97 | each bit of the 128-bit number is a bit of one segment |
| Route.Ipv6MatchIff | src/route.rs:91-112 | an IPv6 match is equality of the leading bits of the 128-bit numbers; exactly when it panics |
| Route.LookupRoute | src/route.rs:32-77 | the earliest of the matching routes of greatest prefix length, none exactly when nothing matches, a panic exactly for an oversized IPv6 prefix |

## Left out

- System calls and setup: sockets, options, mmap, capabilities, CPU pinning, priorities. Wakeups are no-ops.
- Hardware memory ordering: atomic operations are sequentially consistent steps.
- The kernel and the NIC beyond the moves listed above. Loss of a packet inside the kernel is a completion or a delivery that never comes.
- Endless loops are run for a bounded number of polls or passes, given as a parameter, so statements are about every finite run; only for the transmit loop, with a cooperative kernel, is it claimed that a budget is enough.
- TxLoop.TxSession.Run: stops at a payload that does not fit its frame, where the source writes on; `FrameFit` states exactly what that breaks. The router and the interface number are parameters; time is the list of channel events.
- TxLoop.TxSession.Serve: hand-back of items through the drop channel is the returned list of `Run`; a full drop channel is not modelled.
- RelayLoop.RelaySession.Run: no progress is claimed: a pass without wanted packets publishes nothing.
- Socket.Transmit: the fill ring of a transmit socket is prepopulated and then left alone; what the kernel receives into it is not modelled.
- RelayLoop.RelaySession.HandlePacket: counters and log lines are left out.
- ReceivePath.RxPath.Refill: the branch that releases a frame after a failed write is proved unreachable and is an assertion.
- PacketPool.FreeBitmap.Acquire: the number of spurious exchange failures is bounded by a parameter; packet contents and metadata are left out.
- Deshred.SlotShreds.TryDeshred: has no branch for missing shreds, since `NothingMissing` proves that there are none.
- Deshred.CompactRunner: one slot, as `SimpleRunner`; the window and map of slots and slot cleanup are left out, as are shred parsing, `Shredder::deshred` and bincode.
- NetlinkMessages.Recv: words are little-endian; an error code of the least 32-bit integer is negated with wrap-around.
- Netlink.NlAttrsIterator.Next: use of the iterator after an error is not specified beyond its offset staying in the buffer.
- Route tables, ARP lookup, default routes and field extraction of routes and neighbours would only add easy members.
- The eBPF program, raw sockets, examples that parse arguments, log or call Solana crates.
