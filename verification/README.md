# Verification of the Yuva core

Yuva is a capability-based kernel with its own virtual machine monitor. This project models the
parts of it that decide who may do what, which bytes reach whom, and what counts as proof, and
proves properties of them over all inputs and all runs. `dafny verify dfyconfig.toml` checks
everything.

| component | modules |
|---|---|
| capability tables: generations, reuse, retirement, moves between tables | `RightsAlgebra`, `CapabilityTable`, `CapabilityRuns` |
| virtio-mmio console: registers, split-queue walks over guest memory, kick loops | `GuestMemory`, `VirtQueue`, `VirtChains`, `VirtioDevice`, `VirtioRegisters`, `VirtioLoops`, `VirtioKicks`, `VirtioEnds`, `VirtioEndless`, `VirtioStream`, `VirtioDelivery`, `VirtioWitness`, `VirtioDriver`, `VirtioMmio` |
| the in-process peer: frame codec, stream re-framing, chunked bodies | `InferWire`, `InferPeer`, `ChunkAssembly` |
| activation gate: integer estimators and the decision they support | `IntMath`, `SmoothnessFloor`, `ActivationGate`, `Exploration` |
| on-disk and attestation codecs | `Fnv`, `DiskFormat`, `Attest`, `Pae` |
| kernel loader, device bus, boot handoff | `ElfLoader`, `BootNote`, `DeviceBus`, `BootHandoff`, `BootProducer` |
| shared: machine words, byte layouts | `Words`, `Layout` |

## Main results

- **Capabilities.** For any number of tables of any width and any run, a handle resolves exactly
  if it was issued and not yet freed; no handle is issued twice (if and only if slot indices fit
  32 bits); no held or parked capability exceeds what was minted.
- **Byte stream.** Over every session of register writes, resets, guest stores and kicks, what the
  guest is delivered and what still waits is the answers to the frames it transmitted, however it
  cut the stream into descriptor chains and receive windows. The exact exception is a receive
  chain that turns out malformed after bytes were drawn for it. The same holds of the device in
  place.
- **Rings.** With rings and buffers laid out sanely the used ring mirrors the avail ring across
  counter wrap. A kick ends under much less: the device's writes need only miss what its loops go
  by, and a loop goes on for ever exactly if it keeps rewriting its own avail index.
- **Buffers.** What a whole kick does to memory is told from memory before it: the bytes of the
  available transmit chains reach the peer, and its answer comes to stand in the posted receive
  buffers, in order.
- **Registers.** After every session each register holds what was last written to it, and
  FEATURES_OK stands exactly if VERSION_1 alone was acknowledged. The kernel's own exchange, from
  reset and handshake to the posted buffer, delivers for any request and any peer, whatever state
  the device was in.
- **Re-framing.** The byte-at-a-time accumulator finds the same frames as reading the whole
  stream at once, and where a frame behind garbage ends up is said for any garbage; the chunk
  assembler completes exactly on whole bodies.
- **Gate.** When the gate clears, the mean of the policy exceeds the mean of the heuristic by the
  margin, in exact rationals, for every completion of the missing rewards whose decisions fall
  fairly over the grid cells. For each batch of explored rewards and counts per cell an exact
  condition says whether the gate can ever clear wrongly.
- **Codecs.** Every encoding is a bijection onto what its decoder accepts, or its failures to
  detect a changed byte are characterised exactly; every layout and every verdict of a decoder is
  also said byte for byte.
- **Loader, bus, handoff.** Last-segment-wins memory contents, agreement of the neighbour-only
  bus check with a linear scan (if and only if ranges end below 2^64), and a framed round trip of
  the boot block.

Code that updates state in place is modelled as classes and methods over fields and arrays, each
tied to a function of the old state; the theorems are lemmas about those functions and about
runs of them.

## Where the code and its documentation disagree

The model follows the code.

- `value_lower_bound` promises a bound below the true value wherever the unexplored decisions
  fall, because each falls into some cell whose floor was taken. The code averages the floors of
  all cells uniformly, so decisions that crowd into low cells can earn less. `GateClearsWrongly`
  is a batch on which the gate then clears wrongly. The exact condition is one on the batch: the
  deficit of the uniform floor mean must stay within what the bound on the explored part and the
  rounding spare (`LowerIsSoundIff`, `LowerIsSoundIffSlack`, `GateIsSoundIff`). Decisions that fall
  fairly leave no deficit; `OneIsHarmless` shows that this is not necessary.
- `virtio_mmio.rs` promises that a malformed ring never leads to a hang. A used ring placed on the
  avail ring makes each published chain look like a new one, and once the two counters differ the
  transmit loop does not end: `KickNeverEnds` is such a session. `SharedRingEndsIff` is exact for
  that case, `TxEndsIffSettles` and `RxEndsIffSettles` for every device, and `KicksEnd` gives a
  condition on the registers and posted chains.
- `FrameAccum` is documented to let garbage delay a frame at most. Garbage that passes for a header
  swallows the bytes that follow, frames included, up to the length it declares
  (`CutFrameSwallows`); `GarbageIsHarmlessIff` and `FrameBehindGarbage` are exact.
- `survival_label` promises that a resolved label never flips. A touch that arrives in the tick
  that closed the window flips it; `ResolvedLabelIsFinalIff` says exactly when a label is final.
- `explore_propensity_q` promises a propensity in 1..1000 whenever epsilon is positive. It is 0
  for the greedy action when epsilon is at least one and there are more than 1000 * epsilon
  actions, and for other actions when epsilon's denominator is 0 (`PropensityCanVanish`);
  `PositiveIff` gives the exact condition.
- The documentation of `tb-vmm` and of `TbBootInfo::kernel_entry` speaks of a fallback to the ELF
  entry point. The loader refuses a kernel without the entry note.
- `parse_entry64_note` is documented as what the loader calls for each note. The loader has its
  own check, which strips one trailing NUL instead of cutting at the first;
  `ReadersAgreeIff` says exactly when the two differ.
- `Bus::register` documents an error on overlap. A range that reaches 2^64 is accepted, can then
  be overlapped, and is not found at its own base (`TopRangeIsLost`); `LookupIsScanIff` and `RegisterIsScanIff` give
  the exact condition.

## Assumptions

- Address sums in the bus and the rings wrap at 2^64 as in a release build; file offsets and
  addresses in the loader add up without overflow.
- Guest RAM is one region based at address 0. A guest memory write that does not fit writes the
  part that does; a zero-length access succeeds up to the end of RAM. The memory crate itself is
  not part of this model.
- The fixed-point logarithm, the body digest and the answer to a frame are parameters of which
  nothing is assumed.
- Runs of capability operations free only occupied slots, as revoke, transfer_to and detach do.
  `free_slot` itself is public; on a vacant slot it can put the slot on the free list twice, and
  `FreeKeepsInvIff` says exactly when the table stays well formed.

## Model

| member | source | states |
|---|---|---|
| RightsAlgebra.IntersectIsLower | crates/tb-caps-core/src/rights.rs:72-87 | attenuation never adds a right |
| RightsAlgebra.IntersectIsGreatest | crates/tb-caps-core/src/rights.rs:72-87 | attenuation drops no right that both operands have: it is the greatest lower bound |
| RightsAlgebra.IntersectIsBoth | crates/tb-caps-core/src/rights.rs:72-77 | right by right: attenuation leaves exactly the rights that both operands have |
| RightsAlgebra.SubsetIff | crates/tb-caps-core/src/rights.rs:84-89 | right by right: a subset has no right that the other lacks, and only then is it one |
| CapabilityTable.HandleIsItsFields | crates/tb-caps-core/src/table.rs:13-56 | packing generation and slot into 64 bits loses nothing |
| CapabilityTable.LiveMeansHeld | crates/tb-caps-core/src/table.rs:134-144 | `live` is Ok exactly for the handles of the abstract map; BadCap exactly for slots that never existed; Stale for every issued handle no longer live |
| CapabilityTable.AllocIssuesFresh | crates/tb-caps-core/src/table.rs:148-166 | an allocation fails exactly when no slot can be had and then changes nothing; otherwise its handle was never issued before and no other handle changes meaning |
| CapabilityTable.FreshUnlessIndexWraps | crates/tb-caps-core/src/table.rs:148-166 | with slot indices beyond 32 bits the next handle is fresh exactly while the index fits its cast |
| CapabilityTable.FreeKillsOne | crates/tb-caps-core/src/table.rs:172-182 | freeing a live handle kills it and no other, and forgets no issued handle, also when the slot is retired at the last generation |
| CapabilityTable.FreeKeepsInvIff | crates/tb-caps-core/src/table.rs:172-182 | freeing any slot keeps the table well formed exactly when the slot is occupied or vacant at the last generation |
| CapabilityTable.SlotsPartition | crates/tb-caps-core/src/table.rs:148-182 | occupied + free + retired slots are all slots, at most `cap`; the free list has no duplicates |
| CapabilityTable.AllocFailsWhenFull | crates/tb-caps-core/src/table.rs:148-166 | alloc fails exactly when occupied and retired slots use up the capacity |
| CapabilityTable.TransferIsDetachThenAttach | crates/tb-caps-core/src/table.rs:250-272 | a move into a full table changes neither table; with room it equals detach then attach |
| CapabilityTable.LiveCount | crates/tb-caps-core/src/table.rs:134-182 | every occupied slot has exactly one live handle |
| CapabilityTable.CopySucceedsIff | crates/tb-caps-core/src/table.rs:228-243 | dup and narrow hand out a handle exactly for a handle that resolves, while occupied and retired slots leave room; refused, they change nothing |
| CapabilityTable.FreedSlotComesNext | crates/tb-caps-core/src/table.rs:148-182 | the free list is a stack: the slot freed last is handed out next, one generation on |
| CapabilityTable.CapTable.WithCapacity | crates/tb-caps-core/src/table.rs:121-127 | a new table of any capacity is empty, and nothing was issued |
| CapabilityTable.CapTable.Live | crates/tb-caps-core/src/table.rs:134-144 | answers as the abstract map says |
| CapabilityTable.CapTable.Alloc | crates/tb-caps-core/src/table.rs:148-166 | the in-place allocation: new table, handle, and the history it extends |
| CapabilityTable.CapTable.FreeSlot | crates/tb-caps-core/src/table.rs:172-182 | the in-place free of any slot, vacant ones included, with generation bump or retirement |
| CapabilityTable.CapTable.Attach | crates/tb-caps-core/src/table.rs:192-194 | a carried pair gets a fresh handle with exactly its rights, or nothing changes |
| CapabilityTable.CapTable.Revoke | crates/tb-caps-core/src/table.rs:200-208 | kills exactly that handle; a stale or bad one is named as such and changes nothing |
| CapabilityTable.CapTable.Dup | crates/tb-caps-core/src/table.rs:228-233 | a second, fresh handle for the same capability, exactly if the handle is live in the abstract map and there is room; otherwise nothing changes |
| CapabilityTable.CapTable.Narrow | crates/tb-caps-core/src/table.rs:238-243 | a fresh handle to the same object with its rights met with the mask, under the same condition; the original stays |
| CapabilityTable.CapTable.TransferTo | crates/tb-caps-core/src/table.rs:250-259 | source forgets, destination issues a fresh handle for the same capability; on failure neither changes |
| CapabilityTable.CapTable.Detach | crates/tb-caps-core/src/table.rs:266-272 | returns the pair the handle stood for and kills the handle |
| CapabilityRuns.StepAgrees | crates/tb-caps-core/src/table.rs:148-272 | any operation on any number of tables keeps every table in agreement with its abstract map; a handle handed out is new to its table |
| CapabilityRuns.StepNeverAmplifies | crates/tb-caps-core/src/table.rs:192-272 | no operation, whatever it returns, lets a held or parked pair exceed what its object was minted with |
| CapabilityRuns.StepWithin | crates/tb-caps-core/src/table.rs:148-272 | one operation on tables of any capacity keeps every occupied slot and parked pair within what was minted |
| CapabilityRuns.RunsRefineHistories | crates/tb-caps-core/src/table.rs:134-182 | over every run: a handle resolves exactly if issued and not yet freed, and to the capability it was issued for |
| CapabilityRuns.AuthorityNeverGrows | crates/tb-caps-core/src/table.rs:192-272 | over every run on tables of any capacity, every occupied slot and every parked pair holds a subset of minted rights |
| CapabilityRuns.DeadHandlesStayStale | crates/tb-caps-core/src/table.rs:134-182 | a revoked, moved or detached handle is Stale for the rest of the run, through slot reuse and retirement |
| CapabilityRuns.HandoutsAreDistinct | crates/tb-caps-core/src/table.rs:148-166 | the handles one table hands out in a run are pairwise distinct |
| CapabilityRuns.HandlesUniqueIffIndicesFit | crates/tb-caps-core/src/table.rs:148-166 | for every capacity: handles are unique in all runs if and only if the capacity is at most 2^32 |
| CapabilityRuns.StepSucceedsIff | crates/tb-caps-core/src/table.rs:148-272 | which operation of a run hands out a handle, told from the ledger: mint and attach while there is room, copies and moves of live handles while the target has room |
| CapabilityRuns.CarryIsTransfer | crates/tb-caps-core/src/table.rs:192-272 | in any reachable system detaching a live handle and attaching the pair elsewhere, when there is room, is moving it |
| CapabilityRuns.FirstHandouts | crates/tb-caps-core/src/table.rs:148-166 | the first mints of a new table return 2^32, 2^32 + 1 and so on |
| VirtQueue.ScatterTakesFromFront | tb-vmm/src/virtio_mmio.rs:422-447 | a receive walk takes its bytes from the front of the queue and leaves the rest in order |
| VirtQueue.ScatterSpares | tb-vmm/src/virtio_mmio.rs:422-447 | a walk whose segments keep out of a region writes nothing there |
| VirtQueue.ScatterFollowsPlan | tb-vmm/src/virtio_mmio.rs:422-447 | the walk ends properly exactly if the chain, read beforehand, stays in RAM and within `num` descriptors; it then has written exactly the planned bytes |
| VirtQueue.WalkDelivers | tb-vmm/src/virtio_mmio.rs:422-447 | segments that do not overlap hold the first queued bytes in order afterwards; written count, remaining queue and untouched memory are exact |
| GuestMemory.WriteBytes | tb-vmm/src/virtio_mmio.rs:494-504 | a guest memory write puts its bytes at their addresses as far as memory goes, and nothing else |
| GuestMemory.ReadWordIs | tb-vmm/src/virtio_mmio.rs:476-492 | a guest memory read gives the little-endian number at the address, or none |
| VirtChains.DescriptorLayout | tb-vmm/src/virtio_mmio.rs:402-406 | the 16 bytes of a descriptor: address, length, flags, link |
| VirtChains.GatherIff | tb-vmm/src/virtio_mmio.rs:390-417 | a transmit walk gives exactly the bytes of all readable buffers of the chain, in chain order, if and only if the links lead through a whole chain within the queue size whose readable buffers are in RAM |
| VirtChains.PlanIff | tb-vmm/src/virtio_mmio.rs:422-447 | a receive walk fills exactly the writable buffers of the linked descriptors, each before the next, until the chain or the bytes end, if and only if it gets that far within the queue size and RAM |
| VirtChains.DrawIs | tb-vmm/src/virtio_mmio.rs:422-447 | what a receive walk takes from the queue, whether or not it ends properly: the room in the descriptors it comes to |
| VirtioDevice.PushInParts | tb-vmm/src/infer_host.rs:174-199 | the peer does not see where one transmit chain ends and the next begins |
| VirtioDevice.GuestLeavesStream | tb-vmm/src/virtio_mmio.rs:182-189 | register writes, resets included, leave peer, queue and stream alone |
| VirtioDevice.RunConserves | tb-vmm/src/virtio_mmio.rs:228-386 | over every run of memory writes, register writes and loop passes, no byte of the peer is invented, duplicated or reordered |
| VirtioDevice.StreamConserved | tb-vmm/src/virtio_mmio.rs:316-447 | over every run: delivered bytes then queued bytes are the peer's answer to the transmitted bytes, exactly if no receive walk was abandoned holding bytes |
| VirtioLoops.TxLoopUnfolds | tb-vmm/src/virtio_mmio.rs:331-354 | the transmit loop ends exactly when the rest of it does after one pass, and then has the same effect |
| VirtioLoops.RxLoopUnfolds | tb-vmm/src/virtio_mmio.rs:361-386 | the same for the receive loop |
| VirtioLoops.NotifyIsRun | tb-vmm/src/virtio_mmio.rs:316-326 | a kick that ends is the run of its passes |
| VirtioLoops.KickRules | tb-vmm/src/virtio_mmio.rs:316-326 | a kick does nothing without DRIVER_OK or for a queue that does not exist; queue 1 runs both loops, queue 0 the receive loop only |
| VirtioLoops.IdleKick | tb-vmm/src/virtio_mmio.rs:361-365 | with nothing queued a kick of queue 0 consumes no posted buffer |
| VirtioLoops.SessionIsRun | tb-vmm/src/virtio_mmio.rs:228-386 | a session of guest stores, register writes, resets and kicks is a run |
| VirtioLoops.SessionConserves | tb-vmm/src/virtio_mmio.rs:228-447 | over every session: delivered bytes then queued bytes are the peer's answer, exactly if no receive walk was abandoned holding bytes |
| VirtioKicks.PublishLands | tb-vmm/src/virtio_mmio.rs:453-472 | publishing writes one used entry and the used index and nothing else |
| VirtioKicks.PublishIff | tb-vmm/src/virtio_mmio.rs:453-472 | where publishing breaks off, wherever the used ring lies: when the counter moves on, and when the guest can see the entry |
| VirtioKicks.NextHeadIs | tb-vmm/src/virtio_mmio.rs:333-346 | the next head from the bytes of the avail ring: none unless the index has moved on, then the entry the counter points to |
| VirtioKicks.TxPassAdvances | tb-vmm/src/virtio_mmio.rs:331-354 | one transmit pass serves the next available head, publishes it with length 0, advances both counters, and keeps the layout |
| VirtioKicks.RxPassAdvances | tb-vmm/src/virtio_mmio.rs:361-386 | one receive pass serves the next available head and publishes the number of bytes written to it |
| VirtioKicks.RxPassEnds | tb-vmm/src/virtio_mmio.rs:361-386 | the pass that ends the loop moves no counter and writes nothing in the rings |
| VirtioKicks.RxPassFollowsPlan | tb-vmm/src/virtio_mmio.rs:361-447 | a receive walk is abandoned exactly when its chain, read beforehand, leaves RAM or the queue size; otherwise the buffers hold its bytes and the queue moves on by one chain |
| VirtioKicks.WalkCompletesIffPlanned | tb-vmm/src/virtio_mmio.rs:361-447 | a receive walk completes exactly when its chain is well formed; the buffers then hold its bytes |
| VirtioKicks.SlotOfAdvance | tb-vmm/src/virtio_mmio.rs:346-349 | ring sizes 1, 2 and 4 divide 2^16, so counter wrap does not disturb ring slots |
| VirtioKicks.BacklogShrinks | tb-vmm/src/virtio_mmio.rs:331-386 | each pass shortens (avail.idx - next_avail) mod 2^16 by one, which bounds the loops |
| VirtioKicks.KickMirrorsRings | tb-vmm/src/virtio_mmio.rs:316-386 | a transmit kick ends; each queue's available chains are served in order and once, the used ring carries their heads and lengths, and the loops stop only for lack of work or at a malformed chain met in this kick |
| VirtioKicks.ReceiveKickMirrorsRing | tb-vmm/src/virtio_mmio.rs:316-386 | the same for a kick of the receive queue |
| VirtioEnds.TxSparedEnds | tb-vmm/src/virtio_mmio.rs:331-354 | a transmit loop whose passes leave the avail index alone goes round at most as often as chains are available |
| VirtioEnds.RxSparedEnds | tb-vmm/src/virtio_mmio.rs:361-386 | the same for the receive loop, whatever its walks do elsewhere |
| VirtioEnds.TxEndsIffSettles | tb-vmm/src/virtio_mmio.rs:331-354 | for every device: the transmit loop fails to end exactly when it rewrites its avail index over and over |
| VirtioEnds.RxEndsIffSettles | tb-vmm/src/virtio_mmio.rs:361-386 | the same for the receive loop, whether a used-ring write or a receive buffer hits the index |
| VirtioEnds.TransmitLoopEnds | tb-vmm/src/virtio_mmio.rs:331-354 | the transmit loop ends whenever its used-ring writes, at their wrapped addresses and in RAM or not, miss the two bytes of its avail index |
| VirtioEnds.ReceiveLoopEnds | tb-vmm/src/virtio_mmio.rs:361-386 | the receive loop ends whenever its used-ring writes and its posted buffers keep off its avail ring and posted descriptors |
| VirtioEnds.KicksEnd | tb-vmm/src/virtio_mmio.rs:316-386 | a kick of either queue ends under those conditions, whatever the chains and wherever the used rings |
| VirtioEnds.LayoutSpares | tb-vmm/src/virtio_mmio.rs:316-386 | every sane layout meets them |
| VirtioEndless.SharedRingEndsIff | tb-vmm/src/virtio_mmio.rs:331-354 | a transmit queue of size 1 with one ring for both directions: its loop ends exactly if it finds no readable chain at once or the two counters agree |
| VirtioEndless.KickNeverEnds | tb-vmm/src/virtio_mmio.rs:316-354 | a session in which every kick ends, after which the next one never does |
| VirtioDelivery.TxLoopSends | tb-vmm/src/virtio_mmio.rs:331-354 | the transmit loop takes to the peer exactly the bytes of the available chains as memory held them before the loop, up to the first malformed chain |
| VirtioDelivery.RxLoopFills | tb-vmm/src/virtio_mmio.rs:361-386 | after the receive loop the posted buffers, apart from each other, hold the delivered bytes in order; nothing is missing exactly if no walk was abandoned holding bytes |
| VirtioDelivery.ReceiveKickFills | tb-vmm/src/virtio_mmio.rs:316-326 | the same for a whole kick of the receive queue |
| VirtioDelivery.TransmitKickDelivers | tb-vmm/src/virtio_mmio.rs:316-447 | a whole transmit kick, told from memory before it: the outgoing chains reach the peer and its answer stands in the posted buffers |
| VirtioKicks.CountersAgree | tb-vmm/src/virtio_mmio.rs:331-472 | over every run with sane layouts `next_avail` equals `used_count` on both queues |
| VirtioStream.PassLosesIffFaulty | tb-vmm/src/virtio_mmio.rs:361-447 | a receive pass loses bytes exactly when the chain, read before the pass, is malformed after a segment that draws bytes |
| VirtioStream.StreamConservedIff | tb-vmm/src/virtio_mmio.rs:316-447 | over every run with sane layouts: the guest gets and will get exactly the peer's answers if and only if no receive pass started on such a chain |
| VirtioStream.SessionConservedIff | tb-vmm/src/virtio_mmio.rs:228-447 | over every session whose kicks meet sane layouts: the same equivalence, for whole kicks |
| VirtioStream.SessionCountersAgree | tb-vmm/src/virtio_mmio.rs:331-472 | over every such session both counters of each queue agree |
| VirtioWitness.KickIsClear | tb-vmm/src/virtio_mmio.rs:316-447 | a kick whose rings and buffers are apart: one byte goes out, two come in |
| VirtioWitness.SessionDelivers | tb-vmm/src/virtio_mmio.rs:228-472 | a session with a sane layout that sets up both queues, kicks, and finds the answer in its receive buffer |
| VirtioWitness.SessionLoses | tb-vmm/src/virtio_mmio.rs:422-447 | a session with a sane layout whose receive chain runs on beyond the queue size and loses a byte |
| VirtioRegisters.RegistersAre | tb-vmm/src/virtio_mmio.rs:228-308 | over every session: each register holds what was last written to it since the last reset under the selector it stands behind, queue sizes other than 1, 2 and 4 count as 0, and addresses are their two halves |
| VirtioRegisters.FeaturesOkSticksIff | tb-vmm/src/virtio_mmio.rs:257-275 | after every session a nonzero status write is kept unchanged if and only if it leaves FEATURES_OK unset or the feature dwords last acknowledged are 0 and 1; otherwise it is kept without that bit |
| VirtioRegisters.ReadsAre | tb-vmm/src/virtio_mmio.rs:196-226 | over every session: what the driver reads back, identity, offered features and queue sizes included |
| VirtioRegisters.KickKeepsSetUp | tb-vmm/src/virtio_mmio.rs:316-386 | a kick changes no register, and nothing of a queue but its counters |
| VirtioRegisters.ResetClears | tb-vmm/src/virtio_mmio.rs:182-189 | a status write of 0 clears registers, queues and counters and nothing else |
| VirtioRegisters.WritesSpareCounters | tb-vmm/src/virtio_mmio.rs:228-308 | any other register write leaves counters and guest memory alone |
| VirtioDriver.HandshakeLeads | tb-vmm/src/virtio_mmio.rs:622-636 | the kernel's handshake from any state: statuses 0, 1, 3 and 11, after which 11 stands |
| VirtioDriver.PrepareLeads | tb-vmm/src/virtio_mmio.rs:621-687 | its set-up of two queues of size 4, the posted buffer and the request lead to the device and memory they should, from any state |
| VirtioDriver.ExchangeDelivers | tb-vmm/src/virtio_mmio.rs:621-691 | the kernel's whole exchange, from any state of the device, for any request, peer and room: the peer was sent exactly the request, and what waited and its answer stand in the buffer as far as there is room, the rest waits, and both used rings say so |
| VirtioDriver.ExchangeAnswersFrame | tb-vmm/src/virtio_mmio.rs:796-811 | with a frame server as the peer and a frame as the request, the reply to that frame stands in the buffer |
| VirtioMmio.InferHost.TakeOutput | tb-vmm/src/infer_host.rs:163-166 | pops a prefix of at most `max` bytes |
| VirtioMmio.InferHost.PushGuestBytes | tb-vmm/src/infer_host.rs:174-199 | the byte loop feeds the peer and appends its replies to the queue |
| VirtioMmio.VirtioMmio.Reset | tb-vmm/src/virtio_mmio.rs:182-189 | clears exactly the transport state |
| VirtioMmio.VirtioMmio.GatherReadable | tb-vmm/src/virtio_mmio.rs:390-417 | the descriptor loop returns the chain's readable bytes, or None when it is too long or leaves RAM |
| VirtioMmio.VirtioMmio.ScatterWritable | tb-vmm/src/virtio_mmio.rs:422-447 | the descriptor loop has exactly the effect of the walk proved above |
| VirtioMmio.VirtioMmio.PublishUsed | tb-vmm/src/virtio_mmio.rs:453-472 | the three guest writes and the counter, with their failure exits |
| VirtioMmio.VirtioMmio.ProcessTx | tb-vmm/src/virtio_mmio.rs:331-354 | the loop in place, for every device on which it ends, has exactly the effect of its passes |
| VirtioMmio.VirtioMmio.DrainRx | tb-vmm/src/virtio_mmio.rs:361-386 | the loop in place, for every device on which it ends, has exactly the effect of its passes |
| VirtioMmio.VirtioMmio.Notify | tb-vmm/src/virtio_mmio.rs:316-326 | kick dispatch on queue index and DRIVER_OK; asks only that the kick end |
| VirtioMmio.VirtioMmio.WriteReg | tb-vmm/src/virtio_mmio.rs:228-308 | register dispatch, FEATURES_OK validation, reset and notify: one more command of the session, whose registers `RegistersAre` and `FeaturesOkSticksIff` describe |
| VirtioMmio.VirtioMmio.ReadReg | tb-vmm/src/virtio_mmio.rs:196-226 | register reads of the device in place |
| VirtioMmio.DeviceConserves | tb-vmm/src/virtio_mmio.rs:228-447 | the stream of the device in place, whatever was done to it since it was made |
| VirtioMmio.DeviceConservesIff | tb-vmm/src/virtio_mmio.rs:228-447 | and, when its kicks met sane layouts, the exact condition on the chains |
| InferWire.DecodeOfFrame | crates/tb-encode/src/inferwire.rs:324-426 | decoding an encoded frame gives it back, whatever bytes follow |
| InferWire.FrameOfDecode | crates/tb-encode/src/inferwire.rs:324-426 | encoding what was decoded gives back the decoded bytes, so each frame has one encoding |
| InferWire.FrameLayout | crates/tb-encode/src/inferwire.rs:324-361 | a frame byte for byte |
| InferWire.DecodeIff | crates/tb-encode/src/inferwire.rs:375-426 | which buffers hold a frame at their front, and which fields are read from where |
| InferWire.PlausibleIff | crates/tb-encode/src/inferwire.rs:648-702 | the accumulator keeps a buffer exactly as long as some bytes behind it could still make it a frame; a length field that is cut short is not looked at |
| InferWire.Canon | crates/tb-encode/src/inferwire.rs:324-361 | fills exactly the front of the buffer, or refuses and leaves it alone |
| InferWire.ParseExtends | crates/tb-encode/src/inferwire.rs:635-702 | reading a stream in two parts finds the same frames as reading it whole |
| InferWire.OneMoreByte | crates/tb-encode/src/inferwire.rs:635-702 | one byte completes at most one frame, which is then the entire buffer |
| InferWire.WaitingIsShort | crates/tb-encode/src/inferwire.rs:566-578 | between frames the buffer is shorter than the longest frame, so the capacity branch never fires |
| InferWire.ParseOfFrames | crates/tb-encode/src/inferwire.rs:635-702 | a stream of encoded frames yields exactly those frames and leaves nothing |
| InferWire.FoundDecodes | crates/tb-encode/src/inferwire.rs:648-702 | every window emitted decodes and re-encodes to itself |
| InferWire.GarbageIsDropped | crates/tb-encode/src/inferwire.rs:648-716 | bytes without the magic's first byte yield nothing and hide no frame |
| InferWire.GarbageIsHarmlessIff | crates/tb-encode/src/inferwire.rs:648-716 | bytes in front of a stream change nothing, whatever the stream, exactly if they hold no frame and leave nothing over |
| InferWire.FrameBehindGarbage | crates/tb-encode/src/inferwire.rs:648-697 | a frame behind any bytes is read at its place if they leave it exposed, and otherwise as header or payload of the first plausible place among them |
| InferWire.CutFrameSwallows | crates/tb-encode/src/inferwire.rs:648-697 | a frame cut off behind its header takes the bytes that follow, whole frames among them, for the rest of its payload |
| InferWire.FrameAccum.Consume | crates/tb-encode/src/inferwire.rs:617-626 | shifts the kept bytes to the front |
| InferWire.FrameAccum.Scan | crates/tb-encode/src/inferwire.rs:648-702 | drops bytes until the front could be a frame; reports it once complete |
| InferWire.FrameAccum.PushByte | crates/tb-encode/src/inferwire.rs:635-642 | appends one byte and settles the buffer |
| InferWire.FrameAccum.Feed | tb-vmm/src/infer_host.rs:174-181 | the push-and-consume loop emits exactly the frames of the whole stream read at once |
| InferPeer.PeerAnswersFrames | tb-vmm/src/infer_host.rs:174-199 | fed byte by byte, the peer answers exactly the frames of the stream, in order |
| InferPeer.DeliveredAreAnswers | tb-vmm/src/virtio_mmio.rs:316-447 | end to end over every session whose kicks meet sane layouts: what the guest gets is the answers to the frames it transmitted, however it cut the stream into chains and windows, if and only if no receive pass started on a faulty chain |
| InferPeer.FramesAreAnswered | tb-vmm/src/virtio_mmio.rs:316-447 | when it transmitted a list of encoded frames, those are the frames answered, in order |
| ChunkAssembly.DecodeOfSub | crates/tb-encode/src/inferwire.rs:971-1023 | the chunk sub-header round-trips |
| ChunkAssembly.SubOfDecode | crates/tb-encode/src/inferwire.rs:971-1023 | and has one encoding |
| ChunkAssembly.SubLayout | crates/tb-encode/src/inferwire.rs:971-987 | the sub-header byte for byte |
| ChunkAssembly.SubDecodeIff | crates/tb-encode/src/inferwire.rs:995-1023 | which buffers start with a sub-header, and which fields are read from where |
| ChunkAssembly.SubCanon | crates/tb-encode/src/inferwire.rs:971-987 | fills the first 24 bytes or refuses |
| ChunkAssembly.FeedIs | crates/tb-encode/src/inferwire.rs:1369-1439 | over every sequence of pushes: the last answer is Accepted exactly if the chunks so far are in order, Complete exactly if they are a whole body with its digest, and the assembler holds exactly their bytes |
| ChunkAssembly.StaysShut | crates/tb-encode/src/inferwire.rs:1369-1372 | a finished or poisoned assembler rejects everything from then on |
| ChunkAssembly.FirstPushIs | crates/tb-encode/src/inferwire.rs:1369-1439 | how a fresh assembler answers its first chunk |
| ChunkAssembly.CutThenFeed | tb-vmm/src/infer_host.rs:342-369 | round trip: the server's chunks, pushed into an assembler, complete with the body |
| ChunkAssembly.CutCounts | crates/tb-encode/src/inferwire.rs:1447-1467 | number of chunks and wire length are what both ends compute beforehand |
| ChunkAssembly.CutIs | tb-vmm/src/infer_host.rs:342-369 | the cut piece by piece: numbered chunks of 1000 bytes and a last one of the rest |
| ChunkAssembly.CutBody | tb-vmm/src/infer_host.rs:342-369 | the chunk loop |
| ChunkAssembly.InferAssembler.PushChunk | crates/tb-encode/src/inferwire.rs:1369-1439 | the in-place assembler does exactly the specified step and never outgrows its buffer |
| IntMath.FloorDivIsFloor | crates/tb-encode/src/bakeoff.rs:522-531 | rounds towards minus infinity for either sign of the divisor; 0 for a zero divisor |
| IntMath.CeilDivIsCeil | crates/tb-encode/src/bakeoff.rs:537-548 | rounds towards plus infinity for either sign of the divisor; 0 for a zero divisor |
| IntMath.IsqrtCeilIsLeast | crates/tb-encode/src/bakeoff.rs:555-579 | the least s with s*s >= x, for 0 <= x <= (2^63-1)^2 |
| IntMath.IsqrtCeilBits | crates/tb-encode/src/bakeoff.rs:555-579 | the two shift loops and the final bump compute it |
| SmoothnessFloor.SmoothnessFloorMean | crates/tb-encode/src/bakeoff.rs:403-437 | the nested sweeps compute the mean of the per-cell floors |
| SmoothnessFloor.FloorsAreAdmissible | crates/tb-encode/src/bakeoff.rs:403-437 | for consistent explored rewards the per-cell floors are themselves an admissible reward function (McShane extension) |
| SmoothnessFloor.FloorMeanIsBest | crates/tb-encode/src/bakeoff.rs:403-437 | below the mean of every admissible reward function; and no larger integer is, when the explored rewards are consistent |
| SmoothnessFloor.CellFloorIs | crates/tb-encode/src/bakeoff.rs:403-431 | for any in-band rewards: an explored cell has its own reward; another the best that an anchor less 64 per cell of distance claims, and no less than the worst reward |
| SmoothnessFloor.FloorMeanIs | crates/tb-encode/src/bakeoff.rs:432-437 | the floor mean is that of the nine cell floors, rounded down |
| ActivationGate.ResolvedLabelIsFinalIff | crates/tb-encode/src/bakeoff.rs:186-215 | a resolved label is final in every later view exactly when a touch was seen or the look came after the last tick of the window |
| ActivationGate.ResolvedLabelCanFlip | crates/tb-encode/src/bakeoff.rs:186-215 | a resolved label that flips |
| ActivationGate.LabelIs | crates/tb-encode/src/bakeoff.rs:186-215 | the three labels: a touch within the window, none and the window over, none yet |
| ActivationGate.EbBelowMean | crates/tb-encode/src/bakeoff.rs:256-320 | the bound is at most the floored mean (or `lo`), and at least `lo` for n > 1 |
| ActivationGate.EbFallsWithSpread | crates/tb-encode/src/bakeoff.rs:256-320 | for fixed sum and count it never rises with the sum of squares; `EbIs` and `SpreadCosts` say by how much it falls |
| ActivationGate.EbIs | crates/tb-encode/src/bakeoff.rs:256-320 | the bound of more than one in-band reward, exactly: the floored mean less the least s with s^2 at least floor(2 v l / n) and the least p with 3 (n - 1) p at least 7 * 68000 l, where v is the least with v n^2 at least n sum_sq - sum^2; but no less than -34000 |
| ActivationGate.EbOfFew | crates/tb-encode/src/bakeoff.rs:265-277 | of one reward it is the reward less a whole range, of none the floor given |
| ActivationGate.SpreadCosts | crates/tb-encode/src/bakeoff.rs:278-320 | five thousand best and five thousand worst rewards at delta 1/10 have the bound -881 |
| ActivationGate.VarianceIsNotNegative | crates/tb-encode/src/bakeoff.rs:278-283 | n * sum_sq >= sum^2 over every reward sequence |
| ActivationGate.ClampNeverFires | crates/tb-encode/src/bakeoff.rs:278-283 | for in-band rewards neither saturation nor the clamp changes the variance numerator |
| ActivationGate.UnexploredAboveFloorMeanIff | crates/tb-encode/src/bakeoff.rs:373-391 | whatever the unexplored decisions earn above their floors they sum to the floor mean each, if and only if they fall fairly over the cells |
| ActivationGate.EvenSpreadIsFair | crates/tb-encode/src/bakeoff.rs:373-391 | decisions spread evenly fall fairly |
| ActivationGate.ValueLowerIsSound | crates/tb-encode/src/bakeoff.rs:348-391 | V_lower is at most the policy mean for every completion that falls fairly |
| ActivationGate.LowerIsSoundIff | crates/tb-encode/src/bakeoff.rs:348-391 | for every batch of explored rewards and counts per cell: V_lower is at most the policy mean in all completions exactly when it is with every unexplored decision at its floor |
| ActivationGate.LowerIsSoundIffSlack | crates/tb-encode/src/bakeoff.rs:348-376 | the same in terms of what was computed: the clamp raised it to the worst reward, or the deficit of the uniform floor mean is within what the bound on the explored part and the rounding spare |
| ActivationGate.FairIsSound | crates/tb-encode/src/bakeoff.rs:348-391 | unexplored decisions that fall fairly leave no deficit |
| ActivationGate.SmallDeficitIsSound | crates/tb-encode/src/bakeoff.rs:348-391 | a deficit of at most what some explored reward is above the worst one is harmless |
| ActivationGate.NothingExploredIsSound | crates/tb-encode/src/bakeoff.rs:348-391 | with nothing explored V_lower is always sound |
| ActivationGate.LowerIs | crates/tb-encode/src/bakeoff.rs:376-391 | V_lower is the mean of the two parts, rounded down and kept in the band |
| ActivationGate.NoDecisions | crates/tb-encode/src/bakeoff.rs:348-360 | without decisions the bounds are the ends of the band |
| ActivationGate.ValueUpperIsSound | crates/tb-encode/src/bakeoff.rs:447-466 | V_upper is at least the heuristic mean for every in-band completion |
| ActivationGate.UpperIs | crates/tb-encode/src/bakeoff.rs:447-466 | V_upper exactly: the mean of the resolved labels rounded up, weighted with the best reward for the others and rounded up again |
| ActivationGate.VerdictIs | crates/tb-encode/src/bakeoff.rs:494-515 | the three verdicts, each by an equivalence: nothing to judge by, lead at least the margin, lead below it |
| ActivationGate.GateIsSound | crates/tb-encode/src/bakeoff.rs:494-515 | end to end: a gate that clears implies policy mean - heuristic mean >= margin in exact rationals, for every completion that falls fairly |
| ActivationGate.GateIsSoundIff | crates/tb-encode/src/bakeoff.rs:494-515 | for every batch: the gate clears wrongly for no completion, heuristic, margin and overlap mass if and only if V_lower is sound on it |
| ActivationGate.GateClearsWrongly | crates/tb-encode/src/bakeoff.rs:494-515 | a batch of two explored and a thousand crowded unexplored decisions on which the gate clears at the shipped margin although the policy is ahead by less |
| ActivationGate.OneIsHarmless | crates/tb-encode/src/bakeoff.rs:494-515 | a batch that does not fall fairly and on which the gate is nevertheless never wrong |
| ActivationGate.GateCanClear | crates/tb-encode/src/bakeoff.rs:494-515 | a batch with explored decisions on which the gate clears at the shipped margin and is right |
| Exploration.NestedFloor | crates/tb-encode/src/explore.rs:96-108 | one division by eps_den * m equals two nested floors |
| Exploration.EveryActionStaysPossible | crates/tb-encode/src/explore.rs:76-128 | for 0 < eps < 1 and m >= 2: 1 <= other <= greedy <= 1000 |
| Exploration.PositiveIff | crates/tb-encode/src/explore.rs:76-128 | for every positive epsilon: exactly when a propensity is not zero |
| Exploration.PropensityCanVanish | crates/tb-encode/src/explore.rs:76-128 | an argument list with propensity 0 for the greedy action, and one for another action |
| Exploration.PropensitiesAddUp | crates/tb-encode/src/explore.rs:76-128 | the total exceeds 1000 - m; it is at most 1000 exactly when floor(1000 eps) >= m - 1 |
| Exploration.PropensityIs | crates/tb-encode/src/explore.rs:76-128 | the propensity for all arguments, degenerate ones included, by the inequalities of its two roundings |
| Fnv.StepIsInjective | crates/tb-encode/src/blkfmt.rs:120-145 | one FNV-1a step is injective in the state and in the byte |
| Fnv.HashIsInjective | crates/tb-encode/src/blkfmt.rs:120-145 | different states stay different over any byte string |
| Fnv.OneByteChangesChecksum | crates/tb-encode/src/blkfmt.rs:120-145 | changing one byte changes the checksum, at 64 and at 32 bits |
| Fnv.ChecksumIs | crates/tb-encode/src/blkfmt.rs:114-145 | the checksum of nothing is the offset basis; one more byte goes into the low byte of the state by exclusive or before the multiplication by the prime, at both widths |
| Fnv.ChecksumOfA | crates/tb-encode/src/blkfmt.rs:114-145 | the published values for the string "a" |
| Fnv.Fnv1aLoop | crates/tb-encode/src/blkfmt.rs:120-145 | the accumulator loop computes the checksum that `ChecksumIs` describes |
| DiskFormat.SuperblockRoundTrip | crates/tb-encode/src/blkfmt.rs:246-307 | decoding an encoded superblock gives it back |
| DiskFormat.SuperblockDetectsOneByte | crates/tb-encode/src/blkfmt.rs:246-307 | every single-byte change at any of the 512 positions makes decoding fail |
| DiskFormat.SuperblockLayout | crates/tb-encode/src/blkfmt.rs:246-262 | the superblock byte for byte |
| DiskFormat.SuperblockIff | crates/tb-encode/src/blkfmt.rs:282-307 | which sectors are superblocks, and which fields are read from where |
| DiskFormat.EncodeSuperblock | crates/tb-encode/src/blkfmt.rs:246-263 | fills the sector with the fields and their checksum |
| DiskFormat.DecodeSuperblock | crates/tb-encode/src/blkfmt.rs:282-307 | the byte loop and checks |
| DiskFormat.RecordFrameRoundTrip | crates/tb-encode/src/blkfmt.rs:370-412 | a record frame decodes to its header and payload |
| DiskFormat.RecordFrameDetectsPayload | crates/tb-encode/src/blkfmt.rs:397-412 | a single-byte change is detected exactly in the checksum, in the payload, and in the length field when the declared payload is then too long or has another checksum |
| DiskFormat.FrameLayout | crates/tb-encode/src/blkfmt.rs:370-389 | the record frame byte for byte |
| DiskFormat.FrameIff | crates/tb-encode/src/blkfmt.rs:397-412 | which sectors are record frames, and which fields are read from where |
| DiskFormat.EncodeRecordFrame | crates/tb-encode/src/blkfmt.rs:370-389 | fills the sector, or refuses a payload over 488 bytes and leaves it alone |
| Attest.DecodeOfCanon | crates/tb-encode/src/attest.rs:118-302 | decoding a canonical statement gives it back, with `canon_len` bytes |
| Attest.CanonOfDecode | crates/tb-encode/src/attest.rs:220-302 | any buffer accepted is the canonical encoding, byte for byte, of what was decoded |
| Attest.CanonIsInjective | crates/tb-encode/src/attest.rs:130-192 | no two statements share an encoding |
| Attest.StatementLayout | crates/tb-encode/src/attest.rs:130-192 | a statement byte for byte |
| Attest.DecodeIff | crates/tb-encode/src/attest.rs:220-302 | which buffers decode, and which fields are read from where |
| Attest.RestIsZero | crates/tb-encode/src/attest.rs:256-301 | the lists of a decoded statement have their full length and are zero beyond their counts |
| Attest.Canon | crates/tb-encode/src/attest.rs:130-192 | changes only the first `canon_len` bytes, or nothing when it refuses |
| Attest.DecodeStatement | crates/tb-encode/src/attest.rs:220-302 | the field-by-field decoder loop |
| Pae.DecimalReads | crates/tb-encode/src/attest.rs:320-341 | the decimal denotes the number and has no superfluous leading zero |
| Pae.DecimalIsUnique | crates/tb-encode/src/attest.rs:320-341 | no other digit string without leading zeros does |
| Pae.TenDigits | crates/tb-encode/src/attest.rs:376-380 | the ten-digit limit admits exactly the lengths below 10^10 |
| Pae.PutDecimal | crates/tb-encode/src/attest.rs:320-341 | the backward digit loop writes that decimal in place |
| Pae.DecimalLen | crates/tb-encode/src/attest.rs:355-366 | counts its digits |
| Pae.ParseOfEncoding | crates/tb-encode/src/attest.rs:376-412 | a parser recovers type and body from the pre-authentication encoding of any pair |
| Pae.EncodingIsInjective | crates/tb-encode/src/attest.rs:376-412 | no two pairs share an encoding |
| Pae.EncodingIs | crates/tb-encode/src/attest.rs:376-412 | the encoding in characters: DSSEv1, two lengths, type and body |
| Pae.KnownEncoding | crates/tb-encode/src/attest.rs:376-412 | the test vector of the DSSE protocol |
| Pae.EncodePae | crates/tb-encode/src/attest.rs:376-412 | writes exactly the encoding and its length, or refuses, for a short buffer or a length of 10^10 or more, and changes nothing |
| ElfLoader.ParsePhdrs | tb-vmm/src/loader.rs:142-176 | header checks in order, then one header per entry; the first unreadable one fails the parse |
| ElfLoader.PhdrsIff | tb-vmm/src/loader.rs:142-176 | headers parse exactly when the image is what the loader wants and all entries lie in the file; there are then as many as announced, each read from its own entry |
| ElfLoader.PhdrVerdicts | tb-vmm/src/loader.rs:142-176 | why an image is refused before its entries are read, check by check |
| ElfLoader.SegmentsLand | tb-vmm/src/loader.rs:237-271 | after loading, an address holds the byte of the last segment over it |
| ElfLoader.LoadsIff | tb-vmm/src/loader.rs:237-271 | loading ends without error exactly when every segment to load is consistent, in the file and in RAM |
| ElfLoader.FailsWith | tb-vmm/src/loader.rs:237-271 | a failed load reports the first segment that cannot be loaded and what is wrong with it |
| ElfLoader.ImageEndIsMax | tb-vmm/src/loader.rs:235-271 | `image_end` is the maximum segment end |
| ElfLoader.LoadedImage | tb-vmm/src/loader.rs:231-283 | a successful load: last covering segment at every address (file byte, or zero in the tail), all else unchanged, exact image end |
| ElfLoader.LoadSucceedsIff | tb-vmm/src/loader.rs:231-283 | a load succeeds exactly when something loads, everything fits and some note segment has an entry note with no note segment before it that has one or leaves the file; it enters there |
| ElfLoader.LoadFailsAs | tb-vmm/src/loader.rs:231-283 | which error a failed load reports once its headers parsed |
| ElfLoader.FramedLoadEntersAtFirst | tb-vmm/src/loader.rs:231-283 | with framed notes, it enters at the first entry note of all segments |
| ElfLoader.ScanIsFirst | tb-vmm/src/loader.rs:187-224 | on any bytes the scan gives the first entry note the walk passes |
| ElfLoader.FindsIff | tb-vmm/src/loader.rs:179-227 | on any note segments the search finds the first segment with an entry note, exactly if no segment before it leaves the file |
| ElfLoader.IsEntryIff | tb-vmm/src/loader.rs:211-221 | what an entry note is: the brand's type, "YUVA" with or without a NUL, at least eight bytes of which the first eight are the entry |
| ElfLoader.SearchFailsIff | tb-vmm/src/loader.rs:179-227 | the search fails exactly at a note segment outside the file with no entry before it |
| ElfLoader.LoadKernel | tb-vmm/src/loader.rs:231-283 | the loop over guest RAM, with its error exits |
| ElfLoader.NoteReads | tb-vmm/src/loader.rs:187-213 | a note in System V framing reads back at any offset |
| ElfLoader.ScanFindsFirst | tb-vmm/src/loader.rs:187-224 | scanning a segment of framed notes finds the first entry note |
| ElfLoader.FindsFirstNote | tb-vmm/src/loader.rs:179-227 | over any number of note segments the search returns the first matching note of all, or None |
| ElfLoader.ScanSegment | tb-vmm/src/loader.rs:187-224 | the note loop terminates in bounds on any bytes |
| ElfLoader.FindTbEntry | tb-vmm/src/loader.rs:179-227 | the search over the note segments |
| BootNote.ReadersAgreeIff | crates/tb-boot/src/lib.rs:437-456 | loader and shared extractor agree on a note exactly unless its name goes on after the first NUL; what the loader takes the extractor takes with the same entry |
| BootNote.ReadersCanDiffer | crates/tb-boot/src/lib.rs:437-456 | a note on which they differ |
| BootNote.NoteVerdicts | crates/tb-boot/src/lib.rs:437-456 | the extractor's verdict on any note |
| DeviceBus.RunIsSound | tb-vmm/src/device.rs:74-92 | every run of registrations keeps entries non-empty, and disjoint while all end below 2^64 |
| DeviceBus.LookupIsScanIff | tb-vmm/src/device.rs:95-102 | in every reachable state, predecessor lookup finds the unique containing entry at all addresses exactly when every entry ends below 2^64 |
| DeviceBus.RegisterIsScanIff | tb-vmm/src/device.rs:74-92 | and the neighbour-only check accepts exactly the non-empty ranges that meet no entry, under the same condition |
| DeviceBus.InSpaceIff | tb-vmm/src/device.rs:74-92 | the condition holds exactly when every accepted request ended below 2^64 |
| DeviceBus.TopRangeIsLost | tb-vmm/src/device.rs:74-102 | a range ending at 2^64 is accepted, not found at its own base, and then overlapped |
| DeviceBus.RegisterVerdicts | tb-vmm/src/device.rs:74-92 | an empty range, an overlap, or the bus with just this entry added |
| DeviceBus.HoldsTheAccepted | tb-vmm/src/device.rs:74-92 | the bus holds exactly the accepted requests, each with its length and device under its base |
| DeviceBus.LookupIsTheRequest | tb-vmm/src/device.rs:95-102 | an address is answered by the accepted request that covers it |
| DeviceBus.Bus.Register | tb-vmm/src/device.rs:74-92 | inserts, or refuses and changes nothing |
| DeviceBus.Bus.Read | tb-vmm/src/device.rs:106-114 | reaches only the claiming device, at the relative offset; unclaimed reads are all ones |
| DeviceBus.Bus.Write | tb-vmm/src/device.rs:117-124 | reaches only the claiming device; unclaimed writes are dropped |
| BootHandoff.RegionRoundTrip | crates/tb-boot/src/lib.rs:208-234 | a region reads back, whatever follows it |
| BootHandoff.RegionBytesRead | crates/tb-boot/src/lib.rs:208-234 | and has one encoding |
| BootHandoff.RegionLayout | crates/tb-boot/src/lib.rs:208-215 | a region byte for byte |
| BootHandoff.RegionsRoundTrip | crates/tb-boot/src/lib.rs:249-280 | iterating over a packed array gives the regions back |
| BootHandoff.RegionsCount | crates/tb-boot/src/lib.rs:252-267 | the iterator yields as many regions as asked for or as the buffer holds |
| BootHandoff.Regions.Next | crates/tb-boot/src/lib.rs:252-261 | yields the next region, or ends |
| BootHandoff.Regions.SizeHint | crates/tb-boot/src/lib.rs:263-267 | the hint is exact |
| BootHandoff.InfoRoundTrip | crates/tb-boot/src/lib.rs:360-422 | the root structure reads back; it validates exactly with the contract's magic and version |
| BootHandoff.InfoBytesRead | crates/tb-boot/src/lib.rs:379-415 | and has one encoding |
| BootHandoff.InfoLayout | crates/tb-boot/src/lib.rs:379-390 | the root structure byte for byte |
| BootHandoff.ReadVerdicts | crates/tb-boot/src/lib.rs:398-422 | the verdict of the validating reader on any buffer |
| BootHandoff.InfoToBytes | crates/tb-boot/src/lib.rs:379-390 | fills the 56-byte form |
| BootProducer.BuildsIff | crates/tb-boot/src/aarch64.rs:216-230 | Ok exactly for at most 82 regions, a command line of at most 518143 bytes and RAM for both; which error otherwise |
| BootProducer.HandoffRoundTrip | crates/tb-boot/src/aarch64.rs:216-264 | from X0 the validating reader gets a structure with the flags, entry and counts that were passed in and the contract's magic, version and addresses; through it the regions and the NUL-terminated command line; the other registers hold the contract's values |
| BootProducer.BuildSparesTheRest | crates/tb-boot/src/aarch64.rs:232-250 | whatever the outcome, no byte outside the block changes |
| BootProducer.ImageIsSpared | crates/tb-boot/src/aarch64.rs:216-250 | nothing at or above the kernel image address is ever written |
| BootProducer.BuildHandoffFlagged | crates/tb-boot/src/aarch64.rs:216-264 | the in-place producer, flags included |
| BootProducer.WriteInto | crates/tb-boot/src/aarch64.rs:177-190 | a bounds-checked copy that writes all or nothing |

## Left out

- VirtioKicks.KickMirrorsRings: needs the driver to keep used rings in RAM and device writes out of the avail rings and the posted receive descriptors; that a used ring mirrors its avail ring is not claimed of other layouts. Ending needs less, see `VirtioEnds`.
- VirtioEnds.KicksEnd: the condition on registers and posted chains is sufficient only; the exact one, `TxEndsIffSettles` and `RxEndsIffSettles`, speaks of the passes themselves.
- VirtioDelivery.TransmitKickDelivers: needs the used rings and receive buffers to keep off what the kick reads, and the receive used ring in RAM.
- VirtioMmio.VirtioMmio.Notify: asks that the kick come to an end, which is all a terminating method can ask, and so do `ProcessTx`, `DrainRx` and `WriteReg`; the stream theorems over single passes do not need it.
- VirtioMmio.VirtioMmio.WriteReg: the width check of bus accesses is not modelled, and interrupts are never raised.
- VirtioDriver.ExchangeDelivers: the driver's loop that posts the buffer again after a partial answer is not modelled; each of its kicks is covered by `ReceiveKickFills`.
- VirtioKicks.RxPassAdvances: the published length is the byte count modulo 2^32, as in the code.
- InferPeer.DeliveredAreAnswers: message authentication, key reveal, witness lines and the choice of answer in the peer are behind the abstract answer function.
- ChunkAssembly.FeedIs: the digest is any function, so nothing is said about collisions.
- ActivationGate.EbBelowMean: the code divides by n * n and truncates once, so no claim is made that the bound lies below the Maurer-Pontil bound, or about confidence levels; at n = 1 it is not raised to `lo`.
- ActivationGate.GateIsSound: the counts of unexplored decisions per cell are not an input of the code, so the gate itself can test neither whether they fall fairly nor the exact condition.
- DiskFormat.RecordFrameDetectsPayload: for the length field the condition compares checksums of two stretches of the sector; when those collide is not characterised further.
- ElfLoader.LoadKernel: explanatory strings in errors are dropped.
- DeviceBus.Bus.Read: mutex poisoning is not modelled; a device's handlers are arbitrary functions of its state.
- Block request headers, region extents and episode bodies of `blkfmt.rs`, the error payload of `inferwire.rs`, and the strongly typed memory kinds of `tb-boot`: small fixed mappings that would add only easy members.
- Kernel self-tests, KVM setup, page tables, the serial port, option parsing and report printing: input and output around the modelled logic.
- The scoring network, the provenance fold and the keyed hash: their strength is not a property of this code.
