# Verified models of the firmware core

This project models nine components of the firmware and proves what they are relied on for. Each
component is a module or a few of them. Code that updates objects in place is modelled as classes and
methods with loops and proved against a specification; what the specification promises is then proved
by lemmas over all inputs, all runs or all reachable states. `dafny verify dfyconfig.toml` checks the
whole project.

## What is modelled

**MDF block layout** (`DepthFirst`, `MdfBlocks`, `MdfHeader`). The blocks of an MDF file form a graph that
may have cycles. Resetting, resolving addresses and writing are three traversals with three different
"visited" marks. All three are proved to follow one depth-first order, which is proved to hold exactly the
blocks reachable outside the marked ones, each once. Addresses and bytes therefore tile the file, and
rewriting one block changes no other.

**Image identity** (`ImageIdentity`, `SignedImage`, `ImageCollector`). The collector that keeps a 128-byte window
behaves as a reference that keeps every byte, and the reference decides from the received prefix alone, whatever
the chunks. What it decides is stated from the side of the signing step: images are written out field by field, and
every image gets the decision that its fields call for.

**Image confirmation** (`DfuStates`, `ConfirmationSteps`, `ImageConfirmation`, `WorkQueueProbe`). Two models of
`Tick()` and `ReportBootComplete()`: one with every load, store, exchange and call as its own step, for what
holds under every interleaving, and one with each call as one step, for the timing on the wrapping clock. A call
that nothing interrupts is proved to do the same in both.

**CAN filter registry** (`CanFilter`, `CanRegistry`, `Canbus`). The two-part index (a map of exact entries and
the mask slots) refines a table of pairwise disjoint filters. What a registration is answered with is stated by the
identifiers that filters accept. Dispatch is proved for handlers that register and remove handlers while they are
called.

**Asset files** (`Assets`, `AssetReader`, `AssetWriter`). The block cache and the staged write over stubs of the file
system in which every call may fail.

**ADC sampling** (`ChannelMask`, `AdcSamples`, `Adc`). The scan over a channel mask, the fallback channel by
channel, and the sums in 32-bit accumulators, over a driver stub that may fail any call.

**Cubic spline** (`CubicSpline`). The Thomas algorithm and the evaluation, on real numbers, against the
textbook definition of the natural spline.

**Sensors configuration in CBOR** (`CborItems`, `CborSensors`, `CborFormat`, `CborRoundTrip`, `CborSize`,
`CborEncoder`, `CborDecoder`). The encoder, the decoder and the size function; the primitives follow RFC 8949,
sections 3.1, 3.2.2 and 4.1. `CborFormat` writes the standard's trees of items down on its own, and the encoder is
proved to write the tree of the configuration.

**Small helpers** (`AcceptanceCache`, `EmaFilter`). A sorted-array cache against the history of its calls, and
the integer filter with error feedback, on unbounded integers and on a fixed width.

## What the proofs found

- `Reset()` stops at a block that is clean already. A call leaves everything that can be reached clean exactly
  when every dirty block that can be reached could be reached along dirty blocks alone (`ResetCleansIff`,
  `CleanableIff`). A header that was resolved is in that state, and stays in it under edits that add fresh blocks
  or drop links to blocks without links, such as appended channels and replaced comments, also where such a block
  is shared and another block that had links leads to it (`ResolvedIsCleanable`, `EditedIsCleanable`). The block
  classes allow one edit that leaves it: after a write that failed, a conversion replaced by a fresh one that shares the text
  block of the old one. The text block then keeps its address and its write mark (`ResetStopsAtCleanBlock`).
- A block lands at its address in the file exactly when every block before the last one serializes to as
  many bytes as its length field says (`LandingIffSizesMatch`).
- The image can be confirmed on a tick that judged no probe. For deadlines and delays of at most 2^31 ms,
  `UncheckedConfirmIff` gives the exact condition on the start: the image may confirm itself, is not confirmed
  already, and the confirm delay ends before the boot deadline. It takes a `ReportBootComplete()` that is held up
  for the whole delay between reading the clock and publishing CONFIRMING (`HeldUpReportSkipsProbes`). With a delay
  that ends later, still of at most 2^31 ms, every confirmation judged the probes and found that they all ran
  (`LongDelayJudgesProbes`).
- A delay of more than 2^31 ms counts as passed at once (`PassedAtOnceIff`).
- Over any run, `Check()` stays right about the latest post exactly when no `Arm()` falls into a running handler
  (`StaysSoundIffUndisturbed`); a probe that is armed then answers for the previous post
  (`ArmDuringHandlerIsUnsound`). The image confirmation never does that (`EntryIsDisciplined`).
- The computed CBOR size bounds the canonical form too. The only exception in the arithmetic needs more than 65535
  sensors that all have more than 65535 points (`SizeBoundsDefiniteFormIff`), and no configuration whose encoding
  fits 32-bit sizes is that large (`SizeBoundsDefiniteFormInMemory`), so the code never meets it.
- With a shift below the width, the integer filter agrees with its unbounded form exactly when the sum fits the
  type; on an unsigned type an output that should fall jumps up (`NarrowAgreesIff`, `UnsignedJumps`). On types
  narrower than 32 bits longer shifts are defined too; with one an unsigned output never changes (`UnsignedStands`).

## Model

| member | source | states |
|---|---|---|
| DepthFirst.VisitIsReachability | src/subsys/mdf/serializable_block_base.cpp:15-38 | On any finite graph, cycles included, the traversal meets exactly the nodes reachable along unmarked nodes, each once |
| DepthFirst.VisitCloses | src/subsys/mdf/serializable_block_base.cpp:88-107 | Every link of a met node leads to a met or a previously marked node |
| DepthFirst.VisitIgnoresOthers | src/subsys/mdf/mdf4_file.cpp:392-399 | Marks on blocks the traversal does not reach leave its order as it is, which is why two calls on separate parts compose |
| MdfBlocks.VisitIsSubtreeThenChain | src/subsys/mdf/serializable_block_base.cpp:15-22 | Looping over the chain of next links after the children gives the same order as the recursion |
| MdfBlocks.Block.ResolveAddress | src/subsys/mdf/serializable_block_base.cpp:88-95 | Terminates on cycles; lays the blocks of the depth-first order out without gaps from the given address, touches no other block, and returns the end |
| MdfBlocks.Block.ResolveBlockAddress | src/subsys/mdf/serializable_block_base.cpp:97-107 | The same for a block and its children without the chain after it |
| MdfBlocks.Block.WriteToStream | src/subsys/mdf/serializable_block_base.cpp:15-22 | Writes the bytes of the same order one after the other; succeeds exactly when they fit; marks exactly those blocks; returns their length |
| MdfBlocks.Block.WriteBlockToStream | src/subsys/mdf/serializable_block_base.cpp:24-38 | The same for a block and its children without the chain after it |
| MdfBlocks.Block.WriteBlockData | src/subsys/mdf/serializable_block_base.cpp:109-116 | Reports a short write exactly when the bytes do not fit |
| MdfBlocks.Block.RewriteToStream | src/subsys/mdf/serializable_block_base.cpp:40-57 | Each of the refusals exactly in its case; otherwise overwrites at the block's address |
| MdfBlocks.Block.Reset | src/subsys/mdf/serializable_block_base.cpp:67-76 | Terminates on cycles; clears both marks of exactly the blocks reachable through dirty blocks |
| MdfBlocks.Block.ResetBlock | src/subsys/mdf/serializable_block_base.cpp:78-86 | The same for a block and its children without the chain after it |
| MdfHeader.LandingIffSizesMatch | src/subsys/mdf/serializable_block_base.cpp:24-38 | All blocks land at their addresses if and only if every block but the last serializes to its block size |
| MdfHeader.LaidOutAndWrittenTiles | src/subsys/mdf/mdf4_file.cpp:395-399 | Laid out and written in one order, the blocks tile the file: each at its address, no gap, no overlap |
| MdfHeader.RewriteKeepsOthers | src/subsys/mdf/serializable_block_base.cpp:40-57 | Writing a block again with as many bytes replaces it and changes the bytes of no other block |
| MdfHeader.EndsFileIffLast | src/subsys/mdf/mdf4_file.cpp:401-403 | The data block's end is the number of bytes written if and only if it is the last block of the order |
| MdfHeader.CleanableIff | src/subsys/mdf/serializable_block_base.cpp:67-86 | The traversal of a reset covers every dirty block that can be reached if and only if each can be reached along dirty blocks alone |
| MdfHeader.ResetCleansIff | src/subsys/mdf/serializable_block_base.cpp:67-86 | A call of Reset leaves both marks clear on everything that can be reached if and only if every dirty block that can be reached could be reached along dirty blocks alone |
| MdfHeader.AllDirtyOrAllCleanIsCleanable | src/subsys/mdf/serializable_block_base.cpp:67-86 | So do a graph that is dirty as a whole and one that is clean as a whole |
| MdfHeader.ReusedBehindAddedIsNotCleanable | src/subsys/mdf/serializable_block_base.cpp:67-86 | A clean block on the only way to a dirty one keeps a reset from it |
| MdfHeader.ResetStopsAtCleanBlock | src/subsys/mdf/serializable_block_base.cpp:67-86 | Reset called on such blocks leaves both marks of the one behind as they were |
| MdfHeader.EditedIsCleanable | src/subsys/mdf/mdf4_file.cpp:84-143 | After edits that add fresh blocks, or drop links to blocks without links that are not reached any more or are linked from another block as well, the next reset still cleans the whole header |
| MdfHeader.ResolvedIsCleanable | src/subsys/mdf/mdf4_file.cpp:392-396 | After addresses were resolved, the next reset cleans the whole header, so a later write starts fresh |
| MdfHeader.Mdf4File.ResetAll | src/subsys/mdf/mdf4_file.cpp:392-393 | Both marks of every block of the header are cleared, from the states that CleanableIff characterises |
| MdfHeader.Mdf4File.ResolveAll | src/subsys/mdf/mdf4_file.cpp:395-396 | Every block's address is the sum of the sizes of the blocks before it, id block first |
| MdfHeader.Mdf4File.WriteAll | src/subsys/mdf/mdf4_file.cpp:398-399 | The file is the concatenation of the blocks in that same order, or the write failed for lack of room |
| MdfHeader.Mdf4File.WriteHeaderToStream | src/subsys/mdf/mdf4_file.cpp:392-405 | When each outcome occurs; that a written header is laid out and written in the same order; that the data block is the last block exactly when the header is accepted; and that after any outcome the header can be written again |
| MdfHeader.RewriteInHeader | src/subsys/mdf/serializable_block_base.cpp:40-57 | Rewriting a block of a written header, records behind it included, changes that block's bytes only and is never short |
| ImageIdentity.Create | src/subsys/dfu/image_identity.h:56-72 | An identity if and only if the board is at most 116 printable ASCII characters; then exactly that product and board |
| ImageIdentity.Encode | src/subsys/dfu/image_identity.cpp:43-55 | Writes exactly the encoding and nothing past it, or nothing when it does not fit |
| ImageIdentity.ParseInvertsEncode | src/subsys/dfu/image_identity.cpp:29-55 | Parsing an encoding gives the identity back |
| ImageIdentity.EncodeInvertsParse | src/subsys/dfu/image_identity.cpp:29-55 | A value that parses is the encoding of what it parses to |
| ImageIdentity.ParseHeader | src/subsys/dfu/image_identity.cpp:100-128 | An accepted header has a non-empty area of at most 128 bytes behind the header and inside the declared size |
| ImageIdentity.DecisionStands | src/subsys/dfu/image_identity.cpp:168-189 | A decision is the same for every longer prefix |
| ImageIdentity.WholeImageIsDecided | src/subsys/dfu/image_identity.cpp:100-189 | A whole image of at least 32 bytes is never left at NEED_MORE |
| ImageIdentity.MatchIffCarriesOwn | src/subsys/dfu/image_identity.cpp:100-166 | MATCH if and only if header, area and TLV chain are in order and the only identity TLV is the unit's own encoding |
| SignedImage.WrittenTlvsAreRead | src/subsys/dfu/image_identity.cpp:134-159 | TLVs written one after the other, each as kind, length and value, are read back as those TLVs |
| SignedImage.ReadTlvsWereWritten | src/subsys/dfu/image_identity.cpp:134-159 | Whatever is read as TLVs was written that way |
| SignedImage.HeaderIsRead | src/subsys/dfu/image_identity.cpp:100-128 | The area of a signed image is found behind its header and its payload, whatever their sizes |
| SignedImage.ReadImageWasSigned | src/subsys/dfu/image_identity.cpp:100-159 | An image whose header, area and TLVs are in order was written as a signed image |
| SignedImage.IdentifiedIsDecided | src/subsys/dfu/image_identity.cpp:57-65 | An image signed with one identity is a MATCH, WRONG_PRODUCT or WRONG_BOARD by comparing product, then board |
| SignedImage.UnidentifiedIsDecided | src/subsys/dfu/image_identity.cpp:161-162 | A signed image without an identity is NO_IDENTITY |
| SignedImage.UnclearIsRefused | src/subsys/dfu/image_identity.cpp:147-156 | A signed image with a malformed identity or with two is BAD_IDENTITY |
| SignedImage.UnsignedIsRefused | src/subsys/dfu/image_identity.cpp:100-132 | Any other image is BAD_IDENTITY, or NO_IDENTITY when its header declares that it has no area |
| SignedImage.DecidedFromAreaEnd | src/subsys/dfu/image_identity.cpp:168-189 | An upload is undecided before the end of the protected TLVs, and decided for good from there on |
| SignedImage.DecisionIsByContent | src/subsys/dfu/image_identity.cpp:100-166 | Each decision on a whole image if and only if the image was written with the content that calls for it |
| ImageCollector.UploadDecides | src/subsys/dfu/image_identity.cpp:168-189 | After any chunks without a gap, re-sends included, the decision is the one-shot decision on the received prefix |
| ImageCollector.UploadsAgree | src/subsys/dfu/image_identity.cpp:168-189 | Two uploads of an image that came equally far decided the same, whatever the collector saw before |
| ImageCollector.WholeUploadMatchesIff | src/subsys/dfu/image_identity.cpp:130-189 | Under every chunking a whole image matches if and only if it carries the unit's own identity and no second one |
| ImageCollector.FeedUpload | src/subsys/dfu/image_identity.cpp:168-189 | The collector fed an upload chunk by chunk, whatever it held before, gives the one-shot decision on the received prefix; for a whole image each decision if and only if the image was signed with the content that calls for it |
| ImageCollector.Collector.Feed | src/subsys/dfu/image_identity.cpp:168-189 | The collector with its window moves exactly as the reference that keeps all bytes; a gap or an overrun is BAD_IDENTITY, and a decision is kept until a chunk at offset 0 |
| ImageCollector.Collector.Accept | src/subsys/dfu/image_identity.cpp:179-188 | The same for a chunk that is in place, through the change from header to area within one chunk |
| ImageCollector.Collector.CopyToWindow | src/subsys/dfu/image_identity.cpp:85-94 | The window mirrors its part of the image after every chunk |
| ImageCollector.Collector.ParseWindowHeader | src/subsys/dfu/image_identity.cpp:100-128 | Refuses and places the window as the header says |
| ImageCollector.Collector.ParseTlvs | src/subsys/dfu/image_identity.cpp:130-166 | The loop decides as the recursive reading of the whole area does |
| ImageCollector.Collector.Reset | src/subsys/dfu/image_identity.cpp:70-76 | Starts over |
| ConfirmationSteps.RunKeepsInvariant | src/subsys/dfu/image_confirmation.cpp:152-240 | The step invariant holds in every interleaving of ticks, reports, a client's confirm and time |
| ConfirmationSteps.ConfirmedIsFinal | src/subsys/dfu/image_confirmation.cpp:76-79 | CONFIRMED is never left, and implies that the bootloader reports the image confirmed |
| ConfirmationSteps.FailedIsLeftWhenConfirmed | src/subsys/dfu/image_confirmation.cpp:184-192 | FAILED is left only for CONFIRMED, by a tick that found the image confirmed meanwhile |
| ConfirmationSteps.FeedsAfterFailed | src/subsys/dfu/image_confirmation.cpp:196-219 | No feed after a tick stored FAILED; at most one, by the tick in flight, after a report stored it |
| ConfirmationSteps.FeedsAreCounted | src/subsys/dfu/image_confirmation.cpp:216-219 | The count that the row above bounds goes up by one with every feed and with nothing else |
| ConfirmationSteps.ConfirmIsGated | src/subsys/dfu/image_confirmation.cpp:207-233 | Confirm() only when allowed, after a report in time, once the delay passed, and with the probes judged and all of them run unless the report was held up for the whole delay |
| ConfirmationSteps.UncheckedConfirmIff | src/subsys/dfu/image_confirmation.cpp:152-240 | From a given start some interleaving confirms the image without judging a probe if and only if it may confirm itself, is not confirmed, and the delay ends before the deadline |
| ConfirmationSteps.LongDelayJudgesProbes | src/subsys/dfu/image_confirmation.cpp:207-233 | With a delay that does not end before the deadline every confirmation judged the probes and found that they all ran |
| ConfirmationSteps.HeldUpReportSkipsProbes | src/subsys/dfu/image_confirmation.cpp:157-171 | The interleaving that does so, from any start clock, with or without a watchdog |
| ConfirmationSteps.UndisturbedTick | src/subsys/dfu/image_confirmation.cpp:175-240 | A Tick() that nothing interrupts feeds and calls Confirm() exactly under its guards and leaves the state that one call leaves |
| ConfirmationSteps.UndisturbedReport | src/subsys/dfu/image_confirmation.cpp:152-171 | A report that nothing interrupts stores FAILED from the deadline on, and before it CONFIRMING with the end of the delay |
| ImageConfirmation.ReachedAgrees | src/subsys/dfu/image_confirmation.cpp:33-40 | The wrapping comparison agrees with the unbounded clock exactly while the distance fits 31 bits |
| ImageConfirmation.AgeAgrees | src/subsys/dfu/image_confirmation.cpp:101-103 | The wrapping age is the real age for less than 2^32 ms |
| ImageConfirmation.PassedAtOnceIff | src/subsys/dfu/image_confirmation.cpp:138-138 | A delay has passed the moment it starts if and only if it is 0 or more than 2^31 ms |
| ImageConfirmation.ImageConfirmation.constructor | src/subsys/dfu/image_confirmation.cpp:126-144 | The state and the watchdog after Initialize(), for every outcome of the watchdog calls |
| ImageConfirmation.ImageConfirmation.AddProbe | src/subsys/dfu/image_confirmation.cpp:146-150 | A new probe is not posted, and disturbs no wait |
| ImageConfirmation.ImageConfirmation.QueueRuns | src/subsys/dfu/work_queue_probe.cpp:17-20 | A posted probe that its queue runs no longer counts as waiting |
| ImageConfirmation.ImageConfirmation.ReportBootComplete | src/subsys/dfu/image_confirmation.cpp:152-173 | FAILED at or after the deadline, else CONFIRMING with the end of the delay; nothing in other states |
| ImageConfirmation.ImageConfirmation.DisableWatchdog | src/subsys/dfu/image_confirmation.cpp:60-74 | Feeds first; the watchdog stays armed exactly when it cannot be disabled |
| ImageConfirmation.ImageConfirmation.StandDown | src/subsys/dfu/image_confirmation.cpp:76-79 | A tick that finds the image confirmed: CONFIRMED, with the feed before the disable |
| ImageConfirmation.ImageConfirmation.CheckAndRearmProbes | src/subsys/dfu/image_confirmation.cpp:81-124 | Healthy exactly when no posted probe waited its time; all ran exactly when each ran since its latest post; a waiting probe is left alone, every other is posted anew and outstanding |
| ImageConfirmation.ImageConfirmation.Judge | src/subsys/dfu/image_confirmation.cpp:207-214 | Unhealthy probes fail the image; otherwise every wait is still shorter than allowed on the real clock; whichever probe ran or was never posted is outstanding since this tick |
| ImageConfirmation.ImageConfirmation.TickUndecided | src/subsys/dfu/image_confirmation.cpp:207-240 | The part of a tick from the probes on |
| ImageConfirmation.ImageConfirmation.ConfirmIfDue | src/subsys/dfu/image_confirmation.cpp:221-240 | The part of a tick after the feed: calls Confirm() exactly under its guards, and switches the watchdog off only after a confirmation |
| ImageConfirmation.ImageConfirmation.Tick | src/subsys/dfu/image_confirmation.cpp:175-240 | Feeds exactly when it gets that far, calls Confirm() exactly under its guards, and the whole state it leaves, probes and posts included; with punctual ticks FAILED exactly when on the real clock the deadline is over or a posted probe waited half the watchdog timeout |
| ImageConfirmation.ImageConfirmation.ConfirmInIsTimeLeft | src/subsys/dfu/image_confirmation.cpp:268-275 | The reported time is the real time left, and 0 afterwards |
| ImageConfirmation.ImageConfirmation.ConfirmsInRealTime | src/subsys/dfu/image_confirmation.cpp:221-240 | When Confirm() is called the report was in time, the delay has really passed and every probe ran since its latest post |
| ImageConfirmation.ImageConfirmation.FeedsInRealTime | src/subsys/dfu/image_confirmation.cpp:81-124 | With punctual ticks, a tick gets as far as the feed if and only if the deadline is not over, or no posted probe waited half the watchdog timeout, on the real clock |
| ImageConfirmation.ImageConfirmation.ConfirmsInTimeIff | src/subsys/dfu/image_confirmation.cpp:221-234 | Up to 2^31 ms after its end, Confirm() is called if and only if the delay is over on the real clock and every probe ran since its latest post |
| ImageConfirmation.HungQueueFailsTheImage | src/subsys/dfu/image_confirmation.cpp:81-124 | Over any run of ticks, reports, added probes and other queues' work: once a posted probe's queue hangs no tick confirms the image, and from half the watchdog timeout on no tick feeds and the image has failed |
| ImageConfirmation.ImageConfirmation.WatchdogExpiresInTime | src/subsys/dfu/image_confirmation.cpp:86-121 | While a probe posted at a is outstanding and the image unconfirmed, every feed after a is before a + timeout/2, and from a + timeout/2 + timeout on every feed, of any kind, is a timeout or longer ago |
| WorkQueueProbe.DisciplinedCheckIsSound | src/subsys/dfu/work_queue_probe.cpp:17-30 | Armed only after a true Check(), a true Check() is for the latest post in every interleaving |
| WorkQueueProbe.FreshProbeIsSound | src/subsys/dfu/work_queue_probe.cpp:5-30 | That holds in every such run of a new probe |
| WorkQueueProbe.UndisturbedCheckIsSound | src/subsys/dfu/work_queue_probe.cpp:17-30 | Otherwise too, while no Arm() falls into a running handler |
| WorkQueueProbe.StaysSoundIffUndisturbed | src/subsys/dfu/work_queue_probe.cpp:17-30 | Over a whole run a true Check() stays right, also with the handler's store next, if and only if no Arm() falls into a running handler |
| WorkQueueProbe.StoreIsSoundIff | src/subsys/dfu/work_queue_probe.cpp:17-20 | The handler's store answers for the latest post if and only if no Arm() came since the handler started |
| WorkQueueProbe.ArmDuringHandlerIsUnsound | src/subsys/dfu/work_queue_probe.cpp:17-30 | A run of a new probe after which a true Check() is for an older post |
| WorkQueueProbe.PostIsAnswered | src/subsys/dfu/work_queue_probe.cpp:17-30 | Left to itself a post is answered, by the handler running once for it, and the probe can be armed again |
| WorkQueueProbe.EntryIsDisciplined | src/subsys/dfu/image_confirmation.cpp:91-110 | The image confirmation arms an entry's own probe only for the first time or after a true Check(), however its ticks and the queue interleave |
| WorkQueueProbe.EntryCheckIsSound | src/subsys/dfu/image_confirmation.cpp:105-110 | So a true Check() in the confirmation is always for the latest post |
| WorkQueueProbe.EntryPostIsAnswered | src/subsys/dfu/image_confirmation.cpp:91-110 | A tick posts an entry that was never posted or ran since, and its queue answers that post |
| CanFilter.KeyIsInjective | src/subsys/canbus/can_id.h:41-44 | The key tells all valid identifiers of both formats apart |
| CanFilter.OverlapsIffCommonId | src/subsys/canbus/can_filter.h:59-62 | Two valid filters overlap if and only if some valid identifier passes both |
| CanFilter.OverlapIsSymmetric | src/subsys/canbus/can_filter.h:59-62 | Overlap does not depend on the order |
| CanFilter.NormalizedAcceptsTheSame | src/subsys/canbus/can_filter.h:49-57 | Normalizing changes no answer and is idempotent |
| CanFilter.MatchesIffBitsAgree | src/subsys/canbus/can_filter.h:54-57 | An identifier passes if and only if its format is the filter's and every bit of the mask has the same value in both |
| CanFilter.NormalizedClearsOutside | src/subsys/canbus/can_filter.h:49-52 | Normalizing clears exactly the bits outside the mask and keeps mask and format |
| CanFilter.SameNormalizedIff | src/subsys/canbus/can_filter.h:49-52 | Two valid filters have the same normalized form if and only if they accept the same identifiers |
| CanFilter.ExactIffOne | src/subsys/canbus/can_filter.h:44-47 | A valid filter is exact if and only if it accepts no identifier but its own |
| CanFilter.ValidIffFits | src/subsys/canbus/can_filter.h:39-42 | An identifier or a mask is valid if and only if it is below 2^11, or 2^29 when extended |
| CanFilter.ExactMatchesOnlyItself | src/subsys/canbus/can_filter.h:44-57 | A valid exact filter accepts its own identifier and no other |
| CanRegistry.RegisterChanges | src/subsys/canbus/canbus.cpp:404-443 | A failed registration leaves the table as it was; a successful one adds exactly one new handler under a new id |
| CanRegistry.RegisterKeepsSound | src/subsys/canbus/canbus.cpp:400-443 | Stored filters stay normalized and pairwise disjoint, within the limits, and no entry is left without handlers |
| CanRegistry.RegisterOutcome | src/subsys/canbus/canbus.cpp:381-443 | Each error if and only if its case, in terms of accepted identifiers: overlap when a stored filter shares an identifier and none accepts the same ones |
| CanRegistry.SecondSpellingJoins | src/subsys/canbus/canbus.cpp:402-424 | A filter that accepts the same identifiers as a stored one, however spelled, joins that entry when there is room and a hardware filter |
| CanRegistry.NewFilterIsAdded | src/subsys/canbus/canbus.cpp:404-442 | A filter that shares no identifier gets an entry of its own with that one handler, or leaves the table as it was when the hardware rejects it |
| CanRegistry.RemoveKeepsSound | src/subsys/canbus/canbus.cpp:577-599 | The same after a removal, which removes that handler and no other |
| CanRegistry.RemoveTakesFromOwnEntry | src/subsys/canbus/canbus.cpp:577-599 | A removal takes the handler from its own entry, which goes with its last one, and changes no other entry and no hardware filter |
| CanRegistry.OwnerIsUnique | src/subsys/canbus/canbus.cpp:473-484 | Every identifier matches at most one entry |
| CanRegistry.GoneStaysGone | src/subsys/canbus/canbus.cpp:423-424 | Handler ids are never reused, whatever is registered and removed after |
| CanRegistry.SnapshotIsOwned | src/subsys/canbus/canbus.cpp:694-703 | The snapshot holds all handlers of all entries that accept the identifier |
| CanRegistry.CalledAreOfSnapshot | src/subsys/canbus/canbus.cpp:685-716 | A dispatch calls handlers present at its start only, each at most once |
| CanRegistry.CalledIffRegisteredAtTurn | src/subsys/canbus/canbus.cpp:705-715 | A handler of the snapshot is called if and only if it is still registered at its turn |
| Canbus.Canbus.Initialize | src/subsys/canbus/canbus.cpp:91-116 | Which flags each outcome of the configuration leaves; the table starts empty and handler ids go on |
| Canbus.Canbus.Stop | src/subsys/canbus/canbus.cpp:903-930 | The table is cleared exactly when the device could be stopped or was not initialized |
| Canbus.Canbus.ClearEntries | src/subsys/canbus/canbus.cpp:570-575 | Both parts of the index are empty and fit the empty table |
| Canbus.Canbus.FindEntry | src/subsys/canbus/canbus.cpp:445-457 | The entry of a filter, from either part of the index, if and only if there is one |
| Canbus.Canbus.FindEntryByHandler | src/subsys/canbus/canbus.cpp:459-471 | An entry with the handler, if and only if it is registered |
| Canbus.Canbus.FindMatchingEntry | src/subsys/canbus/canbus.cpp:473-484 | An entry that accepts the identifier, if and only if there is one |
| Canbus.Canbus.CreateEntry | src/subsys/canbus/canbus.cpp:486-498 | Adds an empty entry unless it needs a slot and none is free |
| Canbus.Canbus.UpdateEntry | src/subsys/canbus/canbus.cpp:423-424 | Changes the entry of one filter in its place in the index |
| Canbus.Canbus.EraseEntry | src/subsys/canbus/canbus.cpp:500-510 | Removes exactly that filter's entry |
| Canbus.Canbus.HasOverlapIsTaken | src/subsys/canbus/canbus.cpp:512-521 | The search over both parts finds an overlap exactly when some stored filter overlaps |
| Canbus.Canbus.RegisterHandler | src/subsys/canbus/canbus.cpp:381-443 | Which error each call gives, overlap exactly by accepted identifiers; that a second spelling of a stored filter joins its entry; and that the index follows the registry |
| Canbus.Canbus.AddHandler | src/subsys/canbus/canbus.cpp:404-443 | The part for a valid filter is the registry's registration |
| Canbus.Canbus.AddToEntry | src/subsys/canbus/canbus.cpp:418-442 | Adds the handler and installs the hardware filter, or undoes both |
| Canbus.Canbus.RemoveHandler | src/subsys/canbus/canbus.cpp:577-599 | True if and only if the handler was registered, and that the index follows the registry |
| Canbus.Canbus.DispatchFrame | src/subsys/canbus/canbus.cpp:685-716 | With handlers that change the registry, the calls made and the registry left are those of the reference |
| AssetReader.AssetReader.Read | src/subsys/assets/asset_store.cpp:128-159 | After any history of failures a successful read gives the file's slice, short only where the file ends by now; an error exactly when a call of the file failed, and then its error; without one, and with the file at its full length, as many bytes as target and file have; reading on in sequence needs no seek |
| AssetReader.AssetReader.ReadSlice | src/subsys/assets/asset_store.cpp:135-158 | The loop over the blocks |
| AssetReader.AssetReader.Cover | src/subsys/assets/asset_store.cpp:141-149 | The position is in the buffer afterwards unless the file ends before it |
| AssetReader.AssetReader.Fill | src/subsys/assets/asset_store.cpp:161-199 | The buffer mirrors its block, the recorded position is the real one or unknown, and a seek happens only when the position differs |
| AssetReader.AssetReader.MoveTo | src/subsys/assets/asset_store.cpp:167-175 | After a failed seek the position counts as unknown |
| AssetReader.AssetReader.ReadBlock | src/subsys/assets/asset_store.cpp:177-194 | Short reads are continued until the block is complete or the file ends |
| AssetReader.AssetReader.CopyOut | src/subsys/assets/asset_store.cpp:151-155 | The copied bytes continue the file's bytes in the target |
| AssetReader.AssetReader.Close | src/subsys/assets/asset_store.cpp:111-126 | Closed for good |
| AssetWriter.AssetWriter.Append | src/subsys/assets/asset_store.cpp:247-272 | Staged file and buffer together are all bytes appended; 0 exactly when no call of the volume failed, else what the first failure is answered with, now and later |
| AssetWriter.AssetWriter.Flush | src/subsys/assets/asset_store.cpp:274-291 | A short write is a full volume; success leaves the staged file complete |
| AssetWriter.AssetWriter.Collect | src/subsys/assets/asset_store.cpp:257-262 | Buffered bytes keep the staged whole |
| AssetWriter.AssetWriter.Commit | src/subsys/assets/asset_store.cpp:308-338 | 0 exactly when no call of the volume failed, with the target exactly what was appended; otherwise what the first failure is answered with, and a rename exactly when nothing failed before it; the staged file is closed before the rename and discarded after a failure; the counter goes up by one |
| AssetWriter.AssetWriter.Abort | src/subsys/assets/asset_store.cpp:340-350 | Closes and discards the staged file and leaves the target alone |
| AssetWriter.WriteChunks | src/subsys/assets/asset_store.cpp:247-338 | Over any run of appends and a commit: success exactly when no call of the volume failed, and then the target is all chunks in order; otherwise the first failure is the answer, repeated, and nothing is renamed unless the rename is what failed |
| ChannelMask.SelectsWithBit | src/subsys/adc/adc.cpp:293-296 | Setting a bit adds that channel to the mask and no other |
| ChannelMask.TestsBit | src/subsys/adc/adc.cpp:66-71 | The bit test tells whether the identifier is in use |
| ChannelMask.ClearTakesLowest | src/subsys/adc/adc.cpp:316-317 | Clearing the lowest bit takes away the channel that countr_zero names and no other |
| ChannelMask.IdsAreSelected | src/subsys/adc/adc.cpp:316-317 | The bit loop visits exactly the selected channels, each once, in ascending order |
| AdcSamples.SumFits | src/subsys/adc/adc.cpp:314-317 | A sum of up to 65535 16-bit conversions fits 32 bits |
| AdcSamples.AddedInStep | src/subsys/adc/adc.cpp:314-317 | Adding the next sample of a sampling to its channel keeps every accumulator the sum of that channel's conversions |
| AdcSamples.OneMoreDelivered | src/subsys/adc/adc.cpp:289-291 | Sample k of a scan is of the k-th selected channel, counted round |
| Adc.RequestedAreOfChannels | src/subsys/adc/adc.cpp:119-120 | A scan never selects more channels than the buffer has room for |
| Adc.MeanIsBetween | src/subsys/adc/adc.cpp:356-365 | Such a result lies between the smallest and the largest conversion, in volts |
| Adc.MeanOfEqual | src/subsys/adc/adc.cpp:356-365 | Equal conversions give that conversion, in volts |
| Adc.ScaleOfFullRange | src/subsys/adc/adc.cpp:107-109 | 2^resolution counts are worth the reference times the inverted gain |
| Adc.Adc.Sample | src/subsys/adc/adc.cpp:228-256 | Every good result times the clamped number of conversions is their sum times the channel's scale; every other entry is rejected or failed for its reason; an entry is out of range exactly when its channel does not exist or an earlier existing one is not below it; without driver failures all accepted entries are good |
| Adc.Adc.Clamped | src/subsys/adc/adc.cpp:233-233 | Between 1 and the maximum, and the number asked for when that is |
| Adc.Adc.ValidateRequest | src/subsys/adc/adc.cpp:261-287 | An entry is rejected exactly when its channel does not exist or is not above every valid one before it |
| Adc.Adc.Convert | src/subsys/adc/adc.cpp:236-253 | Scan, fallback for what a failed scan left, or all marked after a timeout: each good entry has exactly the samples asked for, and with scans and without failures it takes at most one driver call per chunk for all channels together |
| Adc.Adc.SampleScan | src/subsys/adc/adc.cpp:292-324 | Every good entry has the same number of conversions after every chunk, and what is left over is exact after an error |
| Adc.Adc.MaskOf | src/subsys/adc/adc.cpp:293-296 | The mask selects exactly the good entries' channels |
| Adc.Adc.ScanIsFit | src/subsys/adc/adc.cpp:303-309 | The first channel's settings are those of every channel scanned, and a chunk fits the buffer |
| Adc.Adc.AddScan | src/subsys/adc/adc.cpp:314-317 | One chunk raises every scanned channel by its samplings |
| Adc.Adc.SampleEach | src/subsys/adc/adc.cpp:328-354 | An error stops its own entry only; all others get exactly the samples left |
| Adc.Adc.SampleChannel | src/subsys/adc/adc.cpp:336-352 | One channel, chunk by chunk, without touching another |
| Adc.Adc.ResolveResults | src/subsys/adc/adc.cpp:356-365 | Scales good entries so that volts times samples is sum times scale, and changes no other |
| Adc.Adc.Read | src/subsys/adc/adc.cpp:199-218 | A timeout is given up after exactly three attempts; a failure delivers nothing |
| Adc.Adc.Initialize | src/subsys/adc/adc.cpp:31-139 | Succeeds only for channels that can be addressed, converted and scaled, and fails only otherwise or for a driver failure; 2^resolution counts of every channel are worth its reference times the inverted gain |
| Adc.Adc.IndexChannels | src/subsys/adc/adc.cpp:54-117 | Accepts the channels if and only if identifiers are distinct and below 32, resolutions 1 to 16, and every channel can be set up; the index finds each channel |
| Adc.Adc.Probe | src/subsys/adc/adc.cpp:143-182 | Scans and bursts are used only after the driver has served one, and scans only when all channels share their settings; without driver failures they are used exactly when the configuration has a use for them |
| CubicSpline.PivotIsPositive | src/utilities/voltage_interpolator/cubic_spline_voltage_interpolator.hpp:62-66 | Every pivot is larger than both of its widths, so no division by zero, and the ratio is below 1 |
| CubicSpline.RowsSolve | src/utilities/voltage_interpolator/cubic_spline_voltage_interpolator.hpp:62-73 | Forward elimination and back substitution satisfy the tridiagonal equation |
| CubicSpline.SlopesMeetIff | src/utilities/voltage_interpolator/cubic_spline_voltage_interpolator.hpp:54-76 | Two pieces have the same slope at a knot if and only if its equation holds |
| CubicSpline.SolutionIffNaturalSpline | src/utilities/voltage_interpolator/cubic_spline_voltage_interpolator.hpp:48-77 | The system has exactly the natural splines as its solutions: through every knot, two derivatives continuous, no curvature at the ends |
| CubicSpline.NaturalSplineIsUnique | src/utilities/voltage_interpolator/cubic_spline_voltage_interpolator.hpp:48-77 | There is one natural spline through a table |
| CubicSpline.StraightLineIsKept | src/utilities/voltage_interpolator/cubic_spline_voltage_interpolator.hpp:48-77 | Points on a line give that line |
| CubicSpline.Eliminate | src/utilities/voltage_interpolator/cubic_spline_voltage_interpolator.hpp:58-66 | Every row is eliminated with a positive pivot and a ratio from 0 to below 1 |
| CubicSpline.CubicSplineVoltageInterpolator.constructor | src/utilities/voltage_interpolator/cubic_spline_voltage_interpolator.hpp:37-78 | The coefficients are the natural spline of every strictly increasing table of at least two points |
| CubicSpline.CubicSplineVoltageInterpolator.SolveBack | src/utilities/voltage_interpolator/cubic_spline_voltage_interpolator.hpp:68-77 | Every piece goes from its knot to the next with the quadratic coefficients of both |
| CubicSpline.CubicSplineVoltageInterpolator.Create | src/utilities/voltage_interpolator/cubic_spline_voltage_interpolator.hpp:34-35 | Refuses exactly a missing table or one of fewer than two points |
| CubicSpline.CubicSplineVoltageInterpolator.UpperBound | src/utilities/voltage_interpolator/cubic_spline_voltage_interpolator.hpp:90-90 | The first point above the voltage |
| CubicSpline.CubicSplineVoltageInterpolator.Interpolate | src/utilities/voltage_interpolator/cubic_spline_voltage_interpolator.hpp:80-102 | The piece of the voltage's own or nearest segment, or the end value when clamped; every knot's value at the knot, the last included |
| CubicSpline.TakesKnotValues | src/utilities/voltage_interpolator/cubic_spline_voltage_interpolator.hpp:90-101 | The value at a knot is the table's, clamped or not |
| CubicSpline.ClampingKeepsInside | src/utilities/voltage_interpolator/cubic_spline_voltage_interpolator.hpp:83-88 | Clamping changes nothing between the ends |
| CubicSpline.ValueIsUnique | src/utilities/voltage_interpolator/cubic_spline_voltage_interpolator.hpp:90-101 | The segment, and so the value, is determined |
| CborItems.HeadIsRead | src/utilities/cbor/cbor_size_calculator.hpp:28-38 | A shortest head reads back as its type, argument and length, whatever follows |
| CborFormat.EncodingIsWritten | src/configuration/cbor/cbor_sensors_config/cbor_sensors_config_cbor_encode.cpp:26-109 | The encoding is the tree of the configuration, every field in its place and every optional one only when present, item by item as RFC 8949 writes them |
| CborFormat.FirstByteTellsKind | src/utilities/cbor/cbor_size_calculator.hpp:28-38 | The first byte of every item is in the range of its kind and of no other |
| CborRoundTrip.ChannelParsed | src/configuration/cbor/cbor_sensors_config/cbor_sensors_config_cbor_decode.cpp:86-87 | Present or absent, the untagged channel is told from the text after it |
| CborRoundTrip.TableIfAnyParsed | src/configuration/cbor/cbor_sensors_config/cbor_sensors_config_cbor_decode.cpp:89-91 | Present or absent, the untagged table is told from the text or number after it |
| CborRoundTrip.ExpressionParsed | src/configuration/cbor/cbor_sensors_config/cbor_sensors_config_cbor_decode.cpp:90-91 | Present or absent, the untagged expression is told from the number after it |
| CborRoundTrip.ConfigurationParsed | src/configuration/cbor/cbor_sensors_config/cbor_sensors_config_cbor_decode.cpp:78-96 | Every configuration reads back, whichever optional fields it has |
| CborRoundTrip.SensorsParsed | src/configuration/cbor/cbor_sensors_config/cbor_sensors_config_cbor_decode.cpp:126-135 | The list reads back sensor by sensor and stops at its end |
| CborRoundTrip.RoundTrip | src/configuration/cbor/cbor_sensors_config/cbor_sensors_config_cbor_decode.cpp:112-148 | Every configuration reads back as itself in both container forms, and what follows it is left alone |
| CborRoundTrip.EncodingIsPrefixFree | src/configuration/cbor/cbor_sensors_config/cbor_sensors_config_cbor_encode.cpp:98-109 | No two configurations are written alike, and none is the start of another |
| CborDecoder.Decoder.DecodeSensors | src/configuration/cbor/cbor_sensors_config/cbor_sensors_config_cbor_decode.cpp:112-148 | Agrees with the reference reading of any payload; the reference refuses a malformed table |
| CborDecoder.Decoder.DecodeList | src/configuration/cbor/cbor_sensors_config/cbor_sensors_config_cbor_decode.cpp:121-140 | The loop reads as the reference does |
| CborDecoder.Decoder.DecodeSensor | src/configuration/cbor/cbor_sensors_config/cbor_sensors_config_cbor_decode.cpp:98-110 | Agrees with the reference reading of a sensor |
| CborDecoder.Decoder.DecodeConfiguration | src/configuration/cbor/cbor_sensors_config/cbor_sensors_config_cbor_decode.cpp:78-96 | Agrees with the reference reading of a configuration, which refuses a malformed table |
| CborDecoder.Decoder.DecodeItems | src/configuration/cbor/cbor_sensors_config/cbor_sensors_config_cbor_decode.cpp:83-92 | An optional field of another type than what comes next is absent and leaves the position alone |
| CborDecoder.Decoder.DecodePoints | src/configuration/cbor/cbor_sensors_config/cbor_sensors_config_cbor_decode.cpp:60-68 | The loop reads the pairs up to the end of the map |
| CborDecoder.Decoder.DecodeTable | src/configuration/cbor/cbor_sensors_config/cbor_sensors_config_cbor_decode.cpp:51-76 | No table and nothing read when no map starts here; the table when a well-formed one does; refused when it is malformed |
| CborDecoder.Decoder.DecodeMetadata | src/configuration/cbor/cbor_sensors_config/cbor_sensors_config_cbor_decode.cpp:26-37 | Agrees with the reference reading of the metadata |
| CborDecoder.DecodeEncoded | src/configuration/cbor/cbor_sensors_config/cbor_sensors_config_cbor_decode.cpp:152-161 | Decoding what was encoded gives the configuration back |
| CborEncoder.Encoder.EncodeSensors | src/configuration/cbor/cbor_sensors_config/cbor_sensors_config_cbor_encode.cpp:98-109 | Succeeds if and only if the encoding fits the buffer and every table has at least two points, and then writes exactly the encoding |
| CborEncoder.Encoder.EncodeList | src/configuration/cbor/cbor_sensors_config/cbor_sensors_config_cbor_encode.cpp:103-105 | The loop writes sensor after sensor |
| CborEncoder.Encoder.EncodeSensor | src/configuration/cbor/cbor_sensors_config/cbor_sensors_config_cbor_encode.cpp:84-96 | A sensor in the order of its fields |
| CborEncoder.Encoder.EncodeConfiguration | src/configuration/cbor/cbor_sensors_config/cbor_sensors_config_cbor_encode.cpp:64-82 | The provisional length of ten is replaced by the number of fields present |
| CborEncoder.Encoder.EncodeItems | src/configuration/cbor/cbor_sensors_config/cbor_sensors_config_cbor_encode.cpp:69-78 | Optional fields are written exactly when present |
| CborEncoder.Encoder.EncodeTable | src/configuration/cbor/cbor_sensors_config/cbor_sensors_config_cbor_encode.cpp:51-62 | Refuses a table of fewer than two points |
| CborEncoder.Encoder.EncodeMetadata | src/configuration/cbor/cbor_sensors_config/cbor_sensors_config_cbor_encode.cpp:26-37 | Three texts in order |
| CborEncoder.EncodeToComputedSize | src/configuration/cbor/cbor_sensors_config/cbor_sensors_config_size.h:10-72 | A buffer of the computed size is never too small: encoding succeeds if and only if every table has at least two points |
| CborSize.GetSize | src/configuration/cbor/cbor_sensors_config/cbor_sensors_config_size.h:10-72 | Exactly the length of the encoding with indefinite-length containers |
| CborSize.AddConfiguration | src/configuration/cbor/cbor_sensors_config/cbor_sensors_config_size.h:26-68 | Exactly the length of a configuration, whichever optional fields it has |
| CborSize.SizeOfTable | src/configuration/cbor/cbor_sensors_config/cbor_sensors_config_size.h:46-57 | Exactly the length of a table |
| CborSize.SizeOfUint | src/utilities/cbor/cbor_size_calculator.hpp:28-38 | The length of the shortest head |
| CborSize.SizeOfInt | src/utilities/cbor/cbor_size_calculator.hpp:43-49 | The length of a signed integer's encoding |
| CborSize.SizeOfText | src/utilities/cbor/cbor_size_calculator.hpp:80-83 | The length of a text with its head |
| CborSize.CborSizeBuilder.AddText | src/utilities/cbor/cbor_size_builder.hpp:41-44 | Adds the length of the encoding |
| CborSize.FormsDifferBy | src/configuration/cbor/cbor_sensors_config/cbor_sensors_config_size.h:10-72 | The exact difference between the lengths of the two container forms |
| CborSize.SizeBoundsDefiniteFormIff | src/configuration/cbor/cbor_sensors_config/cbor_sensors_config_size.h:10-72 | The computed size bounds the definite-length form if and only if there are at most 65535 sensors or some sensor has no table of more than 65535 points |
| CborSize.SizeBoundsDefiniteFormInMemory | src/configuration/cbor/cbor_sensors_config/cbor_sensors_config_size.h:10-72 | It does for every configuration whose computed size fits 32 bits |
| AcceptanceCache.KnownIffLastAnswer | src/subsys/event_bus/acceptance_cache.h:45-78 | An answer is known if and only if it is the last one stored for its key with no flush since |
| AcceptanceCache.KnownInThisGeneration | src/subsys/event_bus/acceptance_cache.h:45-51 | A known answer was stored in the current generation, which held ever since |
| AcceptanceCache.AcceptanceCache.Find | src/subsys/event_bus/acceptance_cache.h:53-59 | Gives exactly the known answers |
| AcceptanceCache.AcceptanceCache.Store | src/subsys/event_bus/acceptance_cache.h:63-78 | Keeps the array strictly sorted and equal to the map; adds or replaces the one answer, and forgets the others only for a new key in a full cache |
| AcceptanceCache.AcceptanceCache.Revalidate | src/subsys/event_bus/acceptance_cache.h:45-51 | Keeps every answer in the current generation and forgets all of them in another |
| AcceptanceCache.AcceptanceCache.LowerBound | src/subsys/event_bus/acceptance_cache.h:31-39 | The first entry whose key is not smaller |
| AcceptanceCache.AcceptanceCache.GetCount | src/subsys/event_bus/acceptance_cache.h:80-82 | The number of known answers, at most the capacity |
| AcceptanceCache.AcceptanceCache.Place | src/subsys/event_bus/acceptance_cache.h:75-76 | Inserts by shifting, from the back |
| EmaFilter.StepConserves | src/utilities/math/ema_filter.hpp:20-25 | The remainder stays from 0 to below 2^k, and 2^k times the output plus the remainder changes by exactly the input minus the old output |
| EmaFilter.RunConserves | src/utilities/math/ema_filter.hpp:20-25 | The same over any run of inputs: nothing is lost to rounding |
| EmaFilter.RunStaysWithin | src/utilities/math/ema_filter.hpp:20-25 | The output never leaves an interval that holds its start and all inputs |
| EmaFilter.ReachesConstantInput | src/utilities/math/ema_filter.hpp:20-25 | A constant input is reached after at most 2^k times the distance in calls and kept from then on |
| EmaFilter.NarrowAgreesIff | src/utilities/math/ema_filter.hpp:20-25 | On a fixed width a call gives the unbounded result if and only if the sum fits the type or there is no shift; for a shift by the width or more, if and only if the sum fits and is not negative |
| EmaFilter.SignedRunAgrees | src/utilities/math/ema_filter.hpp:20-25 | On a signed type no call of a run overflows while the spread of start and inputs leaves room for the remainder |
| EmaFilter.WideShift | src/utilities/math/ema_filter.hpp:20-25 | A shift by the width or more only tells the sign of the sum, which itself becomes the remainder |
| EmaFilter.UnsignedStands | src/utilities/math/ema_filter.hpp:20-25 | With such a shift an unsigned output never changes over any run |
| EmaFilter.UnsignedJumps | src/utilities/math/ema_filter.hpp:20-25 | An unsigned output that should fall jumps up |
| EmaFilter.EmaFilter.Filter | src/utilities/math/ema_filter.hpp:20-25 | A call in the arithmetic of the type, and exactly when it is the unbounded one |

## Left out

- MdfBlocks.Block.ResolveAddress: the sizes of the blocks are taken to add up to less than 2^64, so addresses do not wrap; and a start address of 0 is allowed only for a block without links, as the file uses it.
- MdfBlocks.Block.ResolveBlockAddress: the same.
- MdfHeader.Mdf4File.ResolveAll: the same for the sizes.
- MdfHeader.Mdf4File.WriteAll: the stream starts empty, as a file opened for writing does.
- MdfHeader.EditedIsCleanable: one sufficient condition on edits; the exact condition is the one of ResetCleansIff.
- MdfHeader.Mdf4File.ResetAll: asks for a header that a reset can clean; ResetCleansIff says which these are, and ResetStopsAtCleanBlock what happens to another.
- MdfHeader.Mdf4File.WriteHeaderToStream: asks for the same; the checks before the reset (record writers, counters, the missing data block) are not modelled; the id block is taken to have no links and a size above 0, and nothing below the header block links to it. The block classes that fill `GetChildren()` and `GetNext()` are represented by their links only.
- ConfirmationSteps.ConfirmIsGated: the steps use an unbounded clock, which decides as the code does for deadlines and delays of at most 2^31 ms that are compared less than 2^31 ms after they passed (ImageConfirmation.ReachedAgrees).
- ConfirmationSteps.UncheckedConfirmIff: the same.
- ConfirmationSteps.LongDelayJudgesProbes: the same; it says nothing of delays of more than 2^31 ms, which the code takes for passed at once (ImageConfirmation.PassedAtOnceIff).
- ImageConfirmation.ImageConfirmation.Tick: the results of Feed(), which only reach the log, are not modelled.
- ImageConfirmation.ImageConfirmation.WatchdogExpiresInTime: holds while no two ticks are 2^31 ms or more apart.
- ImageConfirmation.ImageConfirmation.AddProbe: adding the same probe object twice is not modelled; each entry has a flag of its own.
- Canbus.Canbus.RegisterHandler: the handler id counter is unbounded. Removing hardware filters and installing deferred ones after bitrate detection are left out, and so are bitrate probing, mode setup and the frame queue.
- Canbus.Canbus.Initialize: configuring the device is one outcome; a repeated Configure() outside it is not modelled.
- Canbus.Canbus.DispatchFrame: the order in which a map's handlers come is left open, and the frame that handlers get is not modelled.
- AssetReader.AssetReader.Read: sizes are those of a 32-bit address space; moving a reader and opening a file are left out.
- AssetWriter.AssetWriter.Commit: EnsureDirectory() and Rename() are stubs; paths and the directory are not modelled.
- Adc.Adc.Sample: volts are real numbers, the statistics counters and the duration of a conversion are left out, and the build for the ESP32 that skips the probes for bursts and scans is too.
- Adc.Adc.Initialize: the parallel vectors of the device tree are one record per channel, so their size check is left out.
- CborDecoder.Decoder.DecodeSensors: see DecodeTable.
- CborDecoder.Decoder.DecodeList: see DecodeTable.
- CborDecoder.Decoder.DecodeSensor: see DecodeTable.
- CborDecoder.Decoder.DecodeConfiguration: see DecodeTable.
- CborDecoder.Decoder.DecodeItems: see DecodeTable.
- CborDecoder.Decoder.DecodeTable: a map that starts inside a configuration but is malformed fails the whole decoding here, where the code goes on from wherever the library left the position. The nesting limit of the library's state array is not modelled. Floats are bit patterns.
- CubicSpline.CubicSplineVoltageInterpolator.constructor: real numbers instead of floats; tables that are not strictly increasing divide by zero or worse and are not modelled.
- CubicSpline.CubicSplineVoltageInterpolator.Create: the same; the configuration checks of src/domain/adc_domain/configuration/parsers/adc_configuration_validator.cpp require strictly increasing voltages of the tables of ADC channels.
- EmaFilter.EmaFilter.Filter: shifts of at least 32 and at least the width have no defined result and are left out; signed overflow is modelled as wrapping.
- The linear interpolator, the event channel, the other CBOR schemas, SMP and device-tree glue: easier or foreign.
