# A verified model of the VirtIO backend stack

This project models the user-space VirtIO stack of the repository and the DMA code of its
kernel module, and proves what they are for:

- **Split virtqueues** between a guest driver and a daemon that share memory: `RingLayout`,
  `RingProtocol`, `RingDrain`, over the ring helpers in `Virtqueue`.
- **The block daemon**: descriptor walk and header (`BlockRequest`, `BlockWalk`), data movement
  (`BlockTransfer`), requests against one flat image (`BlockRefinement`, `BlockWitness`), requests from
  their header bytes (`BlockSector`), whole notifications (`BlockService`), any guest whatever (`BlockGuest`), the daemon itself
  (`BlockDaemon`, `BlockImage`).
- **The console daemon**: chains and the daemon itself (`Console`), runs against a driver that goes on
  writing (`ConsoleRun`, `ConsoleWitness`), whole notifications (`ConsoleService`).
- **virtio-mmio** registers and their binding to a device: `Registers`, `DeviceBinding`.
- **The Linux UIO fabric**: shadow registers, deferred interrupt (`UioScan`), runs
  access by access (`UioRun`), queue set-up (`UioSetup`).
- **The QEMU socket fabric**: framing (`SocketWire`) and remote register writes (`SocketRpc`).
- **The kernel DMA aperture**: allocator and ownership (`DmaPool`, `PoolOwnership`), bounced
  mappings (`BounceBuffer`, `BounceSteps`), scatter-gather lists (`ScatterGather`), shared pools (`PoolRegistry`).
- `Words`, `GuestMemory` and `KernelIo` hold machine words, the guest memory that fabrics expose, and
  what the kernel may answer to a read or write.

`dafny verify dfyconfig.toml` verifies everything.

## How it is built

Each operation that changes state is a method on a class with the fields of the original,
proved equal to a function on values (`Value() == Spec(old(Value()))`). The theorems are about
those functions, which they state in terms of their own (a flat image and a place of 512 bytes
to a sector, the last value written to an offset, the bytes of a chain end to end), or about runs: sequences of states in which any participant may take the next
step. Arithmetic wraps where C's wraps: 16-bit ring counters, 32-bit byte and descriptor counts,
64-bit addresses and page-rounded sizes.

Concurrency is modelled by steps. In `RingProtocol` every access to shared ring memory is a step
of its own, in `ConsoleRun` every access to a chain's descriptors and buffers too, in `UioRun` every
load and store of the register window. In `UioSetup` each register of a scan is a step, in
`BlockGuest` each descriptor. The other side's writes fall between any two steps. In `PoolOwnership`
and `PoolRegistry` each locked region is a step, so whatever lies between two regions may be
interleaved with other callers. In `ScatterGather` the method `OthersRun` stands for
other threads: before every step they take and free whichever pages the caller does not hold, as an
arbitrary function says, and write whatever memory it does not hold. In `SocketRpc` two processes move in any order over two byte
streams.

Loops that need not end (a notification serves for as long as the driver publishes, a console chain may
be cyclic) take a ghost number as a witness that they end here. `NotificationDrainsRing`,
`StopsOnEveryMemory` and `StopsWhenAcyclic` say when there is one.

## What the theorems ask of the other side

- The driver keeps the split-ring rules: at most a ring's worth of entries outstanding, the slot
  before the index, queue size a power of two up to 32768 (section 2.7 of VIRTIO 1.2),
  rings apart from each other and from data buffers. It may fill several slots before one index store,
  and change the available flags at any time.
- Less than 2^32 bytes precede the last non-empty segment of a request; the daemon counts in 32 bits.
- For what a notification does to several block requests, the driver writes nothing while it is under
  way. For a console chain to be written as it was published, the driver leaves its descriptors and
  buffers alone while it is served; what is written otherwise is stated without this.
- For reads, buffers lie outside the chain's own descriptors, outside each other and outside the
  status byte. A write alone needs none of this. Requests pending together do not write each other's
  descriptors, headers or buffers, nor the rings: all of it read off memory before the kick.
- Bounced buffers are used by the rules of DMA ownership: each side writes in its turn only, and
  turns change hands by syncs that cover the mapping.
- Queue set-up selects each queue once, programs it, then makes it ready. Selecting and making ready
  are written between scans and wait for one; programming may fall anywhere.

None of these is asked where the claim is about arbitrary guests: bounds (`AnyGuestIsContained`,
`TurnsKeepExtent`) and ends of walks (`StopsOnEveryMemory`, `StopsWhenAcyclic`) hold for every memory
content, every queue address and every queue size.

## Where the code does less than one would expect

Each of these is proved, with a concrete case and the exact condition under which all is well; for the
console's race with its driver the condition is sufficient only.

- The block walk counts descriptors in 32 bits and compares with the programmed size, so the one
  size 2^32 - 1 never stops it: `SelfLinkNeverStops`, `StopsOnEveryMemory`.
- The byte count of a request wraps at 4 GiB. A longer write is acknowledged as good and its last
  byte is not written: `FourGigabyteWriteIsLost`, `WriteLandsUpToFourGigabytes`. A longer read
  delivers a byte from elsewhere in the last place: `ReadDeliversUpToFourGigabytes`.
- The device accepts queue sizes that do not divide 65536, and then loses the slot order when
  the counters wrap: `ThreeEntriesCollide`, `SlotsSurviveWrapping`.
- It accepts multiples of 65536 as well, zero included; the ring helpers then divide by zero as soon as
  an entry is published: `SixtyFourKDividesByZero`, `SizesThatAreSafe`.
- A status write whose low half only is zero resets the device but leaves the interrupt line
  asserted: `WideStatusWriteStrandsLine`, `CallbackKeepsCause`. An acknowledgement that leaves the
  used-buffer bit out lowers the line with that bit still pending: `AckWithoutTheBitDropsLine`,
  `CallbackKeepsLine`.
- A register written through the shared window with the value it already holds is not delivered.
  A second feature word equal to the first is lost: `RepeatedFeatureWordIsLost`. Selecting the queue
  that is selected wipes it, because the frontend clears the window and the scan takes the zeros for
  writes: `ReselectWipesQueue`. The exact condition for every register is `DeliveryIsExact`.
- A ready write that falls into a scan may be delivered before registers the scan has passed:
  `ReadyBeforeItsSize`, `ReadyIntoScan`. A status write that falls between scan and publication is
  overwritten: `DriverOkIsOverwritten`, `LateStatusWrite`. An interrupt acknowledged between load and
  write-back of an earlier acknowledgement stays pending behind a lowered line:
  `UsedBufferStaysPending`, `AckIsOverwritten`.
- The console walk has no bound, so a cyclic chain holds it for ever: `ConsoleWitness.SelfLinkNeverStops`,
  `StopsWhenAcyclic`. It reads a chain piece by piece, so a driver that rewrites the chain meanwhile gets
  a mixture: `RacingDriverMixesTexts`, `QuietChainSpeaks`.
- Bytes the CPU writes after a sync are overwritten by an unmap without a sync back:
  `UnsyncedWriteIsLost`, `UnmapReturnsBuffer`.

Where documentation and code disagree, the code is modelled. `docs/axi-protocol.md` lists a header
of 20 bytes; `src/fabrics/qemu_socket.c` sends 24, the last four unused. `src/fabrics/fabric.h`
says that raising an interrupt pulses the line; the UIO fabric only notes the level and drives it after
the next publication.

## Model

| member | source | states |
|---|---|---|
| RingProtocol.UsedFollowsAvailable | src/virtio.c:95-152 | in every run, over any interleaving of driver and daemon accesses and any number of counter wraps, the used ring carries the published heads in order, each once; what the driver reads back from memory is a prefix of that; cursor and used index agree at the loop head and at every exit, failed ones included |
| RingProtocol.KickIsNeverLost | src/fabrics/linux_uio.c:377-389 | a published and kicked entry that is not yet served leaves either a kick in the notify register or a poll still ahead in a live daemon, because the register is re-armed before the callback polls |
| RingProtocol.RestMeansServed | src/drivers/virtio-blkd.c:514-561 | whenever the daemon rests and the notify register is idle, every entry ever kicked is on the used ring |
| RingProtocol.PollLiesAhead | src/drivers/virtio-blkd.c:514-538 | from a phase that counts as polling again, every continuation to the end of the notification contains a poll |
| RingProtocol.RunKeepsInv | src/drivers/virtio-blkd.c:514-561 | memory shows exactly the unbounded logs (wrapped indices, pending slots, uncollected elements) and the daemon's locals agree with them after every single access |
| RingDrain.NotificationDrainsRing | src/drivers/virtio-blkd.c:514-561 | with requests pending that parse and do not write the rings or each other's descriptors and headers, all read off memory before the kick, a notification ends after at most one turn per entry and one more, and unless a request fails everything published is on the used ring, in order |
| RingDrain.AfterTurns | src/drivers/virtio-blkd.c:514-561 | after any number of loop turns the daemon is at a protocol state in which exactly that many more entries are used, and memory is unchanged outside those chains' own writes and the used ring |
| RingDrain.ParseAgrees | src/drivers/virtio-blkd.c:347-399 | a request is determined by the bytes of its descriptors and header: memory that agrees on those holds the same request |
| RingDrain.AddUsedFrame | src/virtio.c:95-118 | a used element changes no byte outside the used ring |
| RingDrain.ServeIsSteps | src/drivers/virtio-blkd.c:543-560 | serving one request is a sequence of protocol steps that adds its head and used length to the used log and changes nothing already there |
| RingDrain.AddUsedIsSteps | src/virtio.c:95-118 | adding a used element is the protocol's id, length, index stores, always succeeds on a placed ring, and appends exactly that element |
| RingDrain.ChainFrame | src/drivers/virtio-blkd.c:347-491 | processing a chain leaves every memory range alone that its writable buffers and status byte avoid |
| RingLayout.SlotOfWrapped | src/virtio.c:95-152 | the slot computed from a wrapped 16-bit counter is the slot of the true position |
| RingLayout.SlotsSurviveWrapping | src/virtio.c:95-152 | over all positions that holds if and only if the (truncated) queue size divides 65536 |
| RingLayout.ThreeEntriesCollide | src/virtio.c:95-152 | in a ring of three the entries on either side of the wrap share a slot |
| RingLayout.SlotsDistinct | src/virtio.c:130-152 | positions less than a ring apart never share a slot |
| RingLayout.WrappedApart | src/virtio.c:130-152 | comparing wrapped indices for inequality tells counters less than 65536 apart correctly |
| RingLayout.FillSlot | src/virtio.c:130-152 | filling the next available slot keeps every pending head, the index and the whole used ring |
| RingLayout.MoveAvailIdx | src/virtio.c:130-152 | moving the available index exposes the filled slots and keeps every pending head and the whole used ring |
| RingLayout.WriteElem | src/virtio.c:95-118 | either half of a used element is written without touching an element the driver has yet to collect, the index, or the available ring |
| RingLayout.MoveUsedIdx | src/virtio.c:95-118 | moving the used index exposes the finished element and keeps the uncollected ones and the available ring |
| Virtqueue.VirtioReadDesc | src/virtio.c:66-82 | reads the 16-byte descriptor of any 16-bit index through the fabric, with wrapping addresses, failing exactly when the bytes are out of reach |
| Virtqueue.DecodeEncodeDesc | src/virtio.c:66-82 | a descriptor laid down by the driver is read back field by field |
| Virtqueue.VirtioNextAvail | src/virtio.c:130-152 | empty, head, or failure exactly as index and slot in memory say; memory is only read |
| Virtqueue.VirtioAddUsed | src/virtio.c:95-118 | leaves guest memory as the ordered id, length, index stores do, stopping at the first that fails |
| BlockService.NotificationIsSequential | src/drivers/virtio-blkd.c:501-587 | a notification with well-formed, mutually separate requests pending serves them all and ends with the ring empty; the used ring has each head in order with the length the device wrote, modulo 2^32; the image is the fold of the requests over the flat image in ring order, each write at byte 512 times its sector; each finds in memory its status byte (0 if served, 2 if its kind is none of the three, otherwise 1) and, if it reads, the image's bytes from 512 times its sector as the requests before it left them |
| BlockService.NotificationInterrupts | src/drivers/virtio-blkd.c:563-587 | that notification succeeds, sets the used-buffer bit if and only if there was something to serve, and leaves the line asserted if and only if the bit is set |
| BlockService.RequestServed | src/drivers/virtio-blkd.c:347-491 | one request of any kind on any image: what it stores, its exact status byte, what it delivers and the used length are the flat reference's at byte 512 times the sector its header holds, even if other memory has changed since the kick |
| BlockRefinement.WriteRefinesFlatImage | src/drivers/virtio-blkd.c:347-491 | a write is acknowledged as good if and only if its header and every segment are good, and with status 1 otherwise; a good one leaves the old image with all the data, in order, from byte 512 times the sector; guest memory changes in the status byte only |
| BlockRefinement.ReadRefinesFlatImage | src/drivers/virtio-blkd.c:347-491 | a read is acknowledged as good if and only if its header and every segment are good, and with status 1 otherwise; a good one fills the segments with the image's bytes from byte 512 times the sector, end to end; the image is unchanged; the used length is the bytes counted plus one modulo 2^32, so it is exact if and only if fewer than 2^32 - 1 bytes are read |
| BlockSector.WriteAtSector | src/drivers/virtio-blkd.c:347-491 | for every memory whose header bytes spell kind 1 and a sector, the write gets status 0 if and only if every segment fits the image from byte 512 times the sector, which must itself fit 64 bits, and then the image is the old one with the segments' bytes laid over it there; otherwise status 1 |
| BlockSector.ReadAtSector | src/drivers/virtio-blkd.c:347-491 | the same for kind 0: the segments hold the image's bytes from 512 times the sector, the image is unchanged |
| BlockSector.RefusedByHeader | src/drivers/virtio-blkd.c:371-383 | a kind that is none of the three gets status 2, a sector whose byte offset passes 64 bits gets 1, and nothing moves but the status byte |
| BlockSector.FlushAnswers | src/drivers/virtio-blkd.c:477-491 | a flush moves nothing and gets 0 if and only if the host's flush succeeds, otherwise 1 |
| BlockRefinement.HeaderIsDecoded | src/drivers/virtio-blkd.c:364-383 | the daemon's decoding of the header agrees with kind, sector times 512 and status as read off the bytes, and fails on the same memories |
| BlockRefinement.ReadDeliversUpToFourGigabytes | src/drivers/virtio-blkd.c:401-446 | a read with a good header and good, separate segments delivers the image's bytes on every image of its size if and only if less than 2^32 bytes precede its last non-empty segment |
| BlockRefinement.WrappedReadEnds | src/drivers/virtio-blkd.c:401-446 | beyond that bound the read is acknowledged as good and its last byte comes from earlier on the image |
| BlockRefinement.WrittenReadsBack | src/drivers/virtio-blkd.c:347-491 | a good write and then a good read of as many bytes at the same sector deliver what was written, whatever the two segmentations and whatever became of guest memory in between |
| BlockRefinement.WriteLeavesPrefix | src/drivers/virtio-blkd.c:347-472 | however a write ends, abandoned included, the image is the old one with the segments before the first bad one laid over it; after a bad header it is the old one |
| BlockRefinement.WriteLandsUpToFourGigabytes | src/drivers/virtio-blkd.c:421-472 | a write with a good header and good segments stores its data on every image of its size if and only if less than 2^32 bytes precede its last non-empty segment |
| BlockRefinement.WrappedWriteMissesLastByte | src/drivers/virtio-blkd.c:421-472 | beyond that bound every such write is acknowledged as good and its last byte is not written |
| BlockWitness.FourGigabyteWriteIsLost | src/drivers/virtio-blkd.c:347-491 | there is such a request, laid out in guest memory byte by byte from descriptor table to header |
| BlockRefinement.CompletesWhenChainEnds | src/drivers/virtio-blkd.c:385-399 | with reachable memory a request completes if and only if its chain ends within as many descriptors as the queue size |
| BlockRefinement.ChainIsTransfer | src/drivers/virtio-blkd.c:347-491 | processing a chain while following it equals laying the chain out first and moving the data after |
| BlockTransfer.WalkIsTransfer | src/drivers/virtio-blkd.c:385-475 | the interleaved walk refines collect-then-move, from any index and any count so far |
| BlockTransfer.OutTransfer | src/drivers/virtio-blkd.c:421-472 | a write lays exactly its leading good segments end to end over the image and moves nothing from the first bad one on; it is abandoned if and only if that one is readable for the device but out of reach |
| BlockTransfer.InTransfer | src/drivers/virtio-blkd.c:401-446 | a read fills exactly its leading good segments and never touches the image |
| BlockTransfer.ReadsCountBytes | src/drivers/virtio-blkd.c:401-446 | a read counts the bytes of every segment, good or bad, modulo 2^32 |
| BlockTransfer.BadStatusMovesNothing | src/drivers/virtio-blkd.c:386-475 | once the status is bad neither memory nor image changes until the chain ends, and it stays bad |
| BlockTransfer.StatusOrIoError | src/drivers/virtio-blkd.c:401-472 | the only status a segment ever sets is the I/O error |
| BlockTransfer.GatherScatter | src/drivers/virtio-blkd.c:401-446 | bytes scattered over separate segments are gathered from them again |
| BlockTransfer.WrappedTransfer | src/drivers/virtio-blkd.c:421-472 | whatever the count has wrapped to, good segments keep the status good and nothing at or past the true end of the data is written |
| BlockWalk.StopsOnEveryMemory | src/drivers/virtio-blkd.c:385-399 | the walk stops on every guest memory if and only if the queue size is not 2^32 - 1 |
| BlockWalk.ReadsAreCounted | src/drivers/virtio-blkd.c:385-399 | a walk still running after n turns has read n descriptors and n is at most the queue size |
| BlockWalk.SelfLinkNeverStops | src/drivers/virtio-blkd.c:385-399 | with that size a descriptor linked to itself keeps the walk running for ever |
| BlockWalk.WalkIsTurns | src/drivers/virtio-blkd.c:385-475 | the recursive walk used everywhere equals the loop's turns carried on until they stop |
| BlockWalk.TurnsKeepExtent | src/drivers/virtio-blkd.c:385-475 | for every queue, the size on which the walk is endless included, no number of turns leaves aperture or image or changes a read-only image |
| BlockGuest.AnyGuestIsContained | src/drivers/virtio-blkd.c:501-587 | over every run of the daemon, the guest scribbling over its memory between any two descriptors and reprogramming the queue to anything between notifications, aperture and image keep their extent and a read-only image its content |
| BlockGuest.TurnIsMoves | src/drivers/virtio-blkd.c:514-561 | left alone, those descriptor-by-descriptor moves are the turns of the notification loop |
| BlockGuest.SizesThatAreSafe | src/virtio.c:130-152 | no guest memory makes a poll divide by zero if and only if the low 16 bits of the queue size are not all zero |
| BlockGuest.PollDivides | src/virtio.c:130-152 | a poll divides by zero exactly when they are zero and the index can be read and has moved |
| BlockGuest.SixtyFourKDividesByZero | src/virtio.c:130-152 | a queue size of 65536 and one published entry: the first notification divides by zero |
| BlockGuest.SafeSizesStayDefined | src/virtio.c:95-152 | a guest that only ever programs safe sizes never brings the daemon there, whatever else it does |
| BlockDaemon.LoopStays | src/drivers/virtio-blkd.c:514-561 | a notification loop that has stopped is not changed by asking for more turns, so the witness chosen does not matter |
| BlockDaemon.Blkd.ReadData | src/drivers/virtio-blkd.c:401-446 | success means the same on the direct path and the buffered one; a failure leaves memory outside the segment alone, and inside it too unless the kernel refused the direct path half way; a buffer that cannot grow is such a failure |
| BlockDaemon.Blkd.MoveSegment | src/drivers/virtio-blkd.c:401-472 | one descriptor in place, for every request kind: as specified when the kernel refuses nothing and the buffer can grow; with any kernel a good status still means the specified outcome, a bad one is sticky, and nothing outside the segment and its place on the image changes |
| BlockDaemon.Blkd.Process | src/drivers/virtio-blkd.c:347-491 | the in-place descriptor loop computes the specified outcome on memory, image and used length for any guest memory |
| BlockDaemon.Blkd.Serve | src/drivers/virtio-blkd.c:543-560 | cursor advances if and only if both chain and used element succeed |
| BlockDaemon.Blkd.PollRing | src/drivers/virtio-blkd.c:520-538 | polling again when empty returns what one poll of unchanged memory returns |
| BlockDaemon.Blkd.NotifyQueue | src/drivers/virtio-blkd.c:501-587 | the notification method meets its specification on memory, image, cursor, interrupt bit and line, unready and foreign queues included, for any outcome of each request's flush |
| BlockImage.ImageFile.PreadAll | src/drivers/virtio-blkd.c:112-132 | however the kernel splits, interrupts or refuses the transfer, exactly the leading bytes it moved arrive, and success is reported if and only if that is all of them |
| BlockImage.ImageFile.PwriteAll | src/drivers/virtio-blkd.c:143-163 | the same for writing: exactly the leading bytes it moved change the image |
| BlockImage.ImageFile.BlockRead | src/drivers/virtio-blkd.c:216-223 | refuses exactly the accesses outside the image or beyond `off_t`, leaving the buffer alone, and otherwise succeeds exactly when the kernel moves everything |
| BlockImage.ImageFile.BlockWrite | src/drivers/virtio-blkd.c:234-241 | refuses exactly those and every write to a read-only image, leaving the image alone, and otherwise succeeds exactly when the kernel moves everything |
| Registers.QueuesHoldTheirOwnHistory | src/virtio-mmio.c:167-248 | after any history of accesses each queue holds, register by register, the last value written while it was selected since the last reset, in whatever order the halves came and whatever happened to other queues |
| Registers.FeaturesHoldTheirBanks | src/virtio-mmio.c:167-248 | the accepted features are the last words written to banks zero and one since the last reset; other banks are ignored |
| Registers.SelectionFollows | src/virtio-mmio.c:167-248 | selected queue, selected feature bank and status are the values last written since the last reset, and the interrupt causes are the device's last, without those acknowledged since |
| Registers.ZeroStatusIsInitial | src/virtio-mmio.c:32-43 | a zero status write returns the device to its initial state from every history |
| Registers.ReadsShowHistory | src/virtio-mmio.c:89-158 | what each register reads after any history: magic, version and ids as offered; the low half of the features in bank zero, the high half in any other; selectors, status and causes by the writes since the last reset; of the selected queue the size offered and the values last written to it, zero if there is no such queue |
| Registers.ReadsShowConfig | src/virtio-mmio.c:148-158 | configuration words read as offered, in order from 0x100, and as zero past the last |
| Registers.OfferedFeaturesInFull | src/virtio-mmio.c:109-115 | after any history, reading the features in bank zero and in another bank gives the two halves of what the device offers |
| Registers.VirtioMmio.Read | src/virtio-mmio.c:89-158 | the in-place read returns what the specification of reads says, for every offset |
| Registers.VirtioMmio.Reset | src/virtio-mmio.c:32-43 | every register and every queue is initial again |
| Registers.VirtioMmio.Write | src/virtio-mmio.c:167-248 | a register write in place has its specified effect, on a missing queue none |
| DeviceBinding.LineAlwaysCaused | src/drivers/virtio-blkd.c:632-651 | over every connection of 32-bit accesses an asserted line has its cause pending in the interrupt status |
| DeviceBinding.CallbackKeepsCause | src/drivers/virtio-blkd.c:632-651 | one callback keeps that if and only if it is not a status write that is zero in its low half only, on an asserted line |
| DeviceBinding.WideStatusWriteStrandsLine | src/drivers/virtio-blkd.c:632-651 | such a write leaves the line asserted without a cause |
| DeviceBinding.CallbackKeepsLine | src/drivers/virtio-blkd.c:632-651 | one callback keeps the line equal to the pending used-buffer bit if and only if it is neither that status write nor an acknowledgement without the bit, on an asserted line |
| DeviceBinding.AckWithoutTheBitDropsLine | src/drivers/virtio-blkd.c:642-644 | such an acknowledgement lowers the line and leaves the bit pending |
| DeviceBinding.LineIsCause | src/drivers/virtio-blkd.c:632-651 | over every connection of 32-bit accesses whose acknowledgements name the bit, the line is asserted exactly while it is pending |
| DeviceBinding.DaemonNotifies | src/drivers/virtio-blkd.c:563-575 | the block daemon's own notification is one of the replies the two results above range over |
| UioScan.TurnSettles | src/fabrics/linux_uio.c:550-563 | after a turn nothing is deferred, the control word has the level asked for last, and when it is asserted the cause was published before it was driven |
| UioScan.TurnDrives | src/fabrics/linux_uio.c:332-343 | the word at 0x200 becomes 1 or 0 as the level deferred last says, and is left alone if none was |
| UioRun.RunStaysSettled | src/fabrics/linux_uio.c:550-563 | over every run, guest writes falling between any two loads and stores of scan and publication, the line is settled while the daemon sleeps, and when it is about to assert it the published interrupt status already shows the cause |
| UioRun.DeferringIsDrivingInRuns | src/fabrics/linux_uio.c:332-343 | in all those runs the line ends up where driving every requested level at once would put it |
| UioRun.QuietTurn | src/fabrics/linux_uio.c:550-563 | when the guest keeps still, the single accesses after a wake-up add up to one turn of the daemon, or to its failed scan |
| UioRun.AckIsOverwritten | src/fabrics/linux_uio.c:412-414 | a daemon access changes the acknowledge register if and only if it is the write-back after an acknowledgement and the register is not zero |
| UioRun.LateAckIsLost | src/fabrics/linux_uio.c:377-414 | whatever the guest acknowledges between load and write-back of an earlier acknowledgement never reaches the device |
| UioRun.UsedBufferStaysPending | src/fabrics/linux_uio.c:377-414 | a concrete such case: the used-buffer bit stays pending behind a lowered line |
| UioScan.DeferringIsDriving | src/fabrics/linux_uio.c:332-343 | keeping only the latest requested level leaves the line where driving every request would |
| UioScan.ScanIrq | src/fabrics/linux_uio.c:359-418 | no scan writes the control word, and the deferred level always has its cause pending |
| UioScan.ScanRearmsNotify | src/fabrics/linux_uio.c:377-389 | a scan leaves the notify register idle once it has passed it, and untouched before |
| UioScan.PublishingIsSilent | src/fabrics/linux_uio.c:306-343 | what a turn publishes and drives never looks like a guest write: every guest-writable register reads afterwards as the scan left it |
| UioScan.LateStatusWrite | src/fabrics/linux_uio.c:306-322 | a status write that falls between scan and publication is overwritten, and survives if and only if it would have changed nothing |
| UioScan.DriverOkIsOverwritten | src/fabrics/linux_uio.c:306-322 | a concrete such case: a status of 7 written over 3 in that moment leaves window, shadow and device at 3 |
| UioScan.WindowShowsDevice | src/fabrics/linux_uio.c:306-329 | after a turn every published register and configuration word reads from the window as it would from the device |
| UioScan.WindowWords | src/fabrics/linux_uio.c:306-329 | after a turn each of the nine words and all 64 configuration words holds the literal or offered value, the selected half of the features, the size of an existing queue or zero, the causes, the status |
| UioScan.PublishedOffsets | src/fabrics/linux_uio.c:306-329 | exactly nine register offsets, by number, and the words from 0x100 up to 0x200 are published |
| UioScan.UioFabric.RefreshReadRegisters | src/fabrics/linux_uio.c:306-329 | the two publication loops store exactly the published words |
| UioScan.ScanStays | src/fabrics/linux_uio.c:359-418 | a failed callback ends the scan: no later register is looked at |
| UioScan.UioFabric.PollWriteRegisters | src/fabrics/linux_uio.c:359-418 | the in-place scan meets its specification on window, shadows, device and deferred level |
| UioScan.UioFabric.PollRegister | src/fabrics/linux_uio.c:369-416 | so does each register's turn, with the special treatment of notify, select and acknowledge |
| UioScan.UioFabric.ReloadShadows | src/fabrics/linux_uio.c:396-411 | after a select exactly the queue registers' shadows are taken from the window |
| UioScan.UioFabric.DeviceWrite | src/drivers/virtio-blkd.c:632-651 | the device callback on this fabric changes device and deferred level as specified, and nothing is driven |
| UioScan.UioFabric.RunTurn | src/fabrics/linux_uio.c:550-563 | one wake-up scans, publishes, drives, in that order, and stops at a failed scan |
| UioSetup.SetupMatchesDirectWrites | src/fabrics/linux_uio.c:359-418 | however the guest orders and repeats its queue writes, and wherever they and scans fall, in the midst of each other included, after every select and every ready write the device is the one the same writes would have made directly |
| UioSetup.QuietScanMatches | src/fabrics/linux_uio.c:359-418 | so it is after any scan that no write fell into, from any state of any run |
| UioSetup.NeverReadyEarly | src/fabrics/linux_uio.c:359-418 | at no state of any run, and at no point of the scan that a select or ready write waits for, does the device hold a queue that is ready before all its registers are what the guest wrote |
| UioSetup.ReadyIntoScan | src/fabrics/linux_uio.c:359-418 | a ready write that falls into a scan keeps that promise if and only if the scan is past the ready register or has nothing undelivered behind it |
| UioSetup.ReadyBeforeItsSize | src/fabrics/linux_uio.c:359-418 | a concrete such case: size eight and ready written once the scan is past the size register leave the queue ready with the default size |
| UioSetup.ActInv | patches/qemu/0001-chiplets-qemu-support.patch:803-844 | each set-up action, with the frontend's clearing of queue registers on a select, keeps window, shadows and device in step |
| UioSetup.ScanOnDelivers | src/fabrics/linux_uio.c:359-418 | a scan in which only queue registers changed, from wherever it has got to, succeeds and delivers exactly those it has yet to pass, in scan order |
| UioSetup.DeliveryIsExact | src/fabrics/linux_uio.c:359-418 | a write of any register through the window has the effect of the same write made directly if and only if its value differs from the shadow, or the direct effect is none and, for a select, clearing the window changes nothing |
| UioSetup.ReselectScan | patches/qemu/0001-chiplets-qemu-support.patch:813-828 | selecting the selected queue is harmless if and only if that queue does not exist or every queue register with a non-zero shadow is zero in the device |
| UioSetup.ReselectWipesQueue | patches/qemu/0001-chiplets-qemu-support.patch:813-828 | selecting a ready queue that is selected takes its readiness away, while written directly it does nothing |
| UioSetup.RepeatedFeatureWordIsLost | src/fabrics/linux_uio.c:359-418 | a feature word equal to the other bank's word does not reach the device |
| PoolOwnership.PagesAreAccountedFor | src/kernel/axi_mmio.c:130-172 | in every interleaving of allocations, maps, unmaps and frees the marked pages are exactly the disjoint union of the pages held, handles lie inside the aperture, and listed bounce handles are unique |
| PoolOwnership.RunInv | src/kernel/axi_mmio.c:264-381 | every locked region keeps the ownership invariant, holders between two regions included |
| PoolOwnership.UnmapFindsItsBounce | src/kernel/axi_mmio.c:348-381 | an unmap of a bounced handle finds its owner's record and no other |
| PoolOwnership.PassThroughFreesNothing | src/kernel/axi_mmio.c:348-381 | an unmap of an address handed through finds no record and changes nothing |
| DmaPool.FirstFit | src/kernel/axi_mmio.c:130-152 | the result is clear and there is no clear area before it; no result means no clear area |
| DmaPool.PagesFor | src/kernel/axi_mmio.c:130-152 | the least number of pages that covers a size, unless rounding up wraps to none |
| DmaPool.SkipPast | src/kernel/axi_mmio.c:138-141 | an area search may resume after any set page it met, without missing an area |
| DmaPool.FindBounce | src/kernel/axi_mmio.c:204-215 | a listed record for the handle, or there is none |
| DmaPool.DelistedAt | src/kernel/axi_mmio.c:359-369 | taking a record off the list removes the first match and keeps the order of the rest |
| DmaPool.PoolMemory.FindZeroArea | src/kernel/axi_mmio.c:138-141 | the skipping search on the bitmap finds the lowest clear area |
| DmaPool.PoolMemory.PoolAlloc | src/kernel/axi_mmio.c:130-152 | marks the first fit and returns its address, or changes nothing |
| DmaPool.PoolMemory.PoolFree | src/kernel/axi_mmio.c:154-172 | clears exactly the pages of a range wholly inside the aperture, otherwise nothing |
| DmaPool.PoolMemory.BounceFind | src/kernel/axi_mmio.c:204-215 | the list walk returns the first record for the handle |
| DmaPool.PoolMemory.TakeBounce | src/kernel/axi_mmio.c:348-369 | outside the aperture or without a record nothing is taken; otherwise the first record leaves the list |
| BounceBuffer.BounceIsTransparent | src/kernel/axi_mmio.c:217-262 | over every run of writes and covering syncs in which sides write in their turn, the side whose turn it is reads what one shared buffer would show, in all three directions |
| BounceBuffer.UnmapReturnsBuffer | src/kernel/axi_mmio.c:348-381 | unmapping returns the shared buffer if and only if it is the device's turn, nothing is copied, or the CPU's copy is clean; it touches nothing else |
| BounceBuffer.UnsyncedWriteIsLost | src/kernel/axi_mmio.c:348-381 | a byte written in the CPU's turn is lost by an unmap without a sync back |
| BounceBuffer.MapBegins | src/kernel/axi_mmio.c:299-346 | a successful bounced mapping starts that run: listed, in reach, and loaded with what the device may read |
| BounceBuffer.RunInv | src/kernel/axi_mmio.c:217-262 | every write, sync and unrelated activity keeps the two copies in step with the reference |
| BounceBuffer.FailedMapLeavesNothing | src/kernel/axi_mmio.c:299-346 | a mapping that fails at any point leaves bitmap, list and memory as they were |
| BounceSteps.UnmapUndoesMap | src/kernel/axi_mmio.c:299-381 | after any successful bounced mapping, unmapping its handle gives back the pool as it was, bitmap and list, whatever became of memory and however little is copied back |
| BounceSteps.MapIsTakeThenList | src/kernel/axi_mmio.c:299-346 | a successful bounced mapping is the allocation and the listing of the ownership runs |
| BounceSteps.FailedCopyIsTakeThenRelease | src/kernel/axi_mmio.c:325-335 | one whose copy fails is an allocation and its release, and ends where it began |
| BounceSteps.UnmapIsUnlistThenRelease | src/kernel/axi_mmio.c:348-381 | unmapping a listed handle is the unlisting and the release of the ownership runs: exactly the owner's pages are cleared and only its record leaves the list |
| BounceSteps.BounceTakesLowestPages | src/kernel/axi_mmio.c:299-346 | a bounced mapping hands out the lowest run of clear pages that holds the buffer, marks exactly those, and lists its record first |
| BounceSteps.BounceFailsWhen | src/kernel/axi_mmio.c:299-346 | it fails if and only if there is no record, the size rounds to no pages, no run of pages is clear, or the buffer to copy from does not exist |
| BounceSteps.InsideIsHandedThrough | src/kernel/axi_mmio.c:315-318 | a buffer wholly inside the aperture gets its own address and nothing changes; any other gets an address only by taking pages and being listed |
| BounceBuffer.MapMovesBuffer | src/kernel/axi_mmio.c:299-346 | a bounced mapping fills its pages with the buffer, and no other byte, unless only the device writes |
| BounceBuffer.UnmapMovesPart | src/kernel/axi_mmio.c:348-381 | unmapping brings back the bytes asked for, at most the mapping's, and no other byte, unless only the CPU wrote |
| BounceBuffer.SyncForDeviceMovesPart | src/kernel/axi_mmio.c:217-239 | a sync for the device of any size moves exactly that part of the mapping, byte by byte |
| BounceBuffer.SyncForCpuMovesPart | src/kernel/axi_mmio.c:241-262 | so does a sync for the CPU, the other way |
| BounceBuffer.AxiMmio.CopyPhysToPool | src/kernel/axi_mmio.c:174-187 | copies into the aperture exactly the range asked for, or reports failure and copies nothing |
| BounceBuffer.AxiMmio.CopyPoolToPhys | src/kernel/axi_mmio.c:189-202 | the same out of the aperture |
| BounceBuffer.AxiMmio.DmaSyncForDevice | src/kernel/axi_mmio.c:217-239 | copies in at most the mapping's size, for directions the device reads, of listed handles only |
| BounceBuffer.AxiMmio.DmaSyncForCpu | src/kernel/axi_mmio.c:241-262 | copies out at most the mapping's size, for directions the device writes, of listed handles only |
| BounceBuffer.AxiMmio.DmaMapPhys | src/kernel/axi_mmio.c:299-346 | the in-place mapping, with all its failure paths, leaves pool and memory as specified |
| BounceBuffer.AxiMmio.DmaUnmapPhys | src/kernel/axi_mmio.c:348-381 | so does the in-place unmapping |
| ScatterGather.SgPool.DmaMapSg | src/kernel/axi_mmio.c:383-423 | with other threads taking and freeing pages before every entry: either every entry is mapped, each in turn to the lowest area clear at that moment, on separate pages, loaded where the device reads; or some entry is empty or finds no clear area of its size, and then the caller's pages are as they were, the entries before it have address 2^64 - 1 and length 0, and the others are untouched |
| ScatterGather.SgPool.MapWithRoom | src/kernel/axi_mmio.c:383-423 | if no entry is empty and one run of pages as long as all entries together is held neither by the caller nor, at any time, by others, the call maps the whole list |
| ScatterGather.RunSuffices | src/kernel/axi_mmio.c:383-423 | whatever else first fit finds, it never uses up more of such a run than the entries placed so far need |
| ScatterGather.NeverWithoutRoom | src/kernel/axi_mmio.c:383-423 | so on such a list no entry is one that finds no room |
| ScatterGather.SgPool.Take | src/kernel/axi_mmio.c:130-152 | an allocation fails if and only if its size rounds to no pages or no area is clear in the bitmap it finds; otherwise it takes the lowest |
| ScatterGather.SgPool.DmaUnmapSg | src/kernel/axi_mmio.c:425-454 | every mapped entry gets back what its pages held when the call began, unless only the CPU wrote, gives them up, and is left with address 2^64 - 1 and length 0; unmapped entries are passed over; afterwards none is mapped |
| ScatterGather.SgPool.MapThenUnmapTwice | src/kernel/axi_mmio.c:383-454 | mapping and unmapping restores the caller's pages, and unmapping again frees nothing more |
| ScatterGather.SgPool.Rollback | src/kernel/axi_mmio.c:401-412 | the failure path gives back exactly the pages of the entries mapped so far and marks those entries unmapped |
| ScatterGather.SgPool.MapEntry | src/kernel/axi_mmio.c:395-421 | one entry is mapped if and only if its size needs pages and an area is clear, and keeps the earlier ones loaded on their own pages; one that fails changes nothing of the caller's |
| ScatterGather.SgPool.UnmapEntry | src/kernel/axi_mmio.c:439-452 | one entry is copied back before its pages, and no others, are given up |
| ScatterGather.LoadedKept | src/kernel/axi_mmio.c:383-423 | whatever leaves the caller's pages alone leaves all its entries loaded |
| PoolRegistry.OnePoolPerAperture | src/kernel/axi_mmio.c:43-122 | in every interleaving of get and put, racing constructions included, at most one listed pool exists per aperture, its count is its number of holders, and holders hold listed pools |
| PoolRegistry.ReleasedExactlyOnce | src/kernel/axi_mmio.c:43-122 | in every interleaving whatever was ever built, pools that lost the race or failed half built included, is released exactly once or still exists, and while it exists a holder, its builder or the caller about to free it answers for it |
| PoolRegistry.ReleaserGaveUp | src/kernel/axi_mmio.c:43-122 | whoever frees a pool is the caller whose put was the last, or the builder that lost the race or failed |
| PoolRegistry.LastPutDelists | src/kernel/axi_mmio.c:43-60 | a put takes the pool off the list if and only if its caller was the only holder |
| PoolRegistry.LastHolder | src/kernel/axi_mmio.c:43-60 | a count of one means one holder |
| PoolRegistry.RunInv | src/kernel/axi_mmio.c:43-122 | every locked region keeps the registry sound |
| PoolRegistry.PoolList.LookupAndRef | src/kernel/axi_mmio.c:73-81 | the first locked region of get is a step of the runs when it finds a pool, the first listed for the aperture, and changes nothing when it does not |
| PoolRegistry.PoolList.PublishOrJoin | src/kernel/axi_mmio.c:107-121 | the second locked region of get is a step of the runs: joining a pool listed meanwhile or listing the new one, as the second lookup decides; the caller gets the pool it then holds |
| PoolRegistry.PoolList.PutLocked | src/kernel/axi_mmio.c:49-55 | the locked region of put is a step of the runs, and reports the last reference exactly |
| PoolRegistry.PoolList.Delist | src/kernel/axi_mmio.c:54-55 | the list loses exactly the entry and keeps the order of the rest |
| SocketRpc.RemoteIsLocal | src/fabrics/qemu_socket.c:296-358 | a register write over the socket ends within 6n + 13 moves of the two processes in every interleaving, never with both stuck or the connection dropped, and leaves device, memory and line as the callback run on local memory does, with both streams empty |
| SocketRpc.NeverStuck | patches/qemu/0001-chiplets-qemu-support.patch:668-785 | until the guest's access is complete, QEMU or the backend can move |
| SocketRpc.MoveAdvances | src/fabrics/qemu_socket.c:497-622 | every move of either process keeps the bytes in flight matching both ends and uses up some of the remaining work |
| SocketRpc.RunInv | src/fabrics/qemu_socket.c:296-358 | so every state of every run is some point of the one local run |
| SocketWire.DecodeEncode | src/fabrics/qemu_socket.c:140-169 | a header survives the wire field by field, whatever the padding holds |
| SocketWire.HeaderBytes | src/fabrics/qemu_socket.c:140-169 | each field of a header is the number its bytes spell, least significant first |
| SocketWire.MessageBytes | src/fabrics/qemu_socket.c:140-169 | the kinds by number, and the bytes of a message with no flags and window zero |
| SocketWire.ValueRoundTrip | src/fabrics/qemu_socket.c:204-214 | a value that fits its access width survives the wire, at every width up to eight bytes |
| SocketWire.SendAll | src/fabrics/qemu_socket.c:112-131 | however the kernel splits, interrupts or refuses it, exactly the leading bytes it took go out, in order, and success is reported if and only if that is the whole buffer |
| SocketWire.RecvAll | src/fabrics/qemu_socket.c:112-131 | the same for reading, a closed peer included: exactly the next bytes come in, in order, and success is reported if and only if all of them did |
| ConsoleRun.OutputIsPiecesInOrder | src/drivers/virtio-consoled.c:173-279 | in every run, the driver's writes falling between any two accesses of the daemon, the output is the pieces read, end to end, but for the part of one more that a console took before it refused; the pieces follow the published heads in ring order and the links in chain order, none skipped and none twice; each piece's descriptor and text were in memory when they were read |
| ConsoleRun.QuietChainSpeaks | src/drivers/virtio-consoled.c:173-204 | a chain that the driver leaves alone from the moment it is taken until it is done adds exactly the bytes its device-readable segments held when it was taken, end to end, and the length reported is their total modulo 2^32 |
| ConsoleRun.QuietOutputIsRingOrder | src/drivers/virtio-consoled.c:214-279 | if the driver leaves every chain alone while it is served, a live daemon's output between chains is what the published chains said when they were taken, in ring order, each once |
| ConsoleService.TransmitIsSequential | src/drivers/virtio-consoled.c:214-279 | a notification whose pending chains end and can be read writes the bytes of all of them, in ring order, each once, and ends with the ring empty; the used ring has each head with the length of its text modulo 2^32; memory off the used ring is unchanged; the cursor is past everything published |
| ConsoleWitness.RacingDriverMixesTexts | src/drivers/virtio-consoled.c:180-200 | a whole run from a fresh ring in which the driver rewrites the chain in service: the output is neither what the chain said when it was taken nor what it says when it is done |
| Console.StopsWhenAcyclic | src/drivers/virtio-consoled.c:173-204 | the transmit walk stops if and only if no descriptor of the chain is met twice, and then within 65536 turns |
| ConsoleWitness.SelfLinkNeverStops | src/drivers/virtio-consoled.c:173-204 | a descriptor linked to itself keeps the walk running for ever |
| Console.TxWritesChain | src/drivers/virtio-consoled.c:173-204 | a readable chain is written out as the bytes of its device-readable segments, end to end, and the length counted is their total modulo 2^32 |
| Console.DoneMeansChain | src/drivers/virtio-consoled.c:173-204 | a walk that succeeds has followed a readable chain to its end |
| ConsoleRun.RunInv | src/drivers/virtio-consoled.c:214-279 | after every single access the walk stands where the pieces written so far leave it, and chains written and elements used stay in step |
| Console.LoopStays | src/drivers/virtio-consoled.c:232-266 | a transmit loop that has stopped is not changed by asking for more turns |
| Console.TurnStops | src/drivers/virtio-consoled.c:232-266 | a transmit loop that ends has met no endless chain on the way |
| Console.Consoled.ProcessTxChain | src/drivers/virtio-consoled.c:173-204 | the in-place walk writes what the specified walk writes; a success has written the bytes of the chain's device-readable segments, end to end, and returns their total modulo 2^32; if the console refuses, a leading part of that is written and the failure reported |
| Console.Consoled.ConsoleWrite | src/drivers/virtio-consoled.c:29-50 | the same as sending: exactly the leading bytes taken are output, success if and only if that is all |
| Console.Consoled.ServeTx | src/drivers/virtio-consoled.c:258-266 | cursor advances if and only if chain and used element succeed; the receive queue is untouched; a console that refuses leaves a leading part of the chain's text written and memory and queue alone |
| Console.Consoled.PollTx | src/drivers/virtio-consoled.c:232-256 | polling again when empty returns what one poll of unchanged memory returns |
| Console.Consoled.NotifyQueue | src/drivers/virtio-consoled.c:214-279 | notifications of other queues move nothing; a ready transmit queue is served until empty or failed, with interrupt bit and line as specified |
| GuestMemory.DmaWindow.DmaOffset | src/fabrics/linux_uio.c:176-182 | accepts exactly the ranges inside the aperture, without overflow |
| GuestMemory.DmaWindow.DmaReadInto | src/fabrics/linux_uio.c:603-616 | copies exactly the range asked for or fails; an empty range always succeeds |
| GuestMemory.DmaWindow.DmaReadU16 | src/fabrics/linux_uio.c:658-666 | reads the little-endian value or fails |
| GuestMemory.DmaWindow.DmaWrite | src/fabrics/linux_uio.c:677-690 | changes exactly the range asked for or nothing |
| GuestMemory.ReadAfterWrite | src/fabrics/linux_uio.c:603-690 | a read returns what was last written there, and reads apart from a write are unaffected |
| Words.AndNot | src/virtio-mmio.c:235-237 | acknowledging sets nothing, and the used-buffer bit stays pending if and only if it was and is not acknowledged |
| Words.AndNotBits | src/virtio-mmio.c:235-237 | bit by bit: pending after an acknowledgement is what was pending and is not acknowledged |
| Words.Store16 | src/virtio.h:88-147 | a stored 16-bit value loads back |
| Words.Store32 | src/virtio.h:88-147 | a stored 32-bit value loads back |
| Words.Store64 | src/virtio.h:88-147 | a stored 64-bit value loads back |
| Words.LoadsAreLittle | src/virtio.h:88-147 | words of two, four and eight bytes are the number the bytes spell, least significant first |
| Virtqueue.DescBytes | src/virtio.c:66-82 | the fields of a descriptor are the numbers its bytes spell, bit 0 of the flags links on, bit 1 makes it device-writable |

## Left out

- Launchers, scripts, Nix files, images, argument parsing, sysfs and `mmap` set-up: no protocol content.
- `src/fabrics/linux_devmem.c` and `src/kernel/chiplets_uio.c`: the first repeats the UIO scan over another mapping, the second only registers resources.
- The rest of the QEMU patch: ACPI and device-tree export, shared-memory mode, notification policies, their acknowledgement and coalescing.
- UioRun.RunStaysSettled: a callback is one step, which touches no register of the window.
- UioSetup.SetupMatchesDirectWrites: the frontend's select and its clearing of the window are one step, and so is each register of a scan; UioRun splits those.
- UioScan.UioFabric.DeviceWrite: the outcome of a notification is a parameter; DaemonNotifies shows that the block daemon's is one of them.
- UIO windows other than 4 KiB with the control word at its default offset 0x200, and the scan's skipping of registers beyond a smaller window.
- Access widths of register reads other than four bytes, and features and configuration a device offers, which are parameters here.
- Register reads over the socket: one request and one reply, without the nested service that makes writes hard.
- A callback that fails over the socket, or asks for memory out of range, closes the connection; SocketRpc models the closing but its theorems are about callbacks that finish.
- Device reset during a run of the ring protocol: runs start from freshly set-up rings and the driver does not reset.
- ConsoleRun.QuietChainSpeaks: a sufficient condition; a driver may rewrite parts the daemon has already read, or with the same bytes, and still get its text.
- Torn stores and reordered memory accesses: ring accesses are single steps in program order. The source has no fences, so on weakly ordered hardware this is an assumption.
- BlockDaemon.Blkd.NotifyQueue: memory changes only by the daemon during one call; concurrent driver steps are covered by RingProtocol, ConsoleRun and BlockGuest, and the block requests' results in RingDrain and BlockService are those of a driver that keeps still meanwhile.
- BlockDaemon.Blkd.Process: whole requests are proved for a kernel that refuses no transfer and a payload buffer that can grow; refusals and a buffer that cannot are modelled one segment at a time, in MoveSegment.
- Console.Consoled.NotifyQueue: whole notifications are proved for a console that refuses no write; a refusal is modelled in ServeTx and in the runs of ConsoleRun.
- RingProtocol.KickIsNeverLost: a safety statement, as is RestMeansServed; that the daemon is scheduled and woken is not modelled.
- BounceBuffer.AxiMmio.CopyPhysToPool: remapping a buffer fails only when its range does not exist.
- BounceBuffer.BounceIsTransparent: syncs shorter than the mapping are not used in the runs, what they copy is stated by SyncForDeviceMovesPart and SyncForCpuMovesPart; the buffer and the aperture are separate memories.
- PoolRegistry.OnePoolPerAperture: saturation of the reference counter is not modelled.
- ScatterGather.SgPool.DmaMapSg: the missing-pool error and chained scatterlist pages are not modelled; a list is an array of entries.
- Profiling, debug output and logging.
