# Verified model of the Orlix hosting layer

OrlixSystem runs an upstream Linux kernel inside an iOS process. This project models the parts of it
that keep state or transform data, and proves what they promise, for all inputs and all runs.

* **Shadow memory** (`ShadowModel`, `ShadowProofs`, `ShadowTheorems`, `KernelStore`, `ShadowRuns`,
  `ShadowShape`, `ShadowEffects`, `UserShadow`, `HostWindow`, `Translation`). Linux pages are mirrored into
  host addresses as mappings that hold segments, and stores are copied back on sync, replacement and unmap.
  The *logical memory* is the view under writable segments and the source elsewhere. `ShadowModel` has the
  operations on values, with the branches and failures of the code; `UserShadow.HostUserMemory` is the class
  with the mutable lists whose methods are proved to compute them.
* **Virtio-mmio devices** (`GuestBuffers`, `ConsoleRing`, `Virtqueue`, `ConsoleInput`, `BlockImage`,
  `BlockChain`, `BlockRequest`, `BlockTheorems`, `BlockRuns`, `BlockDevice`, `KickProtocol`). Split virtqueues
  (section 2.7 of VIRTIO 1.2), the block device (section 5.2), the console input path and its byte ring,
  and the queue kick as a state machine of notifiers, worker and reset.
* **User copies** (`UserCopy`). The page-chunked copies against a byte-at-a-time loop.
* **Command line** (`PercentCode`, `DecimalText`, `CommandLine`, `InitCommand`, `CommandRoundTrip`). The
  Swift printer and the C parser, written independently, proved to invert each other.
* **Kernel and user transitions** (`SignalFrames`, `SyscallRestart`, `ResumeHandoff`, `HostTimer`).
* **Image import** (`SwiftText`, `TarNumbers`, `TarAttributes`, `TarReader`, `TarPaths`, `TarRecords`, `TarLayout`,
  `TarHeader`, `TarArchive`, `LayerReplay`). The tar reader against a printer of archives, and layers replayed
  into a manifest.

`HostTypes`, `Slices` and `Arithmetic` hold shared types and facts.

Where the source changes state step by step the model is a class or a method with loops, proved equal to a
specification function of the old state; the theorems are about those functions. Concurrency (`KickProtocol`,
`ResumeHandoff`) is a datatype of program counters with a step function, over all interleavings.

Results of the host, of allocations, of page tables and of other threads are parameters: `Outcomes` for the
shadow memory, `arrivals` for what is typed between two reads, `meets` for the guest's chains at each head,
`visits` for the translation a page has when a chunk reaches it, `rounds` for the signals of the exit loop, and
`Library` for what the Swift library knows about joining scalars and base 64.

## What the code does not keep

Properties that hold only under a condition are proved with that condition in both directions.

* A mapping in the first host page: the unmap that precedes a creation returns early for address 0, so
  mappings can overlap (`FirstPageExactly`, `FirstPageOverlap`).
* A window with a writable page and an executable page has both rights as a whole, so rewritten instructions
  are copied back to Linux memory (`RefreshWindowPreservesExactly`,
  `RefreshKeepsExactly`, `MapPageKeepsExactly`, `SharedWindowRewritesCode`).
* A page refreshed by the kernel while its covering mapping has another protection: the old view is copied
  over the store (`StoreSurvivesExactly`, `KernelStoreLost`).
* A state image with a minimum above 2^64 - 512 bytes is truncated to nothing (`StateKeptExactly`).
* A used ring whose size does not divide 2^16 reuses slots at the wrap (`SlotsDistinctExactly`).
* Rights are those of a window as a whole: a store to a page that was handed in as not writable reaches Linux
  memory when another page of the window is writable (`MixedWindowStoreExactly`).
* Writable mappings that share source bytes: a sync keeps what the last of them shows (`AliasedStoreSurvivesExactly`,
  `AliasedStoreLost`).
* A pax header drops a GNU long name or link that stands before it in front of the same entry (`LongNameKeptExactly`,
  `LongLinkKeptExactly`, `LongNameLost`).
* Arguments, entries and directories that do not fit init's buffers are cut without an error on either side
  (`RoundTripExactly`, `InitReceives`).
* Swift looks for delimiters among Characters, where a combining scalar can join a slash, a blank or an equals
  sign, and carriage return and newline are one. Pax values are cut or refused (`RecordReadBack`), `..` can stay
  in a path (`NormalizedSafeExactly`), and init may not take a command that the printer accepted
  (`RoundTripExactly`).
* init's percent decoder reads one byte past a full buffer that ends in a percent sign (`PercentDecode`,
  `FullBufferReadsPast`).

## Model

| member | source | states |
|---|---|---|
| ShadowRuns.RunKeepsShape | OrlixHostAdapter/Sources/OrlixHostAdapter/memory/kernel_mapping.c:392-967 | over every run of user and kernel stores, syncs, page maps, trusted executable maps, refreshes of any protection, windows and unmaps above the first host page, mappings stay host-page aligned and disjoint and segments stay inside their mapping and disjoint: with aliased sources, rewritten code, changed protections, and on every answer of the host |
| ShadowRuns.RunShowsOnce | OrlixHostAdapter/Sources/OrlixHostAdapter/memory/kernel_mapping.c:392-967 | after any such run each user address is shown by at most one segment of one mapping |
| ShadowRuns.StepShape | OrlixHostAdapter/Sources/OrlixHostAdapter/memory/kernel_mapping.c:729-967 | each operation keeps the shape, whatever it maps and whatever the host calls answer |
| ShadowRuns.RunKeepsLogical | OrlixHostAdapter/Sources/OrlixHostAdapter/memory/kernel_mapping.c:392-967 | over every run of user stores, kernel stores with and without refresh, syncs, page maps (with the skip on a matching writable page), trusted executable maps, window refreshes and unmaps that the callers may do without losing or inventing bytes, the logical memory is the old one with exactly the stores replayed in order, and writable sources stay un-aliased |
| ShadowRuns.LinuxWriteKeeps | OrlixKernel/Sources/ports/orlix/overlay/arch/orlix/mm/uaccess.c:115-152 | a store to source bytes that no writable segment shows is a store to the logical memory |
| ShadowRuns.SyncAfterRun | OrlixHostAdapter/Sources/OrlixHostAdapter/memory/kernel_mapping.c:956-967 | a sync at the end of any such run leaves in Linux memory exactly the replayed stores |
| ShadowRuns.StepKeeps | OrlixHostAdapter/Sources/OrlixHostAdapter/memory/kernel_mapping.c:729-967 | one operation keeps the invariant and changes the logical memory by its own stores only, whatever the host calls answer |
| ShadowTheorems.StoreKeeps | OrlixHostAdapter/Sources/OrlixHostAdapter/memory/kernel_mapping.c:521-541 | a user store changes one logical byte when a writable segment covers the address and nothing otherwise |
| ShadowTheorems.StoreEffectAt | OrlixHostAdapter/Sources/OrlixHostAdapter/memory/kernel_mapping.c:521-541 | the logical byte a user store changes is the source byte of the covering segment at the same distance |
| ShadowTheorems.TargetsApart | OrlixHostAdapter/Sources/OrlixHostAdapter/memory/kernel_mapping.c:593-687 | disjoint mappings with disjoint segments show each user address at most once |
| ShadowShape.UnmapShape | OrlixHostAdapter/Sources/OrlixHostAdapter/memory/kernel_mapping.c:593-621 | unmapping any range keeps mappings aligned and disjoint |
| ShadowShape.RemoveShape | OrlixHostAdapter/Sources/OrlixHostAdapter/memory/kernel_mapping.c:556-591 | removing the segments of a range, with or without copy-back, keeps the others inside and disjoint and leaves the range clear |
| ShadowShape.MapShadowShape | OrlixHostAdapter/Sources/OrlixHostAdapter/memory/kernel_mapping.c:392-473 | mapping one page of any source keeps the shape for every protection, rewriting, copy-back and outcome |
| ShadowShape.PlaceAllShape | OrlixHostAdapter/Sources/OrlixHostAdapter/memory/kernel_mapping.c:893-927 | placing the pages of a window, all of them or up to the first without a list node, keeps the shape |
| ShadowShape.RefreshWindowShape | OrlixHostAdapter/Sources/OrlixHostAdapter/memory/kernel_mapping.c:816-943 | refreshing a window keeps the shape on every path |
| ShadowProofs.UnmapKeeps | OrlixHostAdapter/Sources/OrlixHostAdapter/memory/kernel_mapping.c:593-621 | unmapping any range keeps the logical memory and the invariant |
| ShadowProofs.SyncKeeps | OrlixHostAdapter/Sources/OrlixHostAdapter/memory/kernel_mapping.c:956-967 | a sync keeps the logical memory and makes Linux memory equal to it |
| ShadowProofs.CreateKeeps | OrlixHostAdapter/Sources/OrlixHostAdapter/memory/kernel_mapping.c:645-687 | creating a mapping above the first host page loses no store, also when the allocation or the list node fails, and the new mapping contains the range with the asked protection |
| ShadowProofs.RemoveKeeps | OrlixHostAdapter/Sources/OrlixHostAdapter/memory/kernel_mapping.c:556-591 | removing the segments of a range with copy-back loses no store, leaves the range clear and touches no other attribute of the mapping |
| ShadowProofs.CopyBackByte | OrlixHostAdapter/Sources/OrlixHostAdapter/memory/kernel_mapping.c:521-540 | after the copy-back loop a source byte is what the one segment that mirrors it showed, and other source bytes are untouched |
| ShadowProofs.PlaceKeeps | OrlixHostAdapter/Sources/OrlixHostAdapter/memory/kernel_mapping.c:436-461 | copying a page into a cleared range, before and after its segment is linked, changes no logical byte |
| ShadowProofs.MapShadowKeeps | OrlixHostAdapter/Sources/OrlixHostAdapter/memory/kernel_mapping.c:392-473 | mapping one page keeps the invariant and the logical memory on every success and failure path |
| ShadowProofs.RefreshWindowKeeps | OrlixHostAdapter/Sources/OrlixHostAdapter/memory/kernel_mapping.c:816-943 | refreshing a window keeps the invariant and the logical memory on every success and failure path, when no executable page of a writable window holds an instruction to rewrite |
| ShadowTheorems.RefreshWindowEffect | OrlixHostAdapter/Sources/OrlixHostAdapter/memory/kernel_mapping.c:831-943 | a successful refresh with a writable window changes the logical memory of its executable pages to their rewritten form and nothing else |
| ShadowTheorems.RefreshWindowPreservesExactly | OrlixHostAdapter/Sources/OrlixHostAdapter/memory/kernel_mapping.c:831-943 | a successful refresh keeps the logical memory if and only if no executable page of a writable window holds an instruction to rewrite |
| ShadowTheorems.SharedWindowRewritesCode | OrlixHostAdapter/Sources/OrlixHostAdapter/memory/kernel_mapping.c:831-927 | a concrete window of one writable and one executable page after which Linux memory would hold a rewritten instruction |
| ShadowEffects.RefreshWindowOutcome | OrlixHostAdapter/Sources/OrlixHostAdapter/memory/kernel_mapping.c:816-943 | the effect of a refresh with a writable window on every answer of the host: executable pages that reached the list are rewritten in Linux memory, also when the refresh then fails and unmaps, and nothing else changes |
| ShadowEffects.RefreshKeepsExactly | OrlixHostAdapter/Sources/OrlixHostAdapter/memory/kernel_mapping.c:816-943 | a refresh, failed or not, keeps the logical memory if and only if no executable page it reached holds an instruction to rewrite |
| ShadowEffects.PlaceAllStops | OrlixHostAdapter/Sources/OrlixHostAdapter/memory/kernel_mapping.c:898-920 | when a list node cannot be allocated, the page at hand is copied over addresses no segment shows, and the pages before it are linked |
| ShadowEffects.MapPageOutcome | OrlixHostAdapter/Sources/OrlixHostAdapter/memory/kernel_mapping.c:392-473 | the effect of mapping one writable page on every answer of the host: once linked, an executable page is rewritten in Linux memory, and nothing else changes |
| ShadowEffects.MapPageKeepsExactly | OrlixHostAdapter/Sources/OrlixHostAdapter/memory/kernel_mapping.c:729-767 | mapping a page writable and executable keeps the logical memory if and only if its segment is not linked or the page holds no instruction to rewrite |
| ShadowEffects.CopyBackLast | OrlixHostAdapter/Sources/OrlixHostAdapter/memory/kernel_mapping.c:521-540 | aliased or not, after a copy-back each source byte is what the last segment in list order that mirrors it showed |
| ShadowEffects.AliasedStoreSurvivesExactly | OrlixHostAdapter/Sources/OrlixHostAdapter/memory/kernel_mapping.c:956-967 | with writable segments of a common source, a user store survives a sync if and only if the last of them in list order shows the stored value |
| ShadowEffects.AliasedStoreLost | OrlixHostAdapter/Sources/OrlixHostAdapter/memory/kernel_mapping.c:956-967 | a concrete mapping with two writable views of one page in which a store through the first is gone after a sync |
| ShadowEffects.RefreshWindowLinks | OrlixHostAdapter/Sources/OrlixHostAdapter/memory/kernel_mapping.c:868-943 | a successful refresh leaves one mapping with the joint protection that lists every page |
| ShadowEffects.MixedWindowStoreExactly | OrlixHostAdapter/Sources/OrlixHostAdapter/memory/kernel_mapping.c:831-927 | a user store to a page that was handed in as not writable reaches Linux memory at the next sync if and only if another page of the window is writable, or the byte was there already |
| ShadowTheorems.PlaceAllExact | OrlixHostAdapter/Sources/OrlixHostAdapter/memory/kernel_mapping.c:893-927 | with enough list nodes the placing loop succeeds, shows every page of the window and leaves the rest of user memory alone |
| ShadowTheorems.FirstPageExactly | OrlixHostAdapter/Sources/OrlixHostAdapter/memory/kernel_mapping.c:593-687 | creating a mapping in the first host page, where the unmap before it is skipped: mappings that were disjoint stay so if and only if none touched the range; earlier mappings may be in that page themselves |
| ShadowTheorems.FirstPageOverlap | OrlixHostAdapter/Sources/OrlixHostAdapter/memory/kernel_mapping.c:392-687 | two maps of a page at address 4096 under 16 KiB host pages leave overlapping mappings |
| KernelStore.StoreSurvivesExactly | OrlixHostAdapter/Sources/OrlixHostAdapter/memory/kernel_mapping.c:786-814 | a kernel store followed by a refresh with any protection that is not both writable and executable survives if and only if the covering mapping already has the wanted protection or the store changed nothing a writable segment shows: otherwise the re-creation copies the old view back over it |
| KernelStore.KernelStoreLost | OrlixHostAdapter/Sources/OrlixHostAdapter/memory/kernel_mapping.c:786-814 | a concrete kernel store to a page mapped writable that a refresh with read permission undoes |
| KernelStore.RefreshFound | OrlixHostAdapter/Sources/OrlixHostAdapter/memory/kernel_mapping.c:392-473 | the "source wins" refresh of a page in a mapping of the wanted protection: the kernel store is the only change of the logical memory |
| KernelStore.RefreshCreates | OrlixHostAdapter/Sources/OrlixHostAdapter/memory/kernel_mapping.c:786-814 | without a mapping of that protection the refresh is the ordinary mapping with copy-back |
| KernelStore.WrittenByte | OrlixKernel/Sources/ports/orlix/overlay/arch/orlix/mm/uaccess.c:115-152 | a direct kernel store reaches the logical memory only where no writable segment shows the byte |
| KernelStore.DropWithoutCopy | OrlixHostAdapter/Sources/OrlixHostAdapter/memory/kernel_mapping.c:556-591 | removing segments without copy-back keeps the invariant, changes neither memory and drops exactly the segments that touch the range |
| UserShadow.HostUserMemory.CopyBackMapping | OrlixHostAdapter/Sources/OrlixHostAdapter/memory/kernel_mapping.c:521-540 | the copy-back loop over one mapping computes the specification of copy-back |
| UserShadow.HostUserMemory.SyncWritableMappings | OrlixHostAdapter/Sources/OrlixHostAdapter/memory/kernel_mapping.c:956-967 | the sync loop over the mapping list refines `Sync` |
| UserShadow.HostUserMemory.FindMapping | OrlixHostAdapter/Sources/OrlixHostAdapter/memory/kernel_mapping.c:623-643 | the list walk finds the first mapping that contains the range with the protection |
| UserShadow.HostUserMemory.UnlinkSegments | OrlixHostAdapter/Sources/OrlixHostAdapter/memory/kernel_mapping.c:556-591 | the link-editing loop keeps the segments outside the range in order and copies the others back in list order |
| UserShadow.HostUserMemory.RemoveSegmentsInRange | OrlixHostAdapter/Sources/OrlixHostAdapter/memory/kernel_mapping.c:556-591 | removal in one mapping refines `RemoveSegments` and keeps the list valid |
| UserShadow.HostUserMemory.UnmapPages | OrlixHostAdapter/Sources/OrlixHostAdapter/memory/kernel_mapping.c:605-620 | the unlinking loop copies back and removes exactly the mappings that touch the range |
| UserShadow.HostUserMemory.UnmapMappedRange | OrlixHostAdapter/Sources/OrlixHostAdapter/memory/kernel_mapping.c:593-621 | unmap refines `UnmapRange`, with its early return |
| UserShadow.HostUserMemory.CreateAt | OrlixHostAdapter/Sources/OrlixHostAdapter/memory/kernel_mapping.c:655-687 | creation with its failures: mappings unmapped first, pages zeroed, new mapping at the head of the list |
| UserShadow.HostUserMemory.FindOrCreate | OrlixHostAdapter/Sources/OrlixHostAdapter/memory/kernel_mapping.c:411-425 | find, else create, refines `FindOrCreate` |
| UserShadow.HostUserMemory.AddSegment | OrlixHostAdapter/Sources/OrlixHostAdapter/memory/kernel_mapping.c:453-461 | a new segment goes in front of the list of its mapping and of no other |
| UserShadow.HostUserMemory.FillPage | OrlixHostAdapter/Sources/OrlixHostAdapter/memory/kernel_mapping.c:427-473 | the part of the page map after the mapping is known, with its failure paths |
| UserShadow.HostUserMemory.MapShadowUserPages | OrlixHostAdapter/Sources/OrlixHostAdapter/memory/kernel_mapping.c:392-473 | the page map refines `MapShadowUserPages` |
| UserShadow.HostUserMemory.MappingMatches | OrlixHostAdapter/Sources/OrlixHostAdapter/memory/kernel_mapping.c:490-519 | the nested list walk answers whether a segment of the same protection mirrors exactly this page |
| UserShadow.HostUserMemory.MapPage | OrlixHostAdapter/Sources/OrlixHostAdapter/memory/kernel_mapping.c:729-767 | the page map with its skip on a matching writable page refines `MapPage` |
| UserShadow.HostUserMemory.PlaceAll | OrlixHostAdapter/Sources/OrlixHostAdapter/memory/kernel_mapping.c:898-927 | the window loop refines `PlaceAll`, also when a list node cannot be allocated |
| UserShadow.HostUserMemory.FillWindow | OrlixHostAdapter/Sources/OrlixHostAdapter/memory/kernel_mapping.c:884-943 | the replacement of a window inside its mapping, with the removal of the mapping on failure |
| UserShadow.HostUserMemory.RefreshWindow | OrlixHostAdapter/Sources/OrlixHostAdapter/memory/kernel_mapping.c:816-943 | the window refresh refines `RefreshWindow` |
| UserShadow.HostUserMemory.CheckInputs | OrlixHostAdapter/Sources/OrlixHostAdapter/memory/kernel_mapping.c:831-863 | the checking loop accepts exactly the windows whose pages lie inside the range, non-empty and not wrapping, and computes the joint protection |
| Translation.DecodeRecoversOperation | OrlixHostAdapter/Sources/OrlixHostAdapter/runtime/trap.c:86-156 | the trap-side decoder recovers from every rewritten word the original operation and its source register, and a rewritten word is not rewritten again |
| Translation.RewriteIsTranslateWord | OrlixHostAdapter/Sources/OrlixHostAdapter/memory/kernel_mapping.c:375-390 | the byte comparisons of the rewriter change exactly the words SVC #0 and MSR TPIDR_EL0 |
| Translation.TranslateAt | OrlixHostAdapter/Sources/OrlixHostAdapter/memory/kernel_mapping.c:375-390 | every aligned word of a page is rewritten on its own |
| Translation.TranslateSplits | OrlixHostAdapter/Sources/OrlixHostAdapter/memory/kernel_mapping.c:375-390 | rewriting a page is rewriting its parts at any word boundary |
| Translation.TranslateFixesExactly | OrlixHostAdapter/Sources/OrlixHostAdapter/memory/kernel_mapping.c:375-390 | a page is unchanged if and only if it holds no word to rewrite |
| Translation.TranslateKeepsOtherBytes | OrlixHostAdapter/Sources/OrlixHostAdapter/memory/kernel_mapping.c:375-390 | bytes outside rewritten words never change, including a partial word at the end |
| Translation.TranslateIdempotent | OrlixHostAdapter/Sources/OrlixHostAdapter/memory/kernel_mapping.c:375-390 | rewriting twice is rewriting once, for any page |
| Translation.TranslateInPlace | OrlixHostAdapter/Sources/OrlixHostAdapter/memory/kernel_mapping.c:375-390 | the in-place loop over the page computes `Translate` of the old page |
| HostWindow.SyncUserHostWindow | OrlixKernel/Sources/ports/orlix/overlay/arch/orlix/mm/init.c:450-520 | the window function builds exactly the clipped window of the present pages, and succeeds if and only if the requested page is one of them |
| HostWindow.CollectPages | OrlixKernel/Sources/ports/orlix/overlay/arch/orlix/mm/init.c:465-507 | the page loop appends one segment per present page, in order |
| HostWindow.CollectShape | OrlixKernel/Sources/ports/orlix/overlay/arch/orlix/mm/init.c:465-507 | the list is ascending, disjoint, inside the window and no longer than the array it is stored in |
| HostWindow.CollectComplete | OrlixKernel/Sources/ports/orlix/overlay/arch/orlix/mm/init.c:465-507 | every present page of the window, the requested one included, has its segment |
| HostWindow.WindowAligned | OrlixKernel/Sources/ports/orlix/overlay/arch/orlix/mm/init.c:95-105 | the clipped window is page aligned, contains no address above the task size and starts at or below the page |
| HostWindow.BuiltWindowIsAcceptable | OrlixKernel/Sources/ports/orlix/overlay/arch/orlix/mm/init.c:450-520 | a window built by the kernel side passes every check of the host adapter, and is readable, un-aliased and disjoint as the refresh theorems ask; that its frames are not shown elsewhere and hold no instruction to rewrite is the caller's |
| HostWindow.FramesApart | OrlixKernel/Sources/ports/orlix/overlay/arch/orlix/mm/init.c:450-520 | pages with distinct frames give un-aliased sources |
| ConsoleRing.InputRing.EnqueueInput | OrlixHostAdapter/Sources/OrlixHostAdapter/terminal/console.c:69-106 | host bytes are accepted up to the free space and appended to the queue the ring stands for |
| ConsoleRing.InputRing.CopyIn | OrlixHostAdapter/Sources/OrlixHostAdapter/terminal/console.c:82-101 | one chunk up to the end of the array is an append |
| ConsoleRing.InputRing.ReadInput | OrlixHostAdapter/Sources/OrlixHostAdapter/terminal/console.c:108-145 | a read returns the front of the queue, as many bytes as asked for or present, and leaves the rest |
| ConsoleRing.InputRing.CopyOut | OrlixHostAdapter/Sources/OrlixHostAdapter/terminal/console.c:122-141 | one chunk up to the end of the array is taken from the front |
| ConsoleRing.AppendChunk | OrlixHostAdapter/Sources/OrlixHostAdapter/terminal/console.c:82-101 | writing a chunk at the wrapped tail appends it to the ring contents |
| ConsoleRing.TakeChunk | OrlixHostAdapter/Sources/OrlixHostAdapter/terminal/console.c:122-141 | the chunk at the head followed by the ring after the wrapped advance is the ring before |
| ConsoleInput.ConsoleDevice.HostEnqueue | OrlixHostAdapter/Sources/OrlixHostAdapter/terminal/console.c:69-106 | typing keeps conservation: the bytes taken, which are those of the published entries in order, followed by the ring are the accepted bytes |
| ConsoleInput.ConsoleDevice.Repost | OrlixKernel/Sources/ports/orlix/overlay/drivers/orlix/virtio/mmio.c:459-487 | the driver may post other descriptors and change its memory between any two steps: conservation is kept |
| ConsoleInput.ConsoleDevice.ReadInto | OrlixHostAdapter/Sources/OrlixHostAdapter/terminal/console.c:108-145 | a read into a guest buffer moves at most a ring of bytes from the ring to the guest, and is short only when the ring is empty |
| ConsoleInput.ConsoleDevice.ReadBuffer | OrlixKernel/Sources/ports/orlix/overlay/drivers/orlix/virtio/mmio.c:430-450 | the same after what the host typed before it |
| ConsoleInput.ConsoleDevice.ProcessHead | OrlixKernel/Sources/ports/orlix/overlay/drivers/orlix/virtio/mmio.c:413-457 | one descriptor chain: the payload fills its buffers in order under arrivals between any two reads; the 32-bit count is the payload length and never wraps; a short payload means an empty ring, and the head is left if and only if nothing was taken for it |
| ConsoleInput.ConsoleDevice.Publish | OrlixKernel/Sources/ports/orlix/overlay/drivers/orlix/virtio/mmio.c:459-487 | the handled head becomes one used entry with the length of its payload, and the bytes taken are those of the entries again |
| ConsoleInput.ConsoleDevice.DrainOne | OrlixKernel/Sources/ports/orlix/overlay/drivers/orlix/virtio/mmio.c:470-486 | one turn of the drain loop: the next avail head in order, published, or left with an empty ring and an empty payload |
| ConsoleInput.DrainedNext | OrlixKernel/Sources/ports/orlix/overlay/drivers/orlix/virtio/mmio.c:470-486 | one more head extends what the drain has done |
| ConsoleInput.ConsoleDevice.DrainInput | OrlixKernel/Sources/ports/orlix/overlay/drivers/orlix/virtio/mmio.c:459-487 | conservation over a whole drain with arrivals at every read: used payloads in order and then the ring are all accepted bytes, without condition; every pending head is published once in order, unless the ring ran empty with nothing taken for the next one; guest memory is changed by those payloads only |
| ConsoleInput.ChainInGuest | OrlixKernel/Sources/ports/orlix/overlay/drivers/orlix/virtio/mmio.c:413-457 | every buffer the walk uses lies in guest memory |
| ConsoleInput.DeliveredReadable | OrlixKernel/Sources/ports/orlix/overlay/drivers/orlix/virtio/mmio.c:413-487 | after the drain the driver reads each payload back from the buffers of its chain, when those buffers do not overlap |
| Virtqueue.SlotIsMod | OrlixKernel/Sources/ports/orlix/overlay/drivers/orlix/virtio/mmio.c:405-408 | a free-running 16-bit counter modulo the queue size is the unbounded counter modulo the queue size |
| Virtqueue.SlotsDiffer | OrlixKernel/Sources/ports/orlix/overlay/drivers/orlix/virtio/mmio.c:405-408 | entries less than a queue size apart use different slots, also across the 16-bit wrap |
| Virtqueue.SlotsDistinctExactly | OrlixKernel/Sources/ports/orlix/overlay/drivers/orlix/virtio/mmio.c:405-408 | that holds for all counters if and only if the queue size divides 2^16 |
| Virtqueue.Queue.UnreadIntact | OrlixKernel/Sources/ports/orlix/overlay/drivers/orlix/virtio/mmio.c:392-411 | with at most a queue size outstanding, no used entry the driver has not read is overwritten |
| Virtqueue.Queue.PushUsed | OrlixKernel/Sources/ports/orlix/overlay/drivers/orlix/virtio/mmio.c:392-411 | one used entry is published after the earlier ones |
| Virtqueue.Queue.Advance | OrlixKernel/Sources/ports/orlix/overlay/drivers/orlix/virtio/mmio.c:578-587 | last_avail follows the unbounded count of consumed heads |
| Virtqueue.Queue.Drain | OrlixKernel/Sources/ports/orlix/overlay/drivers/orlix/virtio/mmio.c:655-663 | a drain ends after (idx - last_avail) mod 2^16 heads and publishes exactly one entry per head, in order |
| Virtqueue.TakeNext | OrlixKernel/Sources/ports/orlix/overlay/drivers/orlix/virtio/mmio.c:703-717 | consuming a head lowers the pending count by one, also across the wrap |
| GuestBuffers.ScatterElsewhere | OrlixKernel/Sources/ports/orlix/overlay/drivers/orlix/virtio/mmio.c:177-183 | scattered data touches no byte outside the buffers |
| GuestBuffers.GatherUnchanged | OrlixKernel/Sources/ports/orlix/overlay/drivers/orlix/virtio/mmio.c:177-183 | what is read from buffers depends on the bytes of those buffers only |
| GuestBuffers.GatherScatter | OrlixKernel/Sources/ports/orlix/overlay/drivers/orlix/virtio/mmio.c:177-183 | reading disjoint buffers back gives the data scattered into them |
| GuestBuffers.ScatterAppend | OrlixKernel/Sources/ports/orlix/overlay/drivers/orlix/virtio/mmio.c:413-457 | scattering into one more buffer is one more copy |
| BlockChain.FollowExactly | OrlixKernel/Sources/ports/orlix/overlay/drivers/orlix/virtio/mmio.c:341-367 | the guarded walk reaches a status descriptor if and only if the next chain stays in range, has no INDIRECT flag and ends; it then visits exactly that chain |
| BlockChain.FollowReaches | OrlixKernel/Sources/ports/orlix/overlay/drivers/orlix/virtio/mmio.c:341-367 | a chain no longer than the guard is walked to its end |
| BlockChain.FollowIsChain | OrlixKernel/Sources/ports/orlix/overlay/drivers/orlix/virtio/mmio.c:341-367 | what the walk visits is a chain of the table |
| BlockChain.ChainDistinct | OrlixKernel/Sources/ports/orlix/overlay/drivers/orlix/virtio/mmio.c:341-367 | a chain that ends never visits a descriptor twice |
| BlockChain.DistinctBounded | OrlixKernel/Sources/ports/orlix/overlay/drivers/orlix/virtio/mmio.c:341-367 | pigeonhole: distinct indices below the table size are no more than the table size |
| BlockChain.GuardStopsOnlyCycles | OrlixKernel/Sources/ports/orlix/overlay/drivers/orlix/virtio/mmio.c:341-365 | a larger guard accepts no further chain: the guard rejects no acyclic chain, direct or indirect |
| BlockChain.CycleRejected | OrlixKernel/Sources/ports/orlix/overlay/drivers/orlix/virtio/mmio.c:341-365 | every chain that runs into a cycle is rejected |
| BlockImage.StateIsValid | OrlixHostAdapter/Sources/OrlixHostAdapter/boot/resources.c:713-757 | a prepared state image is a whole number of sectors, at least the minimum, and is the file followed by zeros |
| BlockImage.StateKeptExactly | OrlixHostAdapter/Sources/OrlixHostAdapter/boot/resources.c:736-757 | the file survives preparation if and only if the minimum is at most 2^64 - 512: above that the rounding wraps and the file is emptied |
| BlockImage.CapacityExactly | OrlixHostAdapter/Sources/OrlixHostAdapter/boot/resources.c:927-970 | a request is inside the capacity if and only if it is non-empty and ends within the zero-padded image |
| BlockImage.ReadIsSlice | OrlixHostAdapter/Sources/OrlixHostAdapter/boot/resources.c:941-1000 | a host read succeeds exactly inside the capacity and returns that slice of the zero-padded image, also where it passes the end of the file |
| BlockTheorems.ReadRun | OrlixKernel/Sources/ports/orlix/overlay/drivers/orlix/virtio/mmio.c:341-362 | the data part of an IN succeeds exactly when every buffer is usable and the whole run is inside the image, and then fills the buffers with that slice |
| BlockTheorems.WriteRun | OrlixKernel/Sources/ports/orlix/overlay/drivers/orlix/virtio/mmio.c:341-362 | the data part of an OUT, likewise, stores the gathered buffers at the sector and nowhere else |
| BlockTheorems.RequestRuns | OrlixKernel/Sources/ports/orlix/overlay/drivers/orlix/virtio/mmio.c:299-390 | a well-formed request is its header, the data run over its chain and the status write |
| BlockTheorems.ReadRequest | OrlixKernel/Sources/ports/orlix/overlay/drivers/orlix/virtio/mmio.c:299-390 | an IN over buffers of whole sectors: success condition both ways, status byte, used length, and the driver reads the contiguous slice of the padded image from its buffers |
| BlockTheorems.WriteRequest | OrlixKernel/Sources/ports/orlix/overlay/drivers/orlix/virtio/mmio.c:299-390 | an OUT: success if and only if the device is writable, the buffers usable and the run inside the image; guest memory changes in the status byte only |
| BlockRuns.WriteThenRead | OrlixKernel/Sources/ports/orlix/overlay/drivers/orlix/virtio/mmio.c:251-390 | what an OUT wrote, an IN of the same sectors returns through any two well-formed chains, after any run of requests in between that do not write these sectors, whatever the guest does to its memory |
| BlockRuns.ServeSpares | OrlixKernel/Sources/ports/orlix/overlay/drivers/orlix/virtio/mmio.c:703-717 | over any run of requests a window that none of them writes stays as it is |
| BlockRuns.RequestSpares | OrlixKernel/Sources/ports/orlix/overlay/drivers/orlix/virtio/mmio.c:299-390 | any request, malformed ones included, leaves a byte alone that its sector and buffers do not cover |
| BlockRuns.RunOutside | OrlixKernel/Sources/ports/orlix/overlay/drivers/orlix/virtio/mmio.c:341-362 | a run of data descriptors writes only from its sector on, as many bytes as its buffers hold |
| BlockTheorems.RunKeeps | OrlixHostAdapter/Sources/OrlixHostAdapter/boot/resources.c:1002-1054 | no data run resizes an image, and only an OUT on a writable device changes it |
| BlockTheorems.RequestKeeps | OrlixKernel/Sources/ports/orlix/overlay/drivers/orlix/virtio/mmio.c:299-390 | the same for any request on any input, malformed ones included |
| BlockTheorems.ReadOnlyImageKept | OrlixHostAdapter/Sources/OrlixHostAdapter/boot/resources.c:888-890 | over any run of requests the image of a device whose writable flag is clear never changes |
| BlockDevice.Device.ReadImage | OrlixHostAdapter/Sources/OrlixHostAdapter/boot/resources.c:941-1000 | the read with its zero fill refines the host read |
| BlockDevice.Device.WriteImage | OrlixHostAdapter/Sources/OrlixHostAdapter/boot/resources.c:1002-1054 | the write refines the host write |
| BlockDevice.Device.ProcessBlockData | OrlixKernel/Sources/ports/orlix/overlay/drivers/orlix/virtio/mmio.c:251-297 | the switch on the request type refines one data step, with all its error exits |
| BlockDevice.Device.FinishRequest | OrlixKernel/Sources/ports/orlix/overlay/drivers/orlix/virtio/mmio.c:364-390 | the status part, with its error exits |
| BlockDevice.Device.ProcessRequest | OrlixKernel/Sources/ports/orlix/overlay/drivers/orlix/virtio/mmio.c:299-390 | the loop refines a request on every table, header and chain |
| BlockDevice.Device.DrainRequests | OrlixKernel/Sources/ports/orlix/overlay/drivers/orlix/virtio/mmio.c:703-717 | the drain serves the pending heads in order, one used entry each, and leaves disk and guest as the requests in that order do |
| KickProtocol.NoLostKick | OrlixKernel/Sources/ports/orlix/overlay/drivers/orlix/virtio/mmio.c:720-757 | in every reachable state, when the worker is idle and unqueued, no notifier is mid-call and no reset is under way, no bit is pending and no kick is owed a pass |
| KickProtocol.EveryKickServed | OrlixKernel/Sources/ports/orlix/overlay/drivers/orlix/virtio/mmio.c:720-757 | without a reset, a kick waits for at most six steps of the worker, whatever other threads do in between |
| KickProtocol.StepPossible | OrlixKernel/Sources/ports/orlix/overlay/drivers/orlix/virtio/mmio.c:720-757 | while a kick is owed, the worker can move unless a notifier is between set_bit and schedule_work |
| KickProtocol.StepApproaches | OrlixKernel/Sources/ports/orlix/overlay/drivers/orlix/virtio/mmio.c:720-757 | no step of another thread moves the pass of an owed queue further away, and each worker step brings it closer |
| KickProtocol.OwedNotLong | OrlixKernel/Sources/ports/orlix/overlay/drivers/orlix/virtio/mmio.c:720-757 | from any reachable state the number of worker steps before the pass is bounded by the distance |
| KickProtocol.StepKeeps | OrlixKernel/Sources/ports/orlix/overlay/drivers/orlix/virtio/mmio.c:720-757 | every step of notifiers, worker and reset keeps the invariant |
| KickProtocol.RunKeeps | OrlixKernel/Sources/ports/orlix/overlay/drivers/orlix/virtio/mmio.c:922-931 | so does every run, with resets at any point |
| UserCopy.UserMemory.CopyFromUser | OrlixKernel/Sources/ports/orlix/overlay/arch/orlix/mm/uaccess.c:78-113 | the chunked copy computes the byte-at-a-time read through the translation: with r left, the first n-r bytes are exact and the rest of the destination is untouched |
| UserCopy.UserMemory.CopyToUser | OrlixKernel/Sources/ports/orlix/overlay/arch/orlix/mm/uaccess.c:115-152 | the chunked copy computes the byte-at-a-time store for the first n-r bytes; at most one further page-bounded chunk is written, and only when its sync failed |
| UserCopy.UserMemory.ClearUser | OrlixKernel/Sources/ports/orlix/overlay/arch/orlix/mm/uaccess.c:166-186 | the buffer-at-a-time clear, including its residual when a buffer is copied in part, is one store of n zeros |
| UserCopy.UserMemory.Locate | OrlixKernel/Sources/ports/orlix/overlay/arch/orlix/mm/uaccess.c:10-45 | the walk answers the physical address of the page plus the offset, or that access is denied |
| UserCopy.InChunk | OrlixKernel/Sources/ports/orlix/overlay/arch/orlix/mm/uaccess.c:84-108 | all bytes of a page-bounded chunk share one translation, also at the end of the address space |
| UserCopy.ReadChunk | OrlixKernel/Sources/ports/orlix/overlay/arch/orlix/mm/uaccess.c:84-108 | one chunk extends the byte-at-a-time read by a contiguous piece |
| UserCopy.StoreChunk | OrlixKernel/Sources/ports/orlix/overlay/arch/orlix/mm/uaccess.c:122-148 | one chunk extends the byte-at-a-time store by a contiguous piece |
| UserCopy.ArriveTogether | OrlixKernel/Sources/ports/orlix/overlay/arch/orlix/mm/uaccess.c:122-148 | the bytes of a chunk arrive together or not at all |
| UserCopy.ReadStep | OrlixKernel/Sources/ports/orlix/overlay/arch/orlix/mm/uaccess.c:84-108 | one turn of the read loop keeps the relation to the byte-at-a-time read |
| UserCopy.StoreStep | OrlixKernel/Sources/ports/orlix/overlay/arch/orlix/mm/uaccess.c:122-148 | one turn of the store loop continues, or ends with the failed sync reported |
| UserCopy.FromVisit | OrlixKernel/Sources/ports/orlix/overlay/arch/orlix/mm/uaccess.c:166-186 | a copy started in the middle of a range sees the same translations |
| UserCopy.ChunkResult | OrlixKernel/Sources/ports/orlix/overlay/arch/orlix/mm/uaccess.c:166-186 | a store inside one page leaves nothing or everything |
| UserCopy.ClearChunk | OrlixKernel/Sources/ports/orlix/overlay/arch/orlix/mm/uaccess.c:166-186 | a cleared buffer extends the store of zeros, and a failure leaves the whole residual |
| UserCopy.ClearStep | OrlixKernel/Sources/ports/orlix/overlay/arch/orlix/mm/uaccess.c:166-186 | one turn of the clearing loop, with and without an address space |
| CommandRoundTrip.RoundTripExactly | OrlixOS/Sources/Session/OrlixEnvironment.swift:550-676 | end to end: init runs exactly what the descriptor asks for (a bare shell gets -i, an empty environment the default one) if and only if there are at most 16 arguments and 32 entries, every text is short enough for its buffer, a command with a slash byte begins with one, and no name begins with an equals byte |
| CommandRoundTrip.JoinedSlashRefused | OrlixOS/Sources/init/init.c:389-399 | a concrete command whose slash a combining accent joins: the printer accepts it and init does not |
| CommandRoundTrip.InitReceives | OrlixOS/Sources/init/init.c:434-520 | for every accepted descriptor whose line fits the read buffer, the exact configuration init runs, with what is cut when something is too long or init does not take it |
| CommandRoundTrip.KeptExactly | OrlixOS/Sources/init/init.c:462-472 | arguments arrive whole if and only if they fit, and otherwise as a prefix |
| CommandRoundTrip.EntriesExactly | OrlixOS/Sources/init/init.c:485-495 | assignments arrive whole if and only if they fit and init takes each, and otherwise as a prefix |
| CommandRoundTrip.LookupFinds | OrlixOS/Sources/init/init.c:262-326 | looking a key up on a line of clean tokens finds the first entry with that key and no other |
| CommandRoundTrip.KeysDiffer | OrlixOS/Sources/init/init.c:434-520 | no two of init's keys are the same text, numbered ones included |
| CommandRoundTrip.BeginsWithKey | OrlixOS/Sources/init/init.c:305-317 | a token begins with a key only when it has that key |
| CommandRoundTrip.DefaultLine | OrlixOS/Sources/Session/OrlixEnvironment.swift:442-443 | the default kernel line is the join of its tokens |
| CommandRoundTrip.PrintedLine | OrlixOS/Sources/Session/OrlixEnvironment.swift:550-564 | the printed line is the join of the default tokens and those of the environment |
| CommandRoundTrip.LineRead | OrlixOS/Sources/init/init.c:277-295 | the line is read back whole when it fits, with or without a newline |
| CommandRoundTrip.FindOnLine | OrlixOS/Sources/Session/OrlixEnvironment.swift:613-644 | every key of init finds its own entry of the descriptor and none finds another |
| CommandRoundTrip.TextArrives | OrlixOS/Sources/init/init.c:362-369 | a text arrives unchanged if and only if it is short enough encoded |
| CommandRoundTrip.NumberArrives | OrlixOS/Sources/init/init.c:371-387 | user and group ids arrive unchanged |
| CommandRoundTrip.ArgsArrive | OrlixOS/Sources/init/init.c:434-520 | arguments arrive in order up to the first one lost |
| CommandRoundTrip.EnvsArrive | OrlixOS/Sources/init/init.c:434-520 | environment entries arrive in order up to the first one lost |
| PercentCode.DecodeEncode | OrlixOS/Sources/init/init.c:340-360 | percent decoding inverts the Swift encoder on every byte string |
| PercentCode.EncodeClean | OrlixOS/Sources/Session/OrlixEnvironment.swift:646-676 | encoded text has no blank, no newline and no NUL, and is at most three times as long |
| PercentCode.PercentEncoded | OrlixOS/Sources/Session/OrlixEnvironment.swift:646-656 | the appending loop computes `Encode` |
| PercentCode.PercentDecode | OrlixOS/Sources/init/init.c:340-360 | the in-place decoder leaves the decoded text and its terminator, or fails exactly when the text is malformed; it reads the byte after the buffer if and only if the text fills the buffer and ends in a percent sign that begins an escape |
| PercentCode.ReadToken | OrlixOS/Sources/init/init.c:345-354 | one token of the decoder: the character it stands for, or nothing exactly when the text has no decoding, and when its second digit is read behind the buffer |
| PercentCode.FullBufferReadsPast | OrlixOS/Sources/init/init.c:345-354 | a plain text with a percent sign behind it that fills its buffer, of any size, meets the condition |
| PercentCode.EncodedStaysInside | OrlixOS/Sources/Session/OrlixEnvironment.swift:646-656 | decoding what the encoder printed never reads past the buffer |
| PercentCode.EscapeAtEnd | OrlixOS/Sources/init/init.c:345-354 | a malformed escape is the last character exactly when the text ends in an escape |
| DecimalText.StrtoulDecimal | OrlixOS/Sources/init/init.c:371-387 | the number parser inverts decimal printing on every 64-bit value |
| DecimalText.DecimalInjective | OrlixOS/Sources/Session/OrlixEnvironment.swift:613-644 | different numbers print differently, so numbered keys differ |
| DecimalText.DecimalLength | OrlixOS/Sources/init/init.c:371-387 | a number below 10^k prints in at most k digits, so keys and ids fit their buffers |
| InitCommand.LookupAt | OrlixOS/Sources/init/init.c:297-322 | one turn of the token loop: the key is found here or exactly where the rest of the line has it |
| InitCommand.ReadCmdlineValue | OrlixOS/Sources/init/init.c:262-326 | the cursor loops compute `Value`: the first token with the key, unless it does not fit |
| InitCommand.ReadCmdlineDecoded | OrlixOS/Sources/init/init.c:362-369 | a value is found, fits and decodes, or nothing is returned |
| InitCommand.ReadCmdlineUnsigned | OrlixOS/Sources/init/init.c:371-387 | a number is replaced only by a well-formed value |
| InitCommand.CommandConfig.CollectArguments | OrlixOS/Sources/init/init.c:434-520 | arguments are collected up to the first missing, oversized or malformed one |
| InitCommand.CommandConfig.SelectArguments | OrlixOS/Sources/init/init.c:434-520 | the command alone when there are no arguments, and -i for a bare shell |
| InitCommand.CommandConfig.SelectEnvironment | OrlixOS/Sources/init/init.c:434-520 | valid assignments up to the first invalid one, or the default environment |
| InitCommand.CommandConfig.SelectedCommandConfig | OrlixOS/Sources/init/init.c:434-520 | the struct filled step by step is the selected configuration |
| CommandLine.ArgumentTokens | OrlixOS/Sources/Session/OrlixEnvironment.swift:619-624 | the argument loop emits numbered tokens or reports the first invalid argument |
| CommandLine.EnvironmentTokens | OrlixOS/Sources/Session/OrlixEnvironment.swift:624-636 | the environment loop emits numbered tokens or reports the first invalid entry |
| CommandLine.MaterializedExecutionTokens | OrlixOS/Sources/Session/OrlixEnvironment.swift:613-644 | the tokens of a valid descriptor in order, or the first problem in the order of the checks |
| CommandLine.ExecutionTokens | OrlixOS/Sources/Session/OrlixEnvironment.swift:613-644 | the tokens spelled out: command, arguments, environment, directory, user, group |
| SignalFrames.EpisodeRestores | OrlixKernel/Sources/ports/orlix/overlay/arch/orlix/kernel/signal.c:33-139 | any properly nested sequence of deliveries and returns, whose handlers write below their own frame only, restores all 31 registers, sp, pc, pstate and the signal mask, and leaves memory at and above the interrupted sp alone |
| SignalFrames.ReturnRestores | OrlixKernel/Sources/ports/orlix/overlay/arch/orlix/kernel/signal.c:226-256 | rt_sigreturn after a delivery gives back exactly the interrupted user state when memory from the frame up is kept, and fails if and only if that state was not a valid user state |
| SignalFrames.BodyKeeps | OrlixKernel/Sources/ports/orlix/overlay/arch/orlix/kernel/signal.c:69-139 | a handler body with signals of its own keeps everything from its frame up |
| SignalFrames.NestedFrameBelow | OrlixKernel/Sources/ports/orlix/overlay/arch/orlix/kernel/signal.c:69-85 | frames of nested signals are 16-aligned, lie below the interrupted sp and are disjoint |
| SignalFrames.PlaceBelow | OrlixKernel/Sources/ports/orlix/overlay/arch/orlix/kernel/signal.c:69-85 | frame and frame record are 16-aligned, disjoint and below the interrupted sp |
| SignalFrames.PlaceExactly | OrlixKernel/Sources/ports/orlix/overlay/arch/orlix/kernel/signal.c:69-85 | a frame is placed if and only if the stack has room for it and is in user space |
| SignalFrames.Thread.SetupSigcontext | OrlixKernel/Sources/ports/orlix/overlay/arch/orlix/kernel/signal.c:33-50 | the word loop writes all registers and clears the reserved area, and touches no other memory |
| SignalFrames.Thread.SetupReturn | OrlixKernel/Sources/ports/orlix/overlay/arch/orlix/kernel/signal.c:87-104 | the registers of the handler, or no change without a restorer |
| SignalFrames.Thread.WriteFrame | OrlixKernel/Sources/ports/orlix/overlay/arch/orlix/kernel/signal.c:106-127 | the frame holds the interrupted registers and mask, and only frame memory changes |
| SignalFrames.Thread.SetupInfo | OrlixKernel/Sources/ports/orlix/overlay/arch/orlix/kernel/signal.c:127-139 | siginfo and the two pointer arguments, only for handlers that ask for them |
| SignalFrames.Thread.SetupRtFrame | OrlixKernel/Sources/ports/orlix/overlay/arch/orlix/kernel/signal.c:106-139 | delivery succeeds exactly when there is room for the frame, its memory is mapped, a restorer is given and the handler is a user address; the mask to save goes to the frame; only memory between frame and interrupted sp changes, even on failure |
| SignalFrames.Thread.RestoreSigcontext | OrlixKernel/Sources/ports/orlix/overlay/arch/orlix/kernel/signal.c:52-67 | the registers are those of the frame exactly when it is mapped and names a valid user state, and restart is disabled |
| SignalFrames.Thread.RtSigreturn | OrlixKernel/Sources/ports/orlix/overlay/arch/orlix/kernel/signal.c:226-256 | the system call computes `Returned`, and its result is the restored x0 |
| SyscallRestart.ResultKeptExactly | OrlixKernel/Sources/ports/orlix/overlay/arch/orlix/kernel/signal.c:156-200 | a result is delivered unchanged if and only if its low 32 bits are not a restart code |
| SyscallRestart.ErrorsKept | OrlixKernel/Sources/ports/orlix/overlay/arch/orlix/kernel/signal.c:156-200 | of the kernel's error numbers exactly the four restart codes are acted on |
| SyscallRestart.DoSignalOrRestart | OrlixKernel/Sources/ports/orlix/overlay/arch/orlix/kernel/signal.c:141-200 | the registers follow the restart-code and SA_RESTART table in the first round and are left alone when restart is disabled; a mask that was put aside goes to the frame of the signal, or is in force again without one, and is put aside no longer |
| SyscallRestart.ExitToUserModeWork | OrlixKernel/Sources/ports/orlix/overlay/arch/orlix/kernel/signal.c:210-224 | over any rounds of the exit loop pc is rewound only by the first, once; every later signal is delivered on top of the state the one before left; a mask that was put aside is settled when the loop ends |
| SyscallRestart.Dispatch | OrlixKernel/Sources/ports/orlix/overlay/arch/orlix/kernel/syscall.c:40-62 | a system call: orig_x0 saved, result stored, exit loop, x0 returned |
| SyscallRestart.DispatchSigreturn | OrlixKernel/Sources/ports/orlix/overlay/arch/orlix/kernel/syscall.c:56-61 | rt_sigreturn through the dispatcher: the restored state, x0 included, survives the return path |
| SyscallRestart.CallAfterHandler | OrlixKernel/Sources/ports/orlix/overlay/arch/orlix/kernel/signal.c:141-200 | after the handler has returned, the call is repeated with its original argument, fails with EINTR at the next instruction, or keeps its result, by the table, under the mask that went to the frame |
| ResumeHandoff.HandoffSafe | OrlixHostAdapter/Sources/OrlixHostAdapter/runtime/trap.c:657-720 | in all interleavings: a frame is copied only when none is pending, is loaded only while the target is suspended and not a second time, and user_active is raised only with that frame loaded and before the target runs |
| ResumeHandoff.LoadedInOrder | OrlixHostAdapter/Sources/OrlixHostAdapter/runtime/trap.c:657-720 | frames are loaded in order and at most once, and the target gives up only after a failed load |
| ResumeHandoff.PendingEnds | OrlixHostAdapter/Sources/OrlixHostAdapter/runtime/trap.c:812-844 | a pending frame is never replaced, and every timer step that does not fail to suspend brings its end closer |
| ResumeHandoff.StepKeeps | OrlixHostAdapter/Sources/OrlixHostAdapter/runtime/trap.c:609-611 | every step of either thread keeps the invariant |
| ResumeHandoff.RunKeeps | OrlixHostAdapter/Sources/OrlixHostAdapter/runtime/trap.c:812-844 | so does every run |
| HostTimer.ClockEvent.SetNextEvent | OrlixKernel/Sources/ports/orlix/overlay/arch/orlix/kernel/time.c:58-68 | a one-shot is armed delta after now, modulo 2^64 |
| HostTimer.ClockEvent.SetPeriodic | OrlixKernel/Sources/ports/orlix/overlay/arch/orlix/kernel/time.c:70-82 | a periodic timer is armed one period after now |
| HostTimer.ClockEvent.Shutdown | OrlixKernel/Sources/ports/orlix/overlay/arch/orlix/kernel/time.c:84-100 | shutdown and switching to one-shot disarm |
| HostTimer.ClockEvent.NextDeadline | OrlixKernel/Sources/ports/orlix/overlay/arch/orlix/kernel/time.c:113-119 | the deadline is reported only while armed |
| HostTimer.ClockEvent.Poll | OrlixKernel/Sources/ports/orlix/overlay/arch/orlix/kernel/time.c:121-149 | the wrapped 64-bit comparison and re-arming compute the poll on unbounded times |
| HostTimer.ExpiredIsPast | OrlixKernel/Sources/ports/orlix/overlay/arch/orlix/kernel/time.c:135-138 | the signed difference tells past from future while the times are less than 2^63 apart |
| HostTimer.EarlyExactly | OrlixKernel/Sources/ports/orlix/overlay/arch/orlix/kernel/time.c:58-68 | a one-shot polled at once goes off early if and only if its delta is above 2^63; deltas up to that never do |
| HostTimer.NextDeadline | OrlixKernel/Sources/ports/orlix/overlay/arch/orlix/kernel/time.c:140-149 | after a periodic event the next deadline lies in (now, now + period], at least a period after the last |
| HostTimer.EventAfter | OrlixKernel/Sources/ports/orlix/overlay/arch/orlix/kernel/time.c:121-149 | the k-th event comes no earlier than k periods after the first deadline |
| HostTimer.EventsBounded | OrlixKernel/Sources/ports/orlix/overlay/arch/orlix/kernel/time.c:121-149 | by any time t at most 1 + (t - first deadline) / period events, and none before the first deadline |
| HostTimer.FirstEvent | OrlixKernel/Sources/ports/orlix/overlay/arch/orlix/kernel/time.c:121-149 | the first poll at or after the deadline is an event |
| HostTimer.OneShotOnce | OrlixKernel/Sources/ports/orlix/overlay/arch/orlix/kernel/time.c:121-149 | a one-shot goes off at most once per arming |
| TarArchive.EntriesReadBack | OrlixOS/Sources/Session/OrlixRootfsImport.swift:239-306 | reading inverts printing: for any list of importable entries with their payloads (those with extended attributes or sparse maps are in PrintedArchive), printed as 512-byte headers with padded payloads and GNU long names where needed, the reader returns exactly these entries in order, each payload where its record says |
| TarArchive.PrintedArchive | OrlixOS/Sources/Session/OrlixRootfsImport.swift:239-306 | the same for any list of printed fields behind pax records, long names, long links and global headers, which extend the next entry only, a pax header afresh |
| TarArchive.EntryPrinted | OrlixOS/Sources/Session/OrlixRootfsImport.swift:308-399 | every entry with a normalised path, numbers and a link its kind can have is printed so that it stands for itself |
| TarArchive.ExtrasReadBack | OrlixOS/Sources/Session/OrlixRootfsImport.swift:255-283 | what stands in front of an entry is read as what it means, in order |
| TarArchive.PaxStartsAfresh | OrlixOS/Sources/Session/OrlixRootfsImport.swift:259-283 | a pax header forgets what stood before it in front of the same entry |
| TarArchive.LongNameKeptExactly | OrlixOS/Sources/Session/OrlixRootfsImport.swift:259-283 | a GNU long name in front of an entry is its path if and only if no pax header stands between them, or the last one gives the same path itself |
| TarArchive.LongLinkKeptExactly | OrlixOS/Sources/Session/OrlixRootfsImport.swift:259-283 | the same for a GNU long link |
| TarArchive.LongNameLost | OrlixOS/Sources/Session/OrlixRootfsImport.swift:259-276 | a concrete pax header that loses the long name before it |
| TarHeader.HeaderReadBack | OrlixOS/Sources/Session/OrlixRootfsImport.swift:308-448 | a printed header is parsed as its fields under any extended header: path and prefix, numbers in octal or base 256, kind, link and devices |
| TarHeader.PrintedSum | OrlixOS/Sources/Session/OrlixRootfsImport.swift:573-589 | a printed header has the checksum the reader computes and is no block of zeros |
| TarHeader.NumberReadBack | OrlixOS/Sources/Session/OrlixRootfsImport.swift:549-571 | a number is read back whichever way it is printed |
| TarHeader.FieldsAt | OrlixOS/Sources/Session/OrlixRootfsImport.swift:308-399 | the slices the reader takes are the fields that were printed |
| TarLayout.ArchiveReadBack | OrlixOS/Sources/Session/OrlixRootfsImport.swift:239-306 | framing: when each header reads as its entry under the extensions in front of it, the records are the entries in order; that headers do is the printer's, `TarArchive.PrintedArchive` |
| TarLayout.PayloadsInPlace | OrlixOS/Sources/Session/OrlixRootfsImport.swift:288-296 | payloads are where the records say |
| TarLayout.EntryStep | OrlixOS/Sources/Session/OrlixRootfsImport.swift:280-306 | an entry is read with the pending extensions, which it uses up |
| TarLayout.ExtensionsStep | OrlixOS/Sources/Session/OrlixRootfsImport.swift:255-280 | a run of pax and GNU long-name members adds up to the pending extensions of the next entry only |
| TarRecords.RecordReadBack | OrlixOS/Sources/Session/OrlixRootfsImport.swift:478-500 | a printed record is read back as it was printed if and only if Swift can tell its parts apart: blank and equals sign are Characters of their own, no earlier equals sign is, and the value does not end in a carriage return |
| TarRecords.FirstReadBack | OrlixOS/Sources/Session/OrlixRootfsImport.swift:450-503 | the same at the start of a payload with a length that counts its own digits, whatever follows |
| TarRecords.PaxReadBack | OrlixOS/Sources/Session/OrlixRootfsImport.swift:450-503 | any printed records that can be told apart are read back in order |
| TarRecords.CarriageReturnLost | OrlixOS/Sources/Session/OrlixRootfsImport.swift:485-498 | a concrete record whose value ends in a carriage return: it loses its end or is refused |
| TarRecords.EqualsHidden | OrlixOS/Sources/Session/OrlixRootfsImport.swift:485-492 | a record whose value begins with a joining scalar is refused |
| TarRecords.AccentHidesEquals | OrlixOS/Sources/Session/OrlixRootfsImport.swift:485-492 | a concrete such record |
| TarReader.ReadRecords | OrlixOS/Sources/Session/OrlixRootfsImport.swift:239-306 | the reading loop, which ends on every input, computes `RecordsFrom` |
| TarReader.ReadHeader | OrlixOS/Sources/Session/OrlixRootfsImport.swift:243-255 | one header of the loop: stop, failure, or its member |
| TarReader.ReadMember | OrlixOS/Sources/Session/OrlixRootfsImport.swift:255-304 | the member behind a header: failure, or a step past it |
| TarReader.ParsePaxHeader | OrlixOS/Sources/Session/OrlixRootfsImport.swift:450-503 | the record loop computes `Pax`, with its failures |
| TarReader.ReadPaxRecord | OrlixOS/Sources/Session/OrlixRootfsImport.swift:458-500 | one turn of it |
| TarAttributes.DecodeUrl | OrlixOS/Sources/Session/OrlixRootfsImport.swift:716-743 | the decoding loop for attribute names, with its failures |
| TarAttributes.UrlRoundTrip | OrlixOS/Sources/Session/OrlixRootfsImport.swift:716-743 | decoding inverts every way of escaping a name |
| TarAttributes.PlainAttributeExactly | OrlixOS/Sources/Session/OrlixRootfsImport.swift:654-660 | a plain attribute is collected under its name if and only if the name is not empty and does not begin with a scalar that joins the dot |
| TarAttributes.EncodedAttribute | OrlixOS/Sources/Session/OrlixRootfsImport.swift:661-673 | an encoded attribute is collected under its own name and decoded value, however its name was escaped |
| TarReader.ReadExtents | OrlixOS/Sources/Session/OrlixRootfsImport.swift:677-699 | the loop over a sparse map computes its extents, or fails on an odd count or a bad number |
| TarReader.PayloadsInOrder | OrlixOS/Sources/Session/OrlixRootfsImport.swift:239-306 | whatever the archive, returned payloads are in bounds, in order and disjoint |
| TarNumbers.ParseNumeric | OrlixOS/Sources/Session/OrlixRootfsImport.swift:549-571 | the base-256 loop is exact, failing if and only if the value exceeds 2^64 - 1; other fields are octal |
| TarNumbers.Base256RoundTrip | OrlixOS/Sources/Session/OrlixRootfsImport.swift:549-571 | a number written in base 256 is read back |
| TarNumbers.OctalRoundTrip | OrlixOS/Sources/Session/OrlixRootfsImport.swift:529-547 | a number written in octal is read back |
| TarNumbers.ReadOctal | OrlixOS/Sources/Session/OrlixRootfsImport.swift:529-547 | the octal loop computes the value of a header field and never overflows 64 bits |
| TarNumbers.ValidateChecksum | OrlixOS/Sources/Session/OrlixRootfsImport.swift:573-589 | the summing loop compares the stored sum with that of the header whose own field counts as blanks |
| TarPaths.NormalizedSafe | OrlixOS/Sources/Session/OrlixRootfsImport.swift:955-982 | to Swift a normalised path is relative, without NUL, empty, `.` and `..` components, has the components that were kept, and normalises to itself |
| TarPaths.NormalizedSafeExactly | OrlixOS/Sources/Session/OrlixRootfsImport.swift:955-982 | as bytes it is safe if and only if every component that still has a slash byte in it, joined to another scalar, is safe as bytes |
| TarPaths.DotDotStays | OrlixOS/Sources/Session/OrlixRootfsImport.swift:955-982 | a concrete path, `../` and a combining accent, that is accepted and keeps its `..` as bytes |
| TarPaths.SplitJoin | OrlixOS/Sources/Session/OrlixRootfsImport.swift:955-982 | splitting a joined path gives its components back when they keep apart; the components of a path do |
| TarPaths.SplitSeparable | OrlixOS/Sources/Session/OrlixRootfsImport.swift:968-969 | the components of any path keep apart |
| LayerReplay.ReplayRule | OrlixOS/Sources/Session/OrlixOCIImageLayout.swift:300-367 | an entry is in the replayed manifest if and only if it is the last surviving operation of the whole history at its path: applied there, or made for an opaque directory that was vacant, and not cleared since |
| LayerReplay.ReplayUnique | OrlixOS/Sources/Session/OrlixOCIImageLayout.swift:300-367 | after any operations manifest paths are unique |
| LayerReplay.VacantIsFree | OrlixOS/Sources/Session/OrlixOCIImageLayout.swift:316-331 | a path is vacant by the history alone if and only if the manifest has no entry there |
| LayerReplay.RuleNext | OrlixOS/Sources/Session/OrlixOCIImageLayout.swift:300-367 | how one more operation changes which entries survive |
| LayerReplay.Manifest.RemoveAll | OrlixOS/Sources/Session/OrlixOCIImageLayout.swift:316-341 | the filter keeps the entries the operation does not clear, in order |
| LayerReplay.Manifest.ApplyOpaqueDirectory | OrlixOS/Sources/Session/OrlixOCIImageLayout.swift:316-331 | entries below the directory go, and the directory is added when it is missing |
| LayerReplay.Manifest.RemovePath | OrlixOS/Sources/Session/OrlixOCIImageLayout.swift:333-341 | the entry and everything below it go |
| LayerReplay.Manifest.ApplyEntry | OrlixOS/Sources/Session/OrlixOCIImageLayout.swift:343-353 | the entry replaces the one at its path, and everything below it unless it is a directory |
| LayerReplay.Manifest.ApplyManifestChanges | OrlixOS/Sources/Session/OrlixOCIImageLayout.swift:300-314 | the loop extends the replayed history by the operations of a layer |
| LayerReplay.LayerOperations | OrlixOS/Sources/Session/OrlixOCIImageLayout.swift:751-772 | the operations of a layer in entry order, or the first invalid whiteout |
| LayerReplay.WhiteoutTargets | OrlixOS/Sources/Session/OrlixOCIImageLayout.swift:774-820 | an entry named as a whiteout removes its target, makes its directory opaque or is invalid; any other is applied |

## Left out

- Kernel shadow list: the same list code as the user one with fewer operations.
- Mach VM calls, `malloc`, `memcpy` and cache maintenance: their success is an input, their internals are not modelled.
- View and source are two memories: a source page that is itself a user view cannot be expressed.
- ShadowRuns.RunKeepsLogical: a window or page with instructions to rewrite under a writable mapping, a page in the first host page, aliased writable sources and a kernel refresh that re-creates a mapping are outside these runs; their shape is kept by `RunKeepsShape`, first host page apart, and what each does to the logical memory is in `ShadowEffects`, `FirstPageExactly` and `StoreSurvivesExactly`.
- A mapping whose last protection change failed stays readable and writable on the host; the model lets user stores reach it by its intended protection only.
- ShadowRuns.StepKeeps: a kernel store with its refresh counts as one step and starts from a synced view, as the trap handler leaves it.
- Descriptor tables and the avail ring do not change during a drain and do not overlap the buffers, as section 2.7 of VIRTIO 1.2 asks of the driver; for the block device tables may differ from head to head, and for the console from drain to drain.
- ConsoleInput.ConsoleDevice.DrainInput: the descriptor table is the one of a queue of 128, so descriptor indices under a smaller queue size are not checked against it, as in the source.
- Drains of one queue do not nest: the source takes no lock around the drain of the poll timer and that of a notify, and two that meet are not modelled.
- BlockTheorems.ReadRequest: data buffers other than the last are whole sectors, because the source advances by whole sectors only; `DataRun` and `ProcessRequest` cover the others.
- Console output and the entropy queue: single loops over descriptors without state of their own.
- Register reads and writes, interrupt status, feature bits and queue resets: single switch arms.
- KickProtocol.EveryKickServed: counts worker steps; that the worker is scheduled at all is the kernel's workqueue, and the first-kick initialisation of the work item is taken as done.
- Opening, seeking and flushing files: a failure of these is not modelled, the flush result is an input, and the byte size of a selected image is the length of its file.
- UserCopy.UserMemory.CopyToUser: page-table levels are one lookup, the kernel buffer is apart from user frames, and the refresh of the user mapping is a yes or no.
- Swift strings are compared byte by byte: two spellings that are canonically equivalent are one string to Swift and two here, in paths, keys and names. The order of the environment dictionary after sorting is an input.
- Reading `/proc/cmdline` is one read, and the kernel passes the line on unchanged.
- Alternate signal stacks, restartable sequences, restart blocks and the removal of SIGKILL and SIGSTOP from the restored mask: not modelled; layout constants come from the arm64 user headers, which are not part of this model.
- SignalFrames.Thread.SetupRtFrame: after a failure the registers are not specified, because the source then kills the task.
- `get_signal` may not change registers, which a debugger could.
- ResumeHandoff.HandoffSafe: the resume trampoline's use of x16 and x17, thread-local storage and timer signals that find nothing to do are not modelled.
- HostTimer.ClockEvent.Poll: the clock and the deadline are less than 2^63 apart. The device announces deltas up to 2^64 - 1; whether the kernel's timer core, whose times are signed, ever asks for more than 2^63 is not part of this model.
- Base 64 is a table of the Swift library (`Library`); where Swift arithmetic would trap the reader returns `Trap`.
- LayerReplay.ReplayRule: the manifest only. The staging tree treats directories over files differently; digests, compression, JSON and base64 are not modelled.
- UI, terminal relay, mounts, boot parameter checks, self tests and SHA-256: input, output or single-branch checks.
