# libvfn in Dafny

A model of the parts of libvfn that decide which memory a device reads and writes, with proofs about
them:

- the I/O address allocator of the vfio backend: the skiplist, the coalescing free list, aligned and
  plain best fit, the bump allocators, the ephemeral addresses, and the map of virtual to I/O addresses;
- the data pointers of NVMe commands: PRP entries with chained list pages, and SGL descriptors, each
  against a controller that walks them;
- the queue pair: rings, phase tags, request trackers, doorbells and shadow doorbells, as state machines
  over every interleaving of host and device, or of threads;
- the CRC-64 of the NVMe protection information: the generated table and the table-driven loop.

`dafny verify dfyconfig.toml` checks everything.

## How it is built

| files | what |
|---|---|
| `Common`, `Align`, `Rings` | shared definitions, mask arithmetic on 64-bit words, positions in a ring |
| `SkipList`, `SkipListRuns` | the skiplist, and runs of it as an ordered set |
| `FreeRanges`, `FreeList` | what a free list denotes, and the list itself |
| `IovaReserve`, `IovaAligned` | bump allocators, and when what is handed out is aligned |
| `IovaSpace`, `IovaReuse`, `IovaOverlaps`, `IovaLeaks` | the address space as a state machine, when it hands out addresses twice, and which ones it loses |
| `IovaMap`, `IommuContext` | translation, and the context that refines the machine |
| `PrpWalk`, `PrpEntries`, `PrpCursor`, `Prp`, `Sgl` | the controller's walk, the entries of a vector, the list pages in memory, and the builders |
| `PrpMisreads`, `PrpReads` | what is read of vectors outside the contract, and exactly which vectors are read right |
| `CompletionQueue`, `SubmissionQueue`, `Trackers`, `TrackersAtomic`, `QueuePair`, `Doorbell` | the queues |
| `Crc64Bits`, `Crc64`, `Crc64Bursts`, `Crc64Standard` | the checksum, the errors it finds, and that it is the one of the standard |

What the source changes in place is changed in place: the skiplist, the free list, the context, the PRP
list pages, the SGL table, the queues, the tracker stack and the CRC table are objects or arrays, and
each method is proved against a function or a state machine on values. The links of skiplist nodes are
kept in maps from node addresses to node addresses, one pair per level, held by the list object. The
levels of new nodes, the answers of the kernel, the arrival of completions and the end of a timeout are
parameters, so that the theorems hold for all of them. Each step of a state machine is one memory access
where threads or host and device meet.

## What came out

Promises that hold only under a condition, each with the exact condition:

- `iommu_map_vaddr_align` guarantees an aligned address for any non-zero multiple of the page size
  (`include/vfn/iommu/dma.h:84-89`). What the free list and the bump allocator hand out is a multiple of the
  alignment, whatever is free and whatever the windows are, exactly if it is a power of two
  (`FreeAlignedIff`, `WindowAlignedIff`). A new context asked for three pages hands out 128k
  (`ThreePagesInContext`). Whatever the alignment, nothing else claims what is handed out
  (`ReservedInv`).
- A PRP vector that passes the checks of `nvme_mapv_prp` is described by its entries exactly when it meets
  the documented contract and, if it has several segments, none is empty and the last is whole pages or less
  than one. The checks let through three kinds of segments that do not (`AcceptedDescribesIff`):
  - a first segment that ends inside a page: the controller reads on in that page, whatever PRP2 and the list
    pages are (`InsideFirstMisread`, `FirstEndsInsidePage`);
  - a last segment whose remainder is rounded away: the controller looks for an entry that was never written
    (`ShortMisread`, `LastRoundedDown`);
  - an empty segment, which gets an entry of its own (`TailCount`, `EmptyGetsEntry`).
- In terms of what the controller transfers: a vector is read right, whatever the list pages held before, exactly
  when the entries wanted stand for its bytes and are found as they were written (`WalkRightIff`). Without empty
  segments that is the contract (`RightIffContract`). Empty segments at the end do no harm exactly if the data
  lies in one page, or in more than two and the last entry wanted is not the one that the additional entries
  push behind a link (`EmptyTailIff`, `AtLinkIff`).
- The page counts of a PRP vector are computed in an `int`. They are right exactly when what is left of the
  first segment fits into one together with a page, and every later length fits into one (`FirstSafeIff`,
  `AppendSafeIff`).
- The bytes of an SGL are those of its segments exactly when every length is below 4G; the descriptors keep
  32 bits and the rest is cut off without an error (`SglWalkReadsBytes`).
- For one segment `nvme_mapv_sgl` does not set the flag that calls the data pointer an SGL. If the caller has
  not set it, the descriptor is read as two PRP entries (`UnflaggedSegmentIff`, `UnflaggedTwoPages`).
- A completion queue of 65536 entries never changes its phase; all smaller ones do as they should
  (`AdvanceFollowsIff`). In every second lap of such a queue the test for new entries is inverted: entries that
  were read are taken for new, and new ones are overlooked (`TestFindsIff`).
- `nvme_rq_from_cqe` rejects identifiers from qsize on, but there are only qsize - 1 trackers: for the
  identifier qsize - 1, and no other, it answers with a tracker that is not there (`FromCqeIff`).
- The lock-free tracker stack keeps every tracker exactly once in precisely those runs in which no pop
  succeeds with a link that has changed since it was read. Acquires that do not overlap never do that;
  acquires that overlap can (`RunPartitionIff`, `RunPartition`, `OverlappingAcquiresBreakPartition`).
- An I/O address that is still mapped can be handed out again in some state of a run exactly if an unmap of
  the run recycles the ephemeral addresses while another mapping lies among them (`RunReusesIff`). In all other
  runs no address is mapped twice (`RunInv`). With the documented flags it does not happen in any run of fewer
  than 2^64 + 2 calls (`SupportedRun`), and in one of that many it does, because the 64-bit count of reservations
  has wrapped around (`LongRunRecycles`). The aligned variant records the ephemeral flag it documents as
  unsupported without counting the mapping. Then four calls map an address twice (`AlignedEphemeralOverlaps`),
  and two push the count below zero (`WrappedCountRecycles`).
- Ephemeral addresses are recycled exactly when the count comes to zero. For up to 2^64 reservations that is when
  the last ephemeral mapping goes and none was ever lost. A mapping the kernel refuses, or `iommu_unmap_all`,
  loses one for good (`RecyclesIff`, `NoRecycleAfterLoss`).
- An ordinary address once passed by the bump allocator is mapped or free, unless it was alignment padding
  or the rest of a window, belonged to a mapping the kernel refused, or was mapped or free at an
  `iommu_unmap_all`. Those are lost for good, and no others (`StepLeaks`, `Conserved`).

Where comments and code differ the model follows the code: `include/vfn/iommu/dma.h:71-72` says that
addresses are never recycled, and the code recycles them. `iommu_translate_iova` scans all nodes of the
list including the sentinel, which is not a mapping; the model passes over it.

Preconditions of the model, all left to callers by the source: windows are ascending and end below the last
64-bit address; a buffer mapped through a context does not run into a mapped one (`iova_map_add` looks up
its first byte only, and the list stays in order exactly if there is no overlap); a tracker that is released
is held; no more than qsize - 1 entries are in a submission queue, which holding a tracker per entry ensures;
the page counts of PRP segments fit into an `int`, in the exact sense above.

## Model

| member | source | states |
|---|---|---|
| Align.MaskIsMod | include/vfn/support/align.h:47 | Masking with a power of two minus one is the remainder by it. |
| Align.AlignedIsMultiple | include/vfn/support/align.h:47 | ALIGNED holds exactly of the multiples of a power of two. |
| Align.AlignDownIsFloor | include/vfn/support/align.h:36 | ALIGN_DOWN on 64-bit words drops the remainder. |
| Align.AlignUpIsCeiling | include/vfn/support/align.h:25 | ALIGN_UP is the least multiple not below its argument, and falls below it exactly when no multiple is left in 64 bits. |
| Align.AlignUpNeedsPow2 | include/vfn/support/align.h:16-25 | ALIGN_UP yields multiples for every argument if and only if the alignment is a power of two. |
| Align.PagesNeedPow2 | include/vfn/iommu/dma.h:79-98 | Among alignments of whole pages and page aligned addresses, ALIGN_UP yields multiples if and only if the alignment is a power of two. |
| Align.ThreePages | include/vfn/iommu/dma.h:79-98 | A concrete alignment of three pages that ALIGN_UP misses. |
| Align.ThreePagesHigh | include/vfn/support/align.h:25 | ALIGN_UP to three pages leaves 128k as it is. |
| SkipLists.AddAfterRing | ccan/ccan/list/list.h:178-188 | Adding after a node of a ring gives the ring with the node right behind it. |
| SkipLists.DelFromRing | ccan/ccan/list/list.h:370-384 | Deleting a node of a ring gives the ring without it. |
| SkipLists.NextOnLevel | src/util/skiplist.h:22-23 | The successor of a node on a level is the first later node that reaches that level. |
| SkipLists.SkipList.constructor | src/util/skiplist.c:17-25 | A new list is a valid skiplist of nothing and height 0. |
| SkipLists.SkipList.Find | src/util/skiplist.c:47-78 | Finds a match if and only if there is one, with the path to where it is or would go. |
| SkipLists.SkipList.FindLe | src/util/skiplist.c:80-111 | The last payload not above the key, and none exactly when all are above. |
| SkipLists.SkipList.FindGe | src/util/skiplist.c:113-141 | The first payload not below the key, and none exactly when all are below. |
| SkipLists.LinkLevels | src/util/skiplist.c:168-170 | Every level of the longer list is again the ring of exactly the nodes that reach it. |
| SkipLists.SkipList.Link | src/util/skiplist.c:155-171 | For any coin flips the node is inserted at its place and all levels, the height and the order stay valid. |
| SkipLists.UnlinkLevels | src/util/skiplist.c:176-183 | Stopping at the first level without the node removes it from all levels. |
| SkipLists.Shrink | src/util/skiplist.c:185-187 | The height ends as the highest level any node reaches. |
| SkipLists.SkipList.Erase | src/util/skiplist.c:173-188 | The node leaves the sequence, nothing else moves, and the list stays valid. |
| SkipLists.SkipList.Clear | src/util/skiplist.c:27-45 | The callback sees every node once, in order, and the list ends empty with height 0. |
| SkipListRuns.LevelsNest | src/util/skiplist.h:15-47 | Each level is a subsequence of the one below it. |
| SkipListRuns.Insert | src/util/skiplist_test.c:55-68 | Find-then-link adds exactly a new number, and says whether it was new. |
| SkipListRuns.Run | src/util/skiplist_test.c:96-198 | Any run of additions, removals and clears leaves a valid skiplist of exactly the right set in order. |
| FreeRanges.Canonical | src/iommu/vfio.c:418-473 | A coalesced list is determined by the set of free addresses. |
| FreeRanges.PutIsUnion | src/iommu/vfio.c:418-473 | Putting a range back frees exactly its addresses and keeps the list coalesced, however it merges. |
| FreeRanges.PutAllIsUnion | src/iommu/vfio.c:418-473 | The same for any sequence of ranges. |
| FreeRanges.PutOrderIrrelevant | src/iommu/vfio.c:418-473 | Putting the same ranges back in any order leaves the same list; that one order is possible suffices. |
| FreeRanges.PutUndoesTaken | src/iommu/vfio.c:324-473 | Taking addresses and putting them back restores the list node for node. |
| FreeLists.PutFree | src/iommu/vfio.c:418-473 | The four-way merge on the skiplist, with keys rewritten in place, computes the coalesced list and keeps it searchable. |
| FreeLists.ExtendPrevious | src/iommu/vfio.c:431-451 | Growing the previous range merges with the next one exactly when they touch. |
| FreeLists.GetFreeRange | src/iommu/vfio.c:301-322 | The first of the smallest ranges that fit, and none exactly when none fits. |
| FreeLists.BestFitIsFirstSmallest | src/iommu/vfio.c:301-322 | Of all ranges that are long enough none is shorter, and of those as long none comes earlier, so there is only one. |
| FreeLists.GetFree | src/iommu/vfio.c:324-348 | Takes exactly the front of the best fit, and fails exactly when nothing fits. |
| FreeLists.UsableMeansHolds | src/iommu/vfio.c:361-382 | The tests of the aligned search accept exactly the ranges with an aligned place, and find the lowest one. |
| FreeLists.GetAlignedRange | src/iommu/vfio.c:352-390 | The first usable range with the least left behind the alignment padding. |
| FreeLists.BestAlignedIsFirstSmallest | src/iommu/vfio.c:352-390 | The same for what a usable range has from the aligned address on. |
| FreeLists.CarvedIsTaken | src/iommu/vfio.c:392-413 | Unlinking a range and giving back both ends takes exactly the allocation. |
| FreeLists.GetFreeAlign | src/iommu/vfio.c:352-416 | Takes exactly the allocation out of the best usable range, aligned for powers of two, and fails exactly when none is usable. |
| IovaReserve.Reserve | src/iommu/vfio.c:234-257 | The lowest place at or above next in any window, and failure exactly when there is none. |
| IovaReserve.ReserveAlign | src/iommu/vfio.c:259-286 | For every alignment: ALIGN_UP of the larger of next and the window start, in the first window where that fits, and failure exactly when it fits in none. |
| IovaReserve.ServingIsLowest | src/iommu/vfio.c:259-286 | For powers of two that is the lowest aligned place in any window, and some window serves exactly when there is one. |
| IovaAligned.FreeAlignedIff | src/iommu/vfio.c:352-416 | For alignments of whole pages, what the free list hands out is a multiple for all free lists and lengths if and only if the alignment is a power of two. |
| IovaAligned.WindowAlignedIff | src/iommu/vfio.c:259-286 | The same for the bump allocator, for all windows, positions and lengths. |
| IovaSpace.ReservedInv | src/iommu/vfio.c:475-537 | A reservation keeps the address space in order and hands out addresses nothing else claims. |
| IovaSpace.AddedInv | src/iommu/dma.c:41-69 | Entering a mapping at unclaimed addresses keeps the address space in order. |
| IovaSpace.UnmappedInv | src/iommu/dma.c:190-216 | Unmapping keeps the address space in order, recycling included, if and only if it does not recycle ephemeral addresses under another mapping. |
| IovaSpace.StepInv | src/iommu/dma.c:116-245 | Every map, aligned map, unmap and unmap-all, whatever its flags and the answer of the kernel, keeps it in order if and only if it is no such unmap; the count of reservations wraps both ways. |
| IovaSpace.RunInv | src/iommu/dma.c:116-245 | Every state of a run is in order, with no I/O address mapped twice and mapped, free, ephemeral and untouched addresses disjoint and allowed, if and only if no unmap of the run recycles addresses in use. |
| IovaReuse.HazardIff | src/iommu/vfio.c:1003-1021 | An unmap recycles addresses in use if and only if a reservation that takes an address still mapped is possible after it. |
| IovaReuse.RunReusesIff | src/iommu/dma.c:116-245 | In no state of a run can an address still mapped be handed out, if and only if no unmap of the run recycles addresses in use. |
| IovaSpace.StepBalanced | src/iommu/vfio.c:487-494 | Whatever the flags, every step keeps the 64-bit counter equal to the number of ephemeral reservations modulo 2^64. |
| IovaSpace.SupportedStep | include/vfn/iommu/dma.h:79-98 | With documented flags a step keeps the counter exact and the flags where the addresses are, and recycles nothing in use as long as there are at most 2^64 reservations. |
| IovaSpace.SupportedRun | include/vfn/iommu/dma.h:79-98 | So every run of fewer than 2^64 + 2 steps with documented flags is in order in all its states. |
| IovaOverlaps.LongRunRecycles | src/iommu/vfio.c:487-494 | A run of 2^64 + 2 steps with documented flags whose last step recycles addresses in use. |
| IovaSpace.UnmapUndoesMap | src/iommu/dma.c:116-216 | Mapping at recycled addresses and unmapping again restores the whole state. |
| IovaSpace.RecyclesIff | src/iommu/vfio.c:1003-1021 | Ephemeral addresses are recycled exactly when the count comes to zero, and for up to 2^64 reservations exactly when the last one goes and none was ever lost. |
| IovaSpace.EphemeralsNext | src/iommu/vfio.c:487-494 | The next ephemeral mapping goes behind the last one, or to the start of the 64k after the unmap of the only one left if none was lost, and fits exactly if there is room from there; no other call moves it. |
| IovaSpace.NoRecycleAfterLoss | src/iommu/vfio.c:1003-1021 | Once a reservation is lost, no step recycles as long as there are at most 2^64; only an aligned mapping with the unsupported flag can make up for a loss. |
| IovaOverlaps.AlignedEphemeralOverlaps | src/iommu/dma.c:148-188 | A run of four calls with the unsupported flag, the third of which recycles addresses in use, after which two mappings overlap. |
| IovaOverlaps.WrappedCountRecycles | src/iommu/vfio.c:1015-1021 | Four calls that push the counter below zero with the unsupported flag and bring it back to one with two mappings in the 64k, so that the next unmap recycles addresses in use. |
| IovaLeaks.StepLeaks | src/iommu/dma.c:116-245 | The ordinary addresses below next that are neither mapped nor free grow by exactly those between next and a new mapping, the refused reservations and what unmap-all clears. |
| IovaLeaks.Conserved | src/iommu/dma.c:116-245 | After every run an ordinary address below next is mapped or free if and only if it is above the 64k and no step of the run lost it. |
| IovaMaps.TranslationsInvert | src/iommu/dma.c:104-326 | The two translations are inverses of each other on mapped addresses, in both directions. |
| IovaMaps.RemainingReachesEnd | src/iommu/dma.c:309-326 | Every byte of the returned length translates on within the same mapping. |
| IovaMaps.RemovedTranslates | src/iommu/dma.c:71-82 | Removing a mapping ends exactly its own translations, both ways. |
| IovaMaps.FindMapping | src/iommu/dma.c:84-90 | The skiplist search finds the mapping that contains an address if and only if there is one. |
| IovaMaps.TranslateVaddr | src/iommu/dma.c:104-114 | The skiplist search agrees with a scan of all mappings. |
| IovaMaps.TranslateIova | src/iommu/dma.c:309-326 | The address and the length left in its mapping, or failure exactly when none contains it. |
| IovaMaps.Add | src/iommu/dma.c:41-69 | EINVAL for an empty buffer, EEXIST exactly for a mapped address, and else the mapping in its place, in a list that stays in order if and only if the buffers do not overlap. |
| IovaMaps.Remove | src/iommu/dma.c:71-82 | The mapping that contains the address leaves the list, and no other. |
| IommuContexts.IommuContext.constructor | src/iommu/vfio.c:539-578 | Sets up an initial state of the machine. |
| IommuContexts.Create | src/iommu/vfio.c:539-578 | Setting up fails exactly when the 64k do not fit. |
| IommuContexts.ThreePagesInContext | include/vfn/iommu/dma.h:79-98 | A new context with the default window, asked for a page aligned to three, answers 128k, which is no multiple. |
| IommuContexts.IommuContext.ReserveOrdinary | src/iommu/vfio.c:475-506 | From the best fitting free range if one fits, and else at the lowest place above next, with the exact errors. |
| IommuContexts.IommuContext.ReserveAligned | src/iommu/vfio.c:508-537 | The address is that of the best usable free range, or else of the first window that serves; EINVAL exactly for unaligned lengths and zero or unaligned alignments, ENOMEM exactly when neither is there, for every alignment. |
| IommuContexts.IommuContext.ReserveFromEphemerals | src/iommu/vfio.c:487-494 | The lowest of the 64k not handed out, counted modulo 2^64, or ENOMEM exactly when they are used up. |
| IommuContexts.IommuContext.MapVaddr | src/iommu/dma.c:116-146 | A mapped address is answered from the map and changes nothing. Otherwise EINVAL for an unaligned length, ENOMEM exactly when addresses are used up, and else one step of the machine: at the front of the best fitting free range, or the lowest place above next, or the next ephemeral address; with EINVAL exactly for an unaligned or, if the kernel agrees, empty buffer, and what the kernel answered exactly if it refuses. |
| IommuContexts.IommuContext.MapVaddrAlign | src/iommu/dma.c:148-188 | The same with an alignment and the flag as given, at the address the aligned search determines, a multiple for powers of two, and the same errors. |
| IommuContexts.IommuContext.UnmapVaddr | src/iommu/dma.c:190-216 | One step of the machine with the length unmapped, in order afterwards exactly if nothing in use was recycled; ENOENT exactly for unmapped addresses. |
| IommuContexts.IommuContext.Put | src/iommu/vfio.c:968-978 | Addresses outside the 64k go back to the free list. |
| IommuContexts.IommuContext.UnmapAll | src/iommu/dma.c:229-245 | One step of the machine, or nothing if the kernel refuses. |
| PrpWalk.PageAtAddress | include/vfn/nvme/util.h:130-139 | List page p is found at the base plus p pages. |
| PrpEntries.ContractDescribes | include/vfn/nvme/util.h:143-162 | The entries of every vector that meets the contract are as many as its length calls for and stand for its bytes, in order. |
| PrpEntries.ContractAccepted | src/nvme/util.c:379-460 | Every vector that meets the contract passes the checks. |
| PrpEntries.AcceptedDescribesIff | src/nvme/util.c:379-460 | Any accepted vector, empty segments included, is described by its entries if and only if it meets the contract. |
| PrpEntries.CeilIsDivision | src/nvme/util.c:241-269 | The rounding up and down of page counts are the divisions the source does with shifts. |
| PrpEntries.TailCount | src/nvme/util.c:266-286 | Later segments get the entries their length calls for, plus one for each empty one and less one for a last one whose remainder is rounded away. |
| PrpEntries.FirstRunsOn | src/nvme/util.c:414-428 | After a first segment that ends inside a page the wrong bytes are read, whatever the other entries are. |
| PrpEntries.ListAligned | src/nvme/util.c:225-286 | Every entry after the first is the address of a page. |
| PrpEntries.SplitSameEntries | src/nvme/util.c:225-286 | A contiguous buffer split at page boundaries has the entries of the whole. |
| PrpCursors.WalkReadsStored | src/nvme/util.c:145-223 | A controller that wants as many entries as are stored reads exactly those across all links. |
| PrpCursors.RoomIff | src/nvme/util.c:183-186 | The pages are full exactly when they hold the capacity of the chain. |
| PrpCursors.PrpCursor.constructor | src/nvme/util.c:166-176 | An empty cursor over the pages as they are. |
| PrpCursors.PrpCursor.Put | src/nvme/util.c:200-223 | Stores the entry, links pages only when another entry follows, fails exactly when the chain is full, and leaves later pages alone. |
| Prps.PutPages | src/nvme/util.c:249-261 | One entry per page, in order, or failure exactly when they do not fit. |
| Prps.MapFirst | src/nvme/util.c:225-264 | PRP1 and the entries for the rest of the first segment. |
| Prps.MapAppend | src/nvme/util.c:266-286 | The entries of a later segment; fails exactly when it is unaligned or does not fit. |
| Prps.FirstSafeIff | src/nvme/util.c:241 | The page count of a residual is right in 32 bits exactly when it and a page fit into an int. |
| Prps.AppendSafeIff | src/nvme/util.c:269 | The page count of a later segment is right in 32 bits exactly when its length fits into an int. |
| Prps.SetPrp2 | src/nvme/util.c:288-297 | PRP2 is zero for one entry, the second page for two, and the address of the list for more. |
| Prps.MapPrp | src/nvme/util.c:299-329 | The exact errors; PRP2 is zero, the second page or the list, as the number of pages calls for; and the pages hold exactly the entries of the buffer. |
| Prps.MapvPrp | src/nvme/util.c:379-535 | Succeeds exactly for accepted vectors that fit, and the pages hold exactly their entries; PRP2 is zero, the second entry or the list; EFAULT exactly when the list, the first segment, or a later one that is reached has no I/O address. |
| Prps.WalkFindsEntries | src/nvme/util.c:288-329 | From PRP1, PRP2 and the length the controller finds the entries again. |
| Prps.WalkReadsBytes | src/nvme/util.c:299-535 | Round trip: for every vector that meets the contract the controller transfers exactly its bytes in order. |
| Prps.SplitSameMemory | src/nvme/util.c:299-535 | A buffer in one piece and any split of it at page boundaries give the same PRP2 and the same memory. |
| PrpMisreads.InsideFirstMisread | src/nvme/util.c:414-428 | With a first segment that ends inside a page the controller does not transfer the bytes of the vector, whatever PRP2 and the list pages are. |
| PrpMisreads.ShortMisread | src/nvme/util.c:266-286 | With a rounded last segment the controller wants an entry that was not written, and finds none in list pages whose old contents point nowhere. |
| PrpMisreads.FirstEndsInsidePage | src/nvme/util.c:414-428 | A concrete vector that is accepted and misread although its first segment ends inside a page. |
| PrpMisreads.LastRoundedDown | src/nvme/util.c:266-286 | A concrete vector that is accepted although its last eight bytes get no entry. |
| PrpMisreads.EmptyGetsEntry | src/nvme/util.c:266-286 | A concrete vector of two pages around an empty segment that is accepted, gets three entries, and is misread. |
| PrpReads.WalkReadsFewer | src/nvme/util.c:200-223 | A controller that wants fewer entries than are stored finds the first ones, but takes a link for the last one if more entries pushed it behind the link. |
| PrpReads.WalkRightIff | src/nvme/util.c:379-535 | An accepted vector is transferred right for all prior contents of the list pages if the wanted entries are found and stand for its bytes; if not, for none that holds no page address, as long as no data lies in the list pages. |
| PrpReads.RightIffContract | include/vfn/nvme/util.h:143-162 | Without empty segments that is so if and only if the vector meets the contract. |
| PrpReads.EmptyTailIff | src/nvme/util.c:266-286 | With empty segments after a vector that meets the contract, if and only if its data lies in one page, or in more than two and the last entry wanted is not pushed behind a link. |
| PrpReads.AtLinkIff | src/nvme/util.c:183-186 | That is so for the entries whose number is one more than a positive multiple of the slots of a page less one. |
| Sgls.MapvSgl | src/nvme/util.c:553-632 | One descriptor per segment and one that leads to them, the exact conditions of success and EFAULT, the rest of the table untouched, and the flag set except for one segment. |
| Sgls.SglWalkReadsBytes | src/nvme/util.c:537-632 | Round trip: read as an SGL, the pointer leads to exactly the bytes of the segments in order, if and only if their lengths fit into 32 bits. |
| Sgls.SglAgreesWithPrp | src/nvme/util.c:299-632 | Both encodings of a vector that meets the PRP contract lead to the same bytes. |
| Sgls.UnflaggedSegmentIff | src/nvme/util.c:564-573 | A single segment without the flag is transferred right exactly when no second PRP entry is needed, or its length in 32 bits is the address of its second page, or of a list of all its pages but the first. |
| Sgls.UnflaggedTwoPages | src/nvme/util.c:564-573 | A concrete segment that is not. |
| CompletionQueues.AdvanceFollowsIff | include/vfn/nvme/queue.h:262-265 | Head and phase follow the ring for every size from 2 up to 65535, and not for 65536. |
| CompletionQueues.PostedConsistent | include/vfn/nvme/queue.h:244-268 | A device that writes the tag of its lap keeps ring and history in step. |
| CompletionQueues.NewIff | include/vfn/nvme/queue.h:252-253 | The phase test is true exactly when an unread completion is there, and then it is the next one. |
| CompletionQueues.TestFindsIff | include/vfn/nvme/queue.h:252-265 | With the head and phase the host really has, the test is right for every size up to 65535; for 65536 it is right in every other lap and inverted in the rest. |
| CompletionQueues.CompletionQueue.constructor | src/nvme/core.c:112-158 | A queue on zeroed memory with nothing posted, in order exactly if it has fewer than 65536 entries. |
| CompletionQueues.CompletionQueue.GetCqe | include/vfn/nvme/queue.h:244-268 | Returns the next unread completion if and only if there is one. |
| CompletionQueues.CompletionQueue.WaitCqes | src/nvme/queue.c:35-83 | Reads one completion at every poll that finds one unread, in order, and polls again exactly as long as fewer than n were read and there is time. |
| CompletionQueues.WaitReads | src/nvme/queue.c:35-83 | A wait reads at least what was unread when it began, as far as it polls. |
| CompletionQueues.WaitReadsAll | src/nvme/queue.c:35-83 | If something new is there before every poll, every poll reads. |
| Trackers.RequestStack.constructor | src/nvme/core.c:264-278 | All qsize - 1 trackers are on the stack, the last one on top. |
| Trackers.RequestStack.Acquire | include/vfn/nvme/rq.h:92-104 | Pops a tracker, or NULL exactly when none is free. |
| Trackers.RequestStack.Release | include/vfn/nvme/rq.h:53-61 | Pushes a tracker that is held. |
| Trackers.FromCqeIff | include/vfn/nvme/rq.h:158-169 | Every tracker of the array is found by its identifier, NULL comes back exactly from qsize on, and of all others exactly qsize - 1 gets past the guard and lies past the end of the array. |
| TrackersAtomic.StepInv | include/vfn/nvme/rq.h:69-125 | Every memory access but a stale pop keeps each tracker either once on the stack or with one thread. |
| TrackersAtomic.RunPartition | include/vfn/nvme/rq.h:69-125 | So does every run whose acquires do not overlap, for any number of threads and overlapping releases. |
| TrackersAtomic.StalePopBreaks | include/vfn/nvme/rq.h:114-125 | After a stale pop no chain accounts for all trackers. |
| TrackersAtomic.RunPartitionIff | include/vfn/nvme/rq.h:69-125 | Each tracker is accounted for once in all states of a run if and only if no pop of it is stale. |
| TrackersAtomic.OverlappingAcquiresBreakPartition | include/vfn/nvme/rq.h:114-125 | A run of two threads with a stale pop, after which a held tracker is on top of the stack. |
| TrackersAtomic.ReleaseAlone | include/vfn/nvme/rq.h:69-83 | Without interference the accesses of an atomic release amount to a plain one. |
| TrackersAtomic.AcquireAlone | include/vfn/nvme/rq.h:114-125 | Without interference the accesses of an atomic acquire amount to a plain one. |
| TrackersAtomic.CallEnds | include/vfn/nvme/rq.h:69-125 | A release ends only with its tracker on the stack, and an acquire only with a tracker or an empty stack. |
| TrackersAtomic.RetryIsFresh | include/vfn/nvme/rq.h:69-125 | After a failed swap a thread goes on with what it has just seen on top. |
| QueuePairs.StepInv | include/vfn/nvme/queue.h:91-268 | Every step of host or device keeps rings, histories, doorbell and trackers in step. |
| QueuePairs.RunInv | include/vfn/nvme/queue.h:91-268 | So does every run, for every interleaving and every order of completions. |
| QueuePairs.RunNoneLost | include/vfn/nvme/queue.h:91-268 | In every state of every run the trackers on their way through a ring are exactly those with an entry waiting there. |
| QueuePairs.RingsFit | src/nvme/core.c:264-278 | With one tracker per command neither ring overflows. |
| QueuePairs.PostOverwritesNothing | include/vfn/nvme/queue.h:91-101 | A host that holds a tracker never overwrites an entry the device has yet to fetch. |
| QueuePairs.CompleteOverwritesNothing | include/vfn/nvme/queue.h:244-268 | A device never overwrites a completion the host has yet to read. |
| QueuePairs.TailUnchangedIff | include/vfn/nvme/queue.h:143-160 | The doorbell write is skipped exactly when nothing was posted since the last one. |
| QueuePairs.UpdateTailAnnounces | include/vfn/nvme/queue.h:143-160 | After the doorbell the device finds an entry exactly if any posted one is left. |
| QueuePairs.FetchFinds | include/vfn/nvme/queue.h:91-160 | The device sees an entry exactly when one was announced, and fetches them in order. |
| QueuePairs.ReapFinds | include/vfn/nvme/queue.h:244-268 | The host sees a completion exactly when one is unread, and reads them in order. |
| QueuePairs.RoundTrip | include/vfn/nvme/queue.h:91-268 | With idle rings a request makes it all the way around, is answered, and its tracker is free again. |
| QueuePairs.CidIdentifies | include/vfn/nvme/rq.h:140-169 | The identifier of an unread completion names one request, in flight nowhere else, and leads back to its tracker. |
| Doorbells.NeedMmioIff | include/vfn/nvme/queue.h:103-106 | The 16-bit test holds exactly when the event index lies on the way around from the old to the new tail. |
| Doorbells.CountsOnTheWay | include/vfn/nvme/queue.h:103-106 | In a ring of any size, of the event indices within a lap of the old tail exactly those the new tail has reached are on the way. |
| Doorbells.Dbbuf.TryDbbuf | include/vfn/nvme/queue.h:108-135 | Stores the tail and asks for the register exactly when the event index is on the way. |
| Doorbells.StepInv | include/vfn/nvme/queue.h:108-160 | Every memory access of host or device keeps a sleeping device idle or about to be woken. |
| Doorbells.NoLostWakeup | include/vfn/nvme/queue.h:108-160 | In every run, whenever the device sleeps with announced entries left, a register write is on its way, decided, or will be decided. |
| Doorbells.BeginIff | include/vfn/nvme/queue.h:143-146 | The host updates the doorbell exactly if it posted entries since the last time. |
| Doorbells.SleeperProcesses | include/vfn/nvme/queue.h:108-160 | An entry posted while the device sleeps wakes it up and is processed. |
| SubmissionQueues.SubmissionQueue.constructor | src/nvme/core.c:242-253 | An empty queue. |
| SubmissionQueues.SubmissionQueue.Post | include/vfn/nvme/queue.h:91-101 | Takes the post step of the queue pair, for every size up to 65536. |
| SubmissionQueues.SubmissionQueue.UpdateTail | include/vfn/nvme/queue.h:143-160 | Announces all posted entries, and writes the register exactly when something is new and no shadow doorbell spares it. |
| Crc64Bits.TurnIsShift | lib/gentable-crc64.c:44-49 | One turn of the generator's inner loop is one step of the division of byte and remainder together. |
| Crc64.Entry | lib/gentable-crc64.c:41-49 | The entry of a byte is its remainder after eight steps. |
| Crc64.Generate | lib/gentable-crc64.c:35-53 | Every entry of the table is the remainder of its index. |
| Crc64.ByteStep | src/nvme/util.c:45-46 | Eight steps of the division are one shift and one table entry. |
| Crc64.RemainderIsDivide | src/nvme/util.c:45-46 | Dividing byte by byte is dividing bit by bit. |
| Crc64.Compute | src/nvme/util.c:41-49 | The table-driven loop computes the bit-serial checksum of every message. |
| Crc64.InPieces | src/nvme/util.c:41-49 | Feeding a message in two pieces, with the first result inverted back, gives the checksum of the whole. |
| Crc64Bursts.BurstFound | src/nvme/util.c:41-49 | Any error confined to 64 consecutive bits changes the checksum, wherever it is and however long the message. |
| Crc64Standard.Exponents | lib/gentable-crc64.c:24-31 | The polynomial has exactly the terms listed. |
| Crc64Standard.CheckValue | src/nvme/util.c:41-49 | The checksum of the nine digits from all ones is 0xAE8B14860A799888. |

## Left out

- `IOMMU_MAP_FIXED_IOVA`: the caller picks the address, and the library promises nothing about it.
- iommufd, groups, devices, interrupts, capabilities and the lifetime of containers: calls into the kernel.
- The fallback of `iommu_unmap_all` for kernels that cannot unmap everything at once: a loop of unmaps.
- Locks, memory barriers and byte order; every step of the state machines is one sequentially consistent access.
- Memory reclamation: nodes and ranges that are freed are only unlinked.
- The distribution of skiplist levels, and with it the expected cost of a search.
- Wrap-around of buffer addresses in PRP entries.
- The shadow doorbell of the completion queue head, which takes the same decision for another register.
- `nvme_rq_mapv`, which picks one of two builders, `nvme_rq_wait`, and the asynchronous event requests.
- Prps.MapvPrp: takes at least one segment; for none the code looks at a first segment that is not there.
- Prps.WalkReadsBytes: takes a list page address that is page aligned, as the controller requires.
- Sgls.SglWalkReadsBytes: takes a table of less than 4G, whose length a descriptor can hold; the source has one page.
- SkipLists.SkipList.Link: the choice of the level is a parameter, not drawn.
- CompletionQueues.CompletionQueue.WaitCqes: without a timeout the loop of the source ends only if completions arrive; the model ends it with the arrivals it is given.
