# Memory management of kernel-x86, modelled and proved in Dafny

The kernel manages memory in three layers, and the model keeps them apart and composes them.

1. **The kmalloc heap** (`HeapChain`, `HeapInvariant`, `HeapExact`, `HeapRuns`, `HeapArithmetic`, `HeapMemory`,
   `HeapSteps`, `Heap`).
   `HeapChain` describes the heap as a chain of blocks: best fit, split, append, coalescing, release of the tail.
   `HeapExact` says by sizes and addresses alone what each operation leaves. `HeapRuns` proves what holds over every run. `Heaps.Heap` is the code itself, on bytes: 16-byte headers and the
   8-byte page record are little-endian words in the same memory as the payloads, every access is inside the memory
   that `sbrk` has granted, and each method is tied to its function on chains. Every load and store of the heap also goes
   through the page tables into physical memory (`Storage`); `Heap.Physical()` says that physical memory holds the heap
   up to a window and that everything read so far was what it holds.
2. **Paging and the break** (`Paging`, `AddressSpace`, `Boot`, `Kds`). Directory and page tables are arrays of
   entries; the software walk `get_physaddr` is compared with the processor's walk of section 4.3 of the Intel SDM
   Volume 3A. `Kds` is `sbrk` over both, and is the `sbrk` that the heap calls.
3. **The frame allocator** (`Frames`, `FrameRuns`): first fit for runs of unused frames, over reference counts.

`Kernel` states what the layers do together, from boot on. `Digits` models the digit printers of `kprintf`.

`dafny verify dfyconfig.toml` checks the project.

## Results about the code as it is

The properties of the chain hold for all runs. The following promises fail in the code; for each the exact condition
is proved.

- **All heap pages are one physical page.** `init_ram_frames` never sets `addr`, and nothing else does, so every heap
  address translates to its offset in physical page 0 (`HeapPagesAlias`). Physical memory is separate storage for a heap,
  for every contents, address and value stored, if and only if the page addresses in the owners' records are pairwise
  different (`SafeExactlyIfDistinct`). As booted that is the case if and only if the heap ends within its first 4 KB
  (`SafeAsBooted`); `KmallocAsBooted` is the exact condition on the state before a `kmalloc` under which it stays so. Within that bound, or with
  different addresses in the records, `kmalloc`, `free` and `realloc` keep payloads in physical memory too, over whole
  runs (`Heap.Kmalloc`, `Heap.Free`, `Heap.Realloc`, `ExecuteInRam`). Beyond it they do not: after `kmalloc(4072)` and
  `kmalloc(1)`, which succeed on every machine with three unused frames, no physical memory holds the heap, because
  `nb_pages` and the size of the second block are the same four bytes (`TwoCalls`, `SecondPageOverwritesFirst`). With the
  frames' addresses stored at boot all heap pages would differ, and they would lie clear of the kernel, the page tables
  and the frame records if and only if the frame count is not a multiple of 1024 (`AddressedBoot`, `HeapAbove`).
- **Pages given back are never usable again.** `unmap_pages` finds the table through the 10-bit address of a 4 MB entry
  (src/pages.c:440). For every directory the word it clears lies below the page tables (`ClearedIsLow`), so every page
  stays mapped (`UnmapKeepsTranslations`). The next growth runs into those pages, so `sbrk` grows if and only if the
  segment needs all pages ever mapped (`Kds.Grow`); after one release it never grows again (`NeverGrowsAgain`), and every
  attempt keeps the frames it took. After everything is freed, every later request in any run returns NULL
  (`FreeAllThenKmalloc`). From boot this is the end of every program that gets a block and frees everything
  (`RunThenFree`). The first `kmalloc` returns one if and only if the unused frames suffice for two pages and those it
  adds (`FirstKmalloc`, `KmallocSbrkTest`); half a gigabyte has 127109 (`HalfGigabyteTest`).
- **The quota of sbrk** adds an address to a number of pages (src/pages.c:88). From boot it never refuses what the frames
  allow (`QuotaNeverRefuses`); frames alone decide how far the heap grows (`GrowthExactly`, `KmallocRun`).
- **Freeing an unused frame** is lost (`FreeOfUnusedIsLost`); in runs without such a free the counts are exact
  (`CountExactly`).
- **The reserved frames.** Boot reserves exactly the frames below the end of the metadata if and only if the frame count
  is not a multiple of 1024 (`ReservedPrefix`); otherwise the first allocation is the kernel's own frame
  (`KernelFrameGranted`).
- **get_physaddr under a 4 MB entry** agrees with the processor if and only if the address is in its first 4 KB, or,
  where bits 9 to 11 of the entry are set, if the processor gives 0 as well (`WalksAgree`).
- **The table fill for the metadata** is complete if and only if its size is not a positive multiple of 4 MB
  (`FilledCovers`), which never happens for the frame counts of this machine (`MetaNeverFillsLastTable`).
- **The growth request of kmalloc** is large enough if and only if the block ends below 2^32 and fewer than 2^19 pages
  are missing (`AskedIsEnough`); `HugeRequestWraps` is an input that fails.
- **The signed digit printer** reads back for every number if and only if `-` is not a digit above zero (`SignedExact`).

## Model

| member | source | states |
|---|---|---|
| `HeapChain.BestFit` | src/kmalloc/kmalloc/add_value.c:42-51 | the smallest free block that fits, the lowest one among ties; -1 exactly if none fits |
| `HeapChain.DisjointBlocks` | src/kmalloc/kmalloc/add_value.c:95-101 | blocks of a tiled chain, header and payload together, never overlap |
| `HeapChain.FindUnique` | src/kmalloc/free/rm_value.c:70-82 | a pointer is the payload start of at most one block |
| `HeapInvariant.TakeKeepsInv` | src/kmalloc/kmalloc/add_value.c:17-34 | splitting or taking a free block keeps tiling, coalescing and the tail bound |
| `HeapInvariant.AppendKeepsInv` | src/kmalloc/kmalloc/add_value.c:59-103 | growing by the pages computed and appending keeps them, with at most a page unused |
| `HeapInvariant.MergedSpan` | src/kmalloc/free/rm_value.c:22-34 | the merged block covers exactly the blocks it joins, and its size is theirs plus their headers |
| `HeapInvariant.CoalesceKeepsSound` | src/kmalloc/free/rm_value.c:16-35 | merging both neighbours leaves no two adjacent free blocks and the same end of heap |
| `HeapInvariant.ReleaseKeepsInv` | src/kmalloc/free/rm_value.c:37-59 | giving back whole pages restores the bound on a free last block |
| `HeapInvariant.KmallocKeepsInv` | src/kmalloc/kmalloc/add_value.c:83-103 | kmalloc keeps the invariant; after a success an empty chain means no page |
| `HeapInvariant.FreeKeepsInv` | src/kmalloc/free/rm_value.c:61-84 | free of any pointer keeps the invariant |
| `HeapInvariant.KmallocGrants` | src/kmalloc/kmalloc/add_value.c:17-57 | one new live block of exactly the size asked, or all of a best fit less than 17 bytes larger, clear of all live blocks, which are unchanged |
| `HeapInvariant.FreeRemoves` | src/kmalloc/free/rm_value.c:61-84 | free removes from the live blocks exactly the one at the pointer |
| `HeapExact.PagesNeededExactly` | src/kmalloc/kmalloc/add_value.c:65-71 | the fewest pages after which the end of the block lies strictly below the limit; none exactly if it lies at or below it already |
| `HeapExact.FittingKmalloc` | src/kmalloc/kmalloc/add_value.c:23-34 | with a fit: the size asked and a free block with the rest if the rest can hold a header and a byte, else the whole block; every other block as before, no page |
| `HeapExact.AppendingKmalloc` | src/kmalloc/kmalloc/add_value.c:91-102 | without a fit: one block of exactly the size asked at the end and the fewest pages, or NULL and no change |
| `HeapExact.KmallocSize` | src/kmalloc/kmalloc/add_value.c:25-33 | the block returned is live and has the size asked, unless the best fit is too small to split; nothing else becomes live |
| `HeapExact.FreeEnds` | src/kmalloc/free/rm_value.c:43-57 | where the heap ends after a free: with the last live block and less than a page beyond, or where it ended before |
| `HeapExact.ChainUnique` | src/kmalloc/free/rm_value.c:22-34 | live blocks and the end of the heap determine every block, the free ones included |
| `HeapExact.FreeExactly` | src/kmalloc/free/rm_value.c:61-84 | so the chain after a free is the only one without the block at the pointer, without adjacent free blocks, and with that end |
| `HeapExact.ReallocExactly` | src/kmalloc/realloc/realloc.c:30-36 | the pointer itself exactly if the block is large enough; NULL exactly if nothing fits and the break cannot move; else another live block with room for the size, and the old one stays |
| `HeapExact.ReallocOtherwise` | src/kmalloc/realloc/realloc.c:23-29 | kmalloc for NULL, and free for size 0 |
| `HeapRuns.RunKeepsInv` | src/kmalloc/kmalloc/add_value.c:36-103 | every run of kmalloc, of free of any pointer, and of realloc of NULL or of a block keeps tiling, coalescing and the tail bound |
| `HeapRuns.LiveUntilFreed` | src/kmalloc/free/rm_value.c:61-84 | a live block keeps address and size over any run that does not free its pointer, by free or by realloc to 0 |
| `HeapRuns.KmallocStaysWithin` | src/kmalloc/kmalloc/add_value.c:91-101 | the end of the heap stays below an edge if and only if the request needs pages and is refused them, finds a fit, or ends below it |
| `HeapRuns.PlaysAt` | src/kmalloc/realloc/realloc.c:18-37 | in a run of a program, each call is what the program asks for after seeing the results so far |
| `HeapRuns.AllocatesExactly` | src/kmalloc/kmalloc/add_value.c:89-102 | a run allocates if and only if one of its results is not NULL |
| `HeapRuns.LiveAreResults` | src/kmalloc/kmalloc/add_value.c:52-54 | every block live after a run was live before it or is one of its results |
| `HeapRuns.FreeStaysWithin` | src/kmalloc/free/rm_value.c:48-57 | free never moves the end of the heap up |
| `HeapRuns.FreeChangesLiveOnly` | src/kmalloc/free/rm_value.c:70-83 | free changes the heap if and only if the pointer is that of a live block |
| `HeapRuns.FreeTwice` | src/kmalloc/free/rm_value.c:16-84 | freeing a pointer twice is freeing it once |
| `HeapRuns.NothingLiveNothingLeft` | src/kmalloc/free/rm_value.c:22-57 | no live block if and only if no block |
| `HeapRuns.FreesRemove` | src/kmalloc/free/rm_value.c:61-84 | a list of frees removes exactly the live blocks named in it, in any order |
| `HeapRuns.FreeAllEmpties` | src/kmalloc/free/rm_value.c:16-84 | freeing all live pointers in any order leaves no block and no page |
| `HeapRuns.FreeEverything` | src/kmalloc/free/rm_value.c:16-84 | the same from the fresh heap, after any run with a successful kmalloc |
| `HeapRuns.BestFitFirst` | src/kmalloc/kmalloc/add_value.c:46-55 | if some free block fits, kmalloc returns the best fit and asks for no page |
| `HeapRuns.NullExactly` | src/kmalloc/kmalloc/add_value.c:89-94 | NULL if and only if the size is 0, or nothing fits and the break cannot move |
| `HeapArithmetic.AskedIsEnough` | src/kmalloc/kmalloc/add_value.c:64-74 | the exact condition under which the 32-bit page computation asks sbrk for enough |
| `HeapArithmetic.AskedIsNeeded` | src/kmalloc/kmalloc/add_value.c:64-74 | for every block that ends below 2^32 it asks for exactly the pages that the chain needs |
| `HeapArithmetic.HugeRequestWraps` | src/kmalloc/kmalloc/add_value.c:65-66 | a size just below 4 GB for which no page is requested |
| `HeapMemory.LoadStore` | src/kmalloc/includes/mem_infos.h:18-30 | a stored 32-bit word reads back, and no other byte changes |
| `HeapMemory.LittleEndian` | src/kmalloc/includes/mem_infos.h:18-30 | the bytes of a word, lowest first |
| `HeapMemory.HeaderWords` | src/kmalloc/includes/mem_infos.h:18-24 | the four words of a stored header |
| `HeapMemory.StoredSplice` | src/kmalloc/kmalloc/add_value.c:23-33 | rewriting headers inside one stretch of the heap leaves all other headers and the page record intact |
| `HeapMemory.StoredAppend` | src/kmalloc/kmalloc/add_value.c:95-101 | the bytes written by an append are the longer chain, and every live payload is kept |
| `HeapMemory.StoredRelease` | src/kmalloc/free/rm_value.c:48-57 | the bytes after a release are the shorter chain, and every live payload is kept |
| `Heaps.Heap.constructor` | src/kmalloc/mem_infos/mem_infos.c:18 | an empty heap; physical memory holds it if the window is one page or all records differ in their page address |
| `Heaps.Heap.GetWord` | src/kmalloc/includes/mem_infos.h:18-30 | within the window the word read is the one in physical memory |
| `Heaps.Heap.SetWord` | src/kmalloc/includes/mem_infos.h:18-30 | the word is stored and nothing else changes; within the window the same holds in physical memory |
| `Heaps.Heap.GrowSegment` | src/pages.c:85-109 | the break moves exactly if the segment can grow; nothing but the growth happens to frames and pages |
| `Heaps.Heap.GrowBreak` | src/pages.c:85-109 | new memory exactly if the segment can grow, with what its frames hold; the frames taken; the old bytes stay, also in physical memory |
| `Heaps.Heap.ShrinkBreak` | src/pages.c:102-109 | the memory above the new break is forgotten, the rest stays, also in physical memory |
| `Heaps.Heap.GetFirstValue` | src/kmalloc/mem_infos/mem_infos.c:16-31 | sets up one page and an empty chain once; NULL if and only if the segment cannot grow by two pages; what can be grown afterwards |
| `Heaps.Heap.SplitBlock` | src/kmalloc/kmalloc/add_value.c:26-32 | the bytes become the headers of a block of the size asked and of a free block with the rest, and nothing outside the block changes |
| `Heaps.Heap.PrepareSplitValue` | src/kmalloc/kmalloc/add_value.c:17-34 | the bytes become the chain with the block taken, all live payloads kept; physical memory still holds the heap |
| `Heaps.Heap.IsBetter` | src/kmalloc/kmalloc/add_value.c:47-48 | true exactly if the block fits and is smaller than the best one so far |
| `Heaps.Heap.FindPlace` | src/kmalloc/kmalloc/add_value.c:42-51 | the walk over the headers finds the best fit of the chain, in physical memory too |
| `Heaps.Heap.MemSearchPlace` | src/kmalloc/kmalloc/add_value.c:36-57 | best fit taken and its payload returned, or NULL and nothing changed; physical memory still holds the heap |
| `Heaps.Heap.AddPages` | src/kmalloc/kmalloc/add_value.c:73-80 | the limit moves and the page record counts the pages, if and only if the segment can grow |
| `Heaps.Heap.PagesizeAddUpdate` | src/kmalloc/kmalloc/add_value.c:59-81 | computed in 32 bits as coded, the limit moves by the pages needed, if and only if the segment can grow; otherwise nothing changes |
| `Heaps.Heap.WriteTop` | src/kmalloc/kmalloc/add_value.c:95-101 | the header of the new block and the new end, with everything below unchanged |
| `Heaps.Heap.AppendBlock` | src/kmalloc/kmalloc/add_value.c:95-102 | the new header on top and the new end make the appended chain; physical memory still holds the heap |
| `Heaps.Heap.AddBlock` | src/kmalloc/kmalloc/add_value.c:93-102 | growth and append together; NULL and no change exactly if the break cannot move |
| `Heaps.Heap.MemAddValue` | src/kmalloc/kmalloc/add_value.c:83-103 | bytes and pointer are those of the chain operation; every live payload is kept |
| `Heaps.Heap.Kmalloc` | src/kmalloc/kmalloc/kmalloc.c:15-20 | the same, and NULL with nothing changed for size 0; a pointer returned is live with room for the size; within the window every live payload is kept in physical memory |
| `Heaps.Heap.MergeAfter` | src/kmalloc/free/rm_value.c:22-27 | the size grows by the next block and its header, if that is free |
| `Heaps.Heap.MergeFreedPtr` | src/kmalloc/free/rm_value.c:16-35 | the header returned holds the size of the merged block, and only that block's bytes change |
| `Heaps.Heap.ReleasePages` | src/kmalloc/free/rm_value.c:48-57 | break, page count and end of heap are those of the shorter chain, every live payload kept |
| `Heaps.Heap.PagesizeRmUpdate` | src/kmalloc/free/rm_value.c:37-59 | the tail is released exactly as on chains, every live payload kept; physical memory still holds the heap |
| `Heaps.Heap.FindBlock` | src/kmalloc/free/rm_value.c:67-83 | the walk finds the block of the pointer and the one before it, or nothing |
| `Heaps.Heap.FreeHeader` | src/kmalloc/free/rm_value.c:74-77 | all four fields of the merged block's header |
| `Heaps.Heap.FreeFound` | src/kmalloc/free/rm_value.c:72-80 | merge, header and release together are the chain's free; all other live payloads kept |
| `Heaps.Heap.MemRmValue` | src/kmalloc/free/rm_value.c:61-84 | free on bytes is free on the chain; the NULL dereference happens exactly if the heap cannot be set up |
| `Heaps.Heap.Free` | src/kmalloc/free/free.c:15-18 | the same; within the window every other live payload is kept in physical memory |
| `Heaps.Heap.Memcpy` | src/tools/string.c:18-30 | every byte of the destination, for all ranges; a copy of the source unless the destination begins inside it; nothing else changes; within the window physical memory still holds the heap |
| `Heaps.Heap.MoveBlock` | src/kmalloc/realloc/realloc.c:33-36 | the new payload starts with all old bytes; every live payload, the old block's included, is kept |
| `Heaps.Heap.Realloc` | src/kmalloc/realloc/realloc.c:18-37 | the same pointer and heap exactly if the block is large enough; NULL exactly if nothing fits and the break cannot move; a pointer returned has room for the size and the old block stays; within the window copy and kept payloads hold in physical memory |
| `Storage.PlaceIsTranslated` | src/pages.c:189-237 | the place computed from the owner's record is where the processor's walk leads |
| `Storage.StoreKeepsBacked` | src/pages.c:365 | with different page addresses a store changes exactly its own heap byte in physical memory |
| `Storage.SafeExactlyIfDistinct` | src/pages.c:365 | every store is safe, whatever memory holds, if and only if the page addresses are pairwise different |
| `Storage.SeparableIsDistinct` | src/pages.c:364-370 | different addresses in all records, or a heap of one page, give different pages |
| `Storage.AddressesWouldBeDistinct` | src/frame.c:33 | the addresses that the frames stand for, had boot stored them, are all different |
| `Storage.AddressedBoot` | src/frame.c:32-40 | with the addresses stored at boot, pages are distinct, and no frame below the metadata end is unused if and only if the frame count is no multiple of 1024 |
| `Storage.BootedExactly` | src/frame.c:28-39 | with the addresses that boot leaves, pages differ if and only if there is one |
| `Storage.LoadCoherent` | inc/pages.h:56-87 | within the window the processor reads the heap's words |
| `Storage.StoreCoherent` | inc/pages.h:56-87 | within the window a word stored by the processor is the word stored in the heap, and no other heap byte changes |
| `Storage.SharedWord` | src/pages.c:365 | a word stored on one page is read at the same offset of every page with the same address |
| `Storage.CoherentMoves` | src/pages.c:75-110 | moving the break leaves the heap in physical memory where it was |
| `Storage.CopyInRam` | src/tools/string.c:18-30 | bytes copied in the heap are copied in physical memory |
| `Storage.KeptInRam` | src/kmalloc/free/rm_value.c:61-84 | payloads kept in the heap are kept in physical memory |
| `Frames.FirstRun` | src/frame.c:152-182 | the lowest run of n unused frames; -1 if and only if there is none or n is less than 1 |
| `Frames.LowestRunIsFirst` | src/frame.c:159-180 | the lowest run is unique |
| `Frames.RunsOfInterval` | src/frame.c:152-182 | if the unused frames are an interval, a run exists exactly up to its length and is taken from its start |
| `Frames.FrameTable.AllocFrame` | src/frame.c:117-131 | result and table are those of a run of one frame |
| `Frames.FrameTable.SetRefCount` | src/frame.c:133-143 | sets exactly the counts of n records |
| `Frames.FrameTable.AllocFrames` | src/frame.c:152-182 | takes the lowest run and sets exactly its counts to 1; changes nothing on failure |
| `Frames.FrameTable.FreeFrame` | src/frame.c:187-193 | a count of 1 or more goes down by one, 0 stays 0, no other record changes |
| `Frames.FrameTable.InitRamFrames` | src/frame.c:22-40 | frames whose address is below the given end are reserved, all others cleared |
| `FrameRuns.CountBound` | src/frame.c:117-193 | over any run a count falls only by frees of its frame |
| `FrameRuns.RegrantNeedsFrees` | src/frame.c:117-193 | a frame is granted again only after as many frees as it had users |
| `FrameRuns.NoDoubleGrant` | src/frame.c:117-193 | between two grants of a frame there is a free of it |
| `FrameRuns.CountExactly` | src/frame.c:117-193 | over a run that never grants the frame nor frees it unused, the count is its users and joins less its frees |
| `FrameRuns.FreedExactly` | src/frame.c:187-193 | so it is unused exactly after as many frees as it had users |
| `FrameRuns.FreedIsGranted` | src/frame.c:117-131 | and then the next request for one frame gets it exactly if no lower frame is unused |
| `FrameRuns.FreeOfUnusedIsLost` | src/frame.c:187-193 | a free of an unused frame is not made up for by a later user |
| `Paging.FieldsOfValue` | inc/pages.h:56-87 | the bit fields of an entry are those bits of its 32-bit word |
| `Paging.FlagWords` | inc/pages.h:9-16 | the words of PF_PRES, PF_RW and PF_4M as written |
| `Paging.WalkSlotIsSlot` | src/pages.c:215-219 | with table i under directory entry i, each page has a table word of its own |
| `Paging.WindowIsIdentity` | inc/pages.h:30 | the window used to read the tables is mapped linearly |
| `Paging.WalksAgree` | src/pages.c:189-237 | the exact condition under which get_physaddr and the processor agree, for every entry and address |
| `Paging.FreePrefixIsPrefix` | src/pages.c:356-380 | the pages before the first one that is present or under a 4 MB entry |
| `Paging.MapPagesCount` | src/pages.c:348-382 | map_pages maps exactly that prefix, so it fails if and only if some page is blocked |
| `Paging.MapPagesKeepsLayout` | src/pages.c:353-366 | every directory entry still points at its own table |
| `Paging.MapPagesEntry` | src/pages.c:364-366 | each mapped page holds its own frame; every other table entry is unchanged |
| `Paging.MapPagesFrame` | src/pages.c:369-373 | each frame mapped gains a user and its page's address; every other record is unchanged |
| `Paging.MapPagesDir` | src/pages.c:349-355 | exactly the directory entries of the pages tried that were not present become present and writable, with bit 8 and all above kept |
| `Paging.PresentEntriesKept` | src/pages.c:353-362 | an entry that was present is never altered |
| `Paging.MappedTranslates` | src/pages.c:339-383 | every mapped page translates to its frame, for get_physaddr and for the processor |
| `Paging.MappedElsewhere` | src/pages.c:339-383 | every other page translates as before, for get_physaddr and for the processor |
| `Paging.ClearedIsLow` | src/pages.c:439-443 | for every directory unmap_pages clears words below the page tables only |
| `Paging.ClearedWord` | src/pages.c:440-443 | the word cleared for a page lies in the second physical page, at the index of the page in its table |
| `Paging.UnmapKeepsTranslations` | src/pages.c:427-450 | so every address translates after unmap_pages as before, for get_physaddr and for the processor |
| `AddressSpaces.AddressSpace.MapPage` | src/pages.c:349-380 | one turn of the loop: directory entry present and writable, page mapped unless blocked |
| `AddressSpaces.AddressSpace.MapPages` | src/pages.c:339-383 | the loop leaves exactly the memory that the lemmas above describe |
| `AddressSpaces.AddressSpace.UnmapPages` | src/pages.c:427-450 | clears exactly those stray words and keeps the layout |
| `AddressSpaces.AddressSpace.InitPageDirectory` | src/pages.c:162-187 | only the two 4 MB entries of kernel and tables remain |
| `AddressSpaces.AddressSpace.InitPageTables` | src/pages.c:138-160 | every other entry points at its own table, and all tables are clear |
| `AddressSpaces.AddressSpace.FillTable` | src/pages.c:262-273 | linear entries under one directory entry, nothing else changed |
| `AddressSpaces.AddressSpace.FillEntry` | src/pages.c:254-273 | one more directory entry and the first entries of its table |
| `AddressSpaces.AddressSpace.InitPageDirectoryForFrames` | src/pages.c:246-275 | exactly the first pages of the metadata are mapped linearly |
| `Boot.FrameCount` | src/frame.c:49-50 | fewer than 2^20 frames for every memory size, in 32-bit arithmetic |
| `Boot.FrameCountBounds` | src/frame.c:49-50 | for every region of 7 MB and more the whole frames beyond 7 MB; a smaller one wraps to almost 2^20 |
| `Boot.FilledCovers` | src/pages.c:248-263 | the pages filled cover the metadata if and only if its size is no positive multiple of 4 MB |
| `Boot.MetaNeverFillsLastTable` | src/frame.c:50-51 | the metadata is never a multiple of 4 MB |
| `Boot.BootWords` | src/pages.c:138-187 | every directory word and every table word after boot |
| `Boot.MetadataIsLinear` | src/pages.c:246-275 | for every frame count, every metadata address translates to its physical copy |
| `Boot.MetadataEnd` | src/frame.c:26 | the end translates to the physical end if the frame count is no multiple of 1024, else to 0 |
| `Boot.ReservedPrefix` | src/frame.c:32-40 | exactly the frames below the metadata end are reserved if and only if that count is no multiple of 1024 |
| `Boot.BootRecords` | src/frame.c:32-40 | every frame record after boot; a reserved one holds its own virtual address, which translates to it |
| `Boot.BootUnused` | src/frame.c:32-40 | for every frame count, exactly the frames of one interval are unused after boot |
| `Boot.ReservedNeverGranted` | src/frame.c:22-40 | then no run grants a reserved frame that nobody frees |
| `Boot.KernelFrameGranted` | src/frame.c:26-35 | else the first allocation is the frame at 1 MB |
| `KernelData.PagesAdd` | src/pages.c:67-73 | page counts of two amounts add up exactly under the stated condition |
| `KernelData.GrowingRunIsExact` | src/pages.c:75-110 | in growing runs of the heap's pattern the pages present are exactly those of the segment |
| `KernelData.ReleaseLeavesPages` | src/pages.c:102-108 | giving back a page leaves more pages present than needed |
| `KernelData.NeverGrowsAgain` | src/pages.c:75-110 | after that no run of sbrk calls grows the segment |
| `KernelData.GrowthStep` | src/pages.c:96-100 | mapping at the end succeeds if and only if the first page is new, and keeps the heap pages mapped |
| `KernelData.GrowthKeepsClear` | src/pages.c:96-100 | a growth, failed or not, puts no heap page on a frame below a bound that the unused frames respect |
| `KernelData.GrowthKeepsOthers` | src/pages.c:96-100 | a growth changes no translation outside the new pages, for either walk |
| `KernelData.HeapTranslates` | src/pages.c:189-237 | a present heap page translates into its own frame record |
| `KernelData.HeapPageWritable` | src/pages.c:353-366 | a heap page is present and writable at both levels, and its table word is its frame with flags 3 |
| `KernelData.OneRecordPerPage` | src/pages.c:369-370 | exactly one frame record names a heap page |
| `KernelData.HeapPagesPresent` | src/pages.c:67-110 | the heap pages that translate are exactly those ever mapped |
| `KernelData.HeapPagesShare` | src/pages.c:365 | two heap pages share storage if and only if their records hold the same page address |
| `KernelData.HeapPagesAlias` | src/frame.c:28-39 | with the addresses that boot leaves, every heap page is physical page 0, for get_physaddr and for the processor |
| `KernelData.BootMapsNoHeap` | src/frame.c:22-40 | boot maps no heap page and names none in a record |
| `KernelData.PagesAndRunFit` | src/frame.c:152-182 | heap pages have different frames in use: with a run of unused ones they fit in the table |
| `KernelData.GrowthIsExact` | src/pages.c:85-109 | growing by whole pages takes the next unused frames, and all pages present stay in use |
| `KernelData.Kds.constructor` | src/main.c:71-93 | boot establishes tables, frame table and empty segment as specified |
| `KernelData.Kds.QuotaNeverRefuses` | src/pages.c:88-95 | on this machine the quota of sbrk never refuses what the frames allow, in any state |
| `KernelData.Kds.MapAtEnd` | src/pages.c:98-100 | the map_pages call of sbrk succeeds if and only if no page has been given back |
| `KernelData.Kds.Grow` | src/pages.c:85-109 | the break moves if and only if quota, frames and pages allow; the frames taken, also on failure |
| `KernelData.Kds.Shrink` | src/pages.c:102-109 | the break moves down, exactly the stray words are cleared, and no translation changes |
| `KernelData.Kds.Sbrk` | src/pages.c:75-110 | -1 and no move exactly if quota, frames or pages refuse, else the old end and the new size; no translation of another page changes |
| `Kernel.Start` | src/main.c:71-93 | boot leaves an untouched heap, no address in any record, and exactly the stated frames unused |
| `Kernel.FirstGrowth` | src/pages.c:85-101 | after boot the segment can grow by two pages, and then by n, exactly if the unused frames suffice |
| `Kernel.FirstKmalloc` | src/kmalloc/kmalloc/add_value.c:89-102 | for every memory size and request: a block if and only if the unused frames suffice for two pages and those needed |
| `Kernel.HalfGigabyte` | src/frame.c:49-51 | 127109 unused frames with half a gigabyte, enough for any first request below 496 MB |
| `Kernel.HeapBytesMapped` | src/pages.c:67-110 | every heap byte lies on a present page, owned by the record that names it |
| `Kernel.SafeAsBooted` | src/frame.c:32-40 | as coded every store into the heap is safe if and only if the heap ends within its first 4 KB |
| `Kernel.KmallocAsBooted` | src/kmalloc/kmalloc/add_value.c:83-103 | the exact condition on the state before the call under which that stays so; then physical memory holds the heap and all payloads |
| `Kernel.TwoBlocksClash` | src/kmalloc/kmalloc/add_value.c:97-101 | after kmalloc(4072) and kmalloc(1) no physical memory holds the heap |
| `Kernel.TwoCalls` | src/kmalloc/kmalloc/kmalloc.c:15-20 | from boot both calls succeed if and only if three frames are unused, and then end there |
| `Kernel.SecondPageOverwritesFirst` | src/kmalloc/kmalloc/add_value.c:97-101 | a word stored on the second heap page is read back on the first, the page record included |
| `Kernel.Serve` | src/kmalloc/realloc/realloc.c:18-37 | any one call has its effect on the chain and keeps all payloads but the one it frees |
| `Kernel.Execute` | src/kmalloc/kmalloc/add_value.c:36-103 | any program, each call chosen from the results so far, is the run on chains, and every block not freed keeps its payload over the whole run |
| `Kernel.ExecuteInRam` | src/kmalloc/kmalloc/add_value.c:36-103 | the same in physical memory, if the heap stays within the window |
| `Kernel.GrowthExactly` | src/pages.c:85-101 | as long as nothing has been given back, the heap can grow by n pages exactly if that many frames of those that boot left remain |
| `Kernel.GrowingRun` | src/pages.c:75-110 | from boot, sbrk calls with whole pages all succeed if and only if the frames that boot leaves suffice for all |
| `Kernel.KmallocRun` | src/kmalloc/kmalloc/add_value.c:83-103 | from boot, kmallocs of any sizes are all served if and only if the frames that boot leaves suffice for the chain that they build |
| `Kernel.TestAllocAllMemory` | src/test.c:17-34 | kmalloc of 10 MB until NULL returns exactly as many blocks as the frames that boot leaves can hold |
| `Kernel.HalfGigabyteFilled` | src/test.c:17-34 | 49 blocks with half a gigabyte |
| `Kernel.ShrunkHeapCannotGrow` | src/pages.c:98-104 | with a page given back the heap cannot grow |
| `Kernel.FreeAll` | src/kmalloc/free/rm_value.c:61-84 | freeing a list on bytes is the run of frees on the chain |
| `Kernel.ModestExactly` | src/kmalloc/kmalloc/add_value.c:64-74 | the sizes that the code asks enough memory for on an emptied heap |
| `Kernel.LaterRequests` | src/kmalloc/kmalloc/add_value.c:89-94 | on an emptied heap every request of any run returns NULL and changes nothing |
| `Kernel.FreeAllThenKmalloc` | src/kmalloc/free/rm_value.c:37-84 | freeing everything leaves g_kds_size 8, and every later request returns NULL |
| `Kernel.AllReturnedFreesLive` | src/kmalloc/free/rm_value.c:61-84 | whoever frees all pointers returned, in any order, frees every live block |
| `Kernel.NeverSetUp` | src/kmalloc/mem_infos/mem_infos.c:21-25 | with too few frames for the setup every kmalloc of any run returns NULL |
| `Kernel.RunThenFree` | src/kmalloc/free/rm_value.c:16-84 | from boot, after any program that gets a block and then frees all live pointers in any order: no block, nb_pages 0, g_kds_size 8, and NULL from then on |
| `Kernel.HeapAbove` | src/pages.c:364-370 | with addresses in the records every heap byte lies in physical memory above the bound that boot respects |
| `Kernel.KmallocSbrkTest` | src/test.c:8-15 | from boot, for every memory and size: when kmalloc succeeds, the break during use, one page after the free, and NULL from every later request |
| `Kernel.HalfGigabyteTest` | src/test.c:8-15 | with half a gigabyte this happens for every size below 496 MB |
| `Digits.RoundTrip` | src/tools/kprintf/put_nbr_base.c:41-63 | the printed digits read back as the number, without leading zero |
| `Digits.OnlyForm` | src/tools/kprintf/put_nbr_base.c:41-63 | every numeral without leading zero is what its value prints as |
| `Digits.SignedRoundTrip` | src/tools/kprintf/put_nbr_base.c:13-39 | the signed form reads back; it has no leading zero, after the sign if there is one, and is one digit for 0 |
| `Digits.SignedExact` | src/tools/kprintf/put_nbr_base.c:13-39 | for all numbers if and only if '-' is no digit above zero |
| `Digits.Console.PutUintBase` | src/tools/kprintf/put_nbr_base.c:41-63 | emits exactly the unsigned form and terminates |
| `Digits.Console.PutNbrBase` | src/tools/kprintf/put_nbr_base.c:13-39 | emits exactly the signed form and terminates |

## Left out

- Heaps.Heap.Kmalloc: asks that the request fit a free block, or be refused for lack of frames, or leave the limit below 2^31: beyond, one release can exceed the signed argument of sbrk. `HeapArithmetic.AskedIsEnough` covers the arithmetic of the request itself for every limit and size.
- Heaps.Heap.PagesizeAddUpdate: asks the same.
- Heaps.Heap.MemAddValue: asks the same.
- Kernel.FirstKmalloc: leaves out sizes whose growth is granted and ends at or above 2^31, for the same reason.
- Kernel.KmallocSbrkTest: leaves out the same sizes.
- Kernel.LaterRequests: leaves out sizes for which the code's own page computation asks for too little (`Kernel.ModestExactly`), and resizes of a pointer, which names no block on an emptied heap.
- Kernel.Execute: asks that, whatever was granted before, a request keep the limit below 2^31 and a pointer to be resized be live; `Kernel.Serve` also takes larger requests that are refused.
- Kernel.RunThenFree: asks for two unused frames after boot, without which no kmalloc ever returns a block (`Kernel.NeverSetUp`).
- Kernel.KmallocRun: asks that the sizes, or the frames, keep the limit below 2^31.
- Kernel.TestAllocAllMemory: asks the same of the frames.
- Kernel.GrowingRun: asks that the calls, or the frames, stay below the kernel's address.
- HeapRuns.RunKeepsInv: does not cover realloc of a pointer that names no block, for which the code reads whatever word precedes it.
- Heaps.Heap.Realloc: asks that a pointer to be resized is live; for any other the code reads whatever word precedes it.
- Heaps.Heap.PagesizeRmUpdate: the error branch for a failing negative sbrk is absent, because sbrk cannot fail there.
- KernelData.Kds.Sbrk: asks that a growth end below the kernel's address and a release not exceed the segment; the heap keeps to both.
- AddressSpaces.AddressSpace.MapPages: asks that the range not wrap around the address space.
- AddressSpaces.AddressSpace.UnmapPages: asks the same.
- Digits.Console.PutNbrBase: leaves out the least int, whose negation overflows, and bases of fewer than two digits, where the recursion does not end.
- Physical memory behind the heap is kept apart from the page tables, the directory and the frame records, which have arrays of their own. The words that unmap_pages clears lie in low kernel memory, where the linker script places nothing.
- The page directory is written through its virtual address; TLB flushes and cache control have no counterpart.
- `alloc_pages`, `map_io`, `page_fault_handler`, `frame_to_phys` and `phys_to_frame` are not modelled.
- The choice of the RAM region among the multiboot entries is not modelled; its length is a parameter.
- `calloc`, `mem_dump`, kprintf's format handling, GDT and IDT packing, interrupts and all device drivers are not modelled.
