# Verification of the Partix kernel core

Dafny models of seven pieces of Partix, with proofs of what they promise. Each piece comes as a
specification (datatypes, functions and lemmas) and as the code itself (classes, arrays and loops that
update their state in place), tied together by the contracts of the methods. `dafny verify
dfyconfig.toml` checks everything.

- **Pages and heap.** A byte bitmap refines a set of free pages; on top of it a size-class allocator
  threads its free lists through the blocks themselves. Memory is a store of 64-bit words, shared by
  headers, links and client data. The main theorems speak about every history of heap calls, client
  stores, calls of other users of the page allocator and its initialisation over live objects: no byte
  has two owners, headers read back intact, data of live objects untouched, blocks conserved.
  Files `PageBits`, `PageSpec`, `PageAllocator` (modules `PageBitmap`, `PageAllocation`), `HeapModel`,
  `HeapSafety` (`HeapInvariant`, `HeapSteps`), `HeapTheorems`, `KernelHeap` (`KernelHeapCode`).
- **Virtqueues** (section 2.7 of VIRTIO 1.2). The input driver and its device as two parties whose
  single stores interleave in any way; free-running 16-bit counters; GPU commands.
  Files `InputProtocol` (modules `SplitQueue`, `InputProtocol`), `VirtioDrivers` (`GpuCommands`, `VirtioDrivers`).
- **Exceptions** (section 1.6 of the Itanium C++ ABI: Exception Handling, section 7.6 of DWARF 5). The
  personality routine decodes byte tables; its two phases agree over any stack; numbers, call sites,
  action chains and whole areas are read back as written. The two targets differ in two register
  numbers, which are parameters.
  Files `Leb128`, `Personality` (modules `UnwindSpec`, `PersonalityCode`), `Lsda` (`LsdaTables`).
- **Devicetree** (sections 5.2 and 5.4 of the Devicetree Specification v0.4). One loop with per-depth
  tables against a recursive reading of the tree, and that against a reading that looks each node up as
  a whole, down to which node each device is taken from. Files `Fdt` (modules `FdtModel`, `FdtBytes`,
  `FdtScan`), `FdtReference` (`FdtReference`, `FdtDeviations`), `FdtDevices` (`FdtDevices`, `FdtInit`).
- **Build order.** Kahn's algorithm with its exact error conditions. File `BuildOrder`
  (modules `BuildOrder`, `BuildOrderCode`).
- **ELF loading** (chapter 5 of the System V ABI). The memory image of a two-pass loop. File `ElfLoader`
  (modules `ElfImage`, `ElfLoader`).
- **Keyboard ring.** An interrupt handler that may run between any two statements of the poll.
  File `KeyboardRing` (modules `KeyRing`, `KeyboardDriver`).

`Basics` holds the types they share.

Where code and comment or standard disagree the code is followed, and the exact condition is proved:

- The comment at allocator.c:142-143 says that `page_free` on pages of the bump region is a no-op. It
  is one exactly when none of the addresses lies in the span of the page allocator
  (`BigFreeIsNoOpExactly`); freeing is safe exactly for blocks that start on a page boundary of the
  span, or outside it, or directly on a large bump block already freed (`BigFreeIsSafeExactly`).
  `UnsafeFreeIsReachable` shows a history of the x86_64 kernel's heap that leads to another one.
  Histories are stated under that condition.
- The bitmap starts at the first byte of its host range, the pages marked for it at the page that byte
  lies in (page_alloc.c:67 and 78). Off the page grid its end may lie in a page left free;
  `BitmapFitsExactly` and `InitIsSafeExactly` say when, `BitmapIsHandedOut` shows a case, and histories
  are stated for the others.
- A large request is granted what it asks for exactly when its arithmetic fits
  (`LargeRequestsHonouredExactly`, with `SizeFits`). Three lemmas show what happens otherwise at the
  constants of the two kernels: one page instead of 2^32 + 1, a bump pointer that moves back, no page.
- `free_pages` is initialised by adding up the ranges; `InitialCount` says when that is the number of
  clear bits, and `OverlapIsCountedTwice` shows where it is not. The interval of `page_alloc_reserve`
  may wrap; `ReserveMeetsItsPurposeExactly` says when it still does what it is for. Address 0 is the
  failure value; `ZeroMeansFailureExactly` says when that is unambiguous, `FailureCostsExactly` what it
  costs the heap.
- The cell count of an address is taken from the node's own table entry, inherited from all ancestors,
  where section 2.3.5 of the standard takes it from the parent alone, two by default; and any count but
  two is read as one. `RegRecordedExactly` says when the address recorded is the standard's;
  `OwnCellsMisread`, `InheritedCellsMisread` and `WideCellsMisread` are trees where it is not,
  `NarrowCellsOverread` is one where the read leaves the property; `WalkIsReference` relates whole trees
  to both rules.
- The pages requested for an ELF image forget the offset of the lowest byte in its page
  (`RequestCoversExactly`, `RequestFallsShort`).
- The displacement to the next action record counts from the start of the record, where compilers count
  from its own field; `StandardChainsReadExactly` says which chains of theirs are read right.
- A handler frame without a landing pad is found by the search but not entered; `PhasesAgree` states
  this as an equivalence.

Conditions under which the theorems speak, each a demand of the source on its surroundings: the bump
region ends a page short of the address space (`GoodRegion`); initialisation leaves no page free that
meets it or the bitmap (`GoodSetUp`), which whole pages apart from the region bring about, or its
reservation together with a bitmap that fits; only live pointers are freed; queue sizes divide 2^16,
and are at most 64 for input; LEB128 numbers have at most ten bytes, longer ones being undefined shifts
in C; structure blocks are 4-aligned and encode a tree (`Good`); program headers stay inside memory and
away from the file (`AllFit`, `Clear`).

## Model

| member | source | states |
|---|---|---|
| PageBitmap.SettingChangesOneBit | hal/src/main/c/runtime/page_alloc.c:25-35 | on the whole bitmap, setting or clearing page p changes what `bit_get` says about p and about no other page |
| PageBitmap.UnusedDeterminesBytes | hal/src/main/c/runtime/page_alloc.c:25-35 | two bitmaps with the spare tail bits set and the same free pages are equal byte for byte: the set of free pages is all the bitmap holds |
| PageBits.BitIsShift | hal/src/main/c/runtime/page_alloc.c:25-27 | a bit is read as the byte shifted down by its number, its lowest bit kept |
| PageSpec.FirstRunIsLowest | hal/src/main/c/runtime/page_alloc.c:124-141 | a run found is free and no lower run of that length is; when none is found no such run exists |
| PageSpec.LowestRunIsFirst | hal/src/main/c/runtime/page_alloc.c:124-141 | conversely, any run that is free with no free run of the length below it is the one the search returns |
| PageSpec.TakeRunMeaning | hal/src/main/c/runtime/page_alloc.c:124-141 | `page_alloc_contig` returns the address of the lowest run, takes exactly its pages and lowers the free count by the length; without a run it changes nothing |
| PageSpec.ZeroMeansFailureExactly | hal/src/main/c/runtime/page_alloc.c:118-140 | a result of 0 means that nothing was taken exactly when the span does not start at address 0 with a free run there |
| PageSpec.FreeAllAddsThosePages | hal/src/main/c/runtime/page_alloc.c:143-151 | freeing pages one by one, in any order and with repetitions, makes free exactly those pages besides the ones already free |
| PageSpec.FreeAddrMeaning | hal/src/main/c/runtime/page_alloc.c:143-151 | freeing an address, anywhere in a page, makes free exactly the page of the span that holds that byte, besides those already free |
| PageSpec.FreeingARunRestores | hal/src/main/c/runtime/page_alloc.c:124-151 | a contiguous allocation undone page by page, in any order, gives back the same set of free pages |
| PageSpec.ReserveMeetsItsPurposeExactly | hal/src/main/c/runtime/page_alloc.c:92-110 | for all free sets, reserve withholds exactly the pages that have a byte in the interval if and only if the end of the interval does not wrap 64 bits or its start lies at or past the end of the span |
| PageSpec.ReserveIsIdempotentAndCommutes | hal/src/main/c/runtime/page_alloc.c:92-110 | reserving twice is reserving once, and two reservations commute, wrapping intervals included |
| PageSpec.RangeFitsSpan | hal/src/main/c/runtime/page_alloc.c:40-52 | every non-empty range starts inside the span and all its pages have a bit in the bitmap |
| PageSpec.SizesAreLeast | hal/src/main/c/runtime/page_alloc.c:51-57 | the span is all whole pages between the extremes of the ranges, the bitmap the fewest bytes with a bit for each, its storage the fewest pages that hold as many bytes |
| PageSpec.PagesFromFirstByte | hal/src/main/c/runtime/page_alloc.c:71-76 | a range makes free as many pages as it has, from the one that holds its first byte |
| PageSpec.StorageIsCovered | hal/src/main/c/runtime/page_alloc.c:54-79 | the pages marked for the bitmap are the first ones of the first range large enough, counted from the page its first byte lies in, and all belong to pages of the ranges |
| PageSpec.BitmapFitsExactly | hal/src/main/c/runtime/page_alloc.c:54-79 | every byte of the bitmap lies in a page marked for it if and only if the offset of its first byte in a page and its length fit those pages |
| PageSpec.BitmapIsClearExactly | hal/src/main/c/runtime/page_alloc.c:67-79 | after initialisation and any reservations no free page has a byte of the bitmap if and only if the bitmap fits, or the one page behind those marked is not left free |
| PageSpec.AlignedCoverIsExact | hal/src/main/c/runtime/page_alloc.c:71-76 | for ranges page aligned relative to the lowest one, page p is made free exactly when all its bytes lie in some range: holes stay occupied |
| PageSpec.SumCountsPagesExactly | hal/src/main/c/runtime/page_alloc.c:81-88 | adding up the lengths of the ranges never undercounts the pages they cover, and equals it exactly when no two ranges share a page |
| PageSpec.InitialCount | hal/src/main/c/runtime/page_alloc.c:81-89 | `free_pages` after initialisation is at least the number of clear bits, and equal to it exactly when no two ranges share a page |
| PageSpec.OverlapIsCountedTwice | hal/src/main/c/runtime/page_alloc.c:81-89 | two ranges with a page in common: `free_pages` ends at three, two pages are free |
| PageSpec.DisjointBytesAreDisjointPages | hal/src/main/c/runtime/page_alloc.c:81-88 | ranges that share no byte and are page aligned relative to the lowest share no page, so their count is exact |
| PageAllocation.PageAllocator.Init | hal/src/main/c/runtime/page_alloc.c:37-90 | in place: frees exactly the pages of the ranges less those marked for the bitmap, sets both counters; a second call, no non-empty range, or no range for the bitmap leave the allocator as it was; the bitmap is an array here, which bytes of memory it takes is left to `BitmapFitsExactly` and the histories of the heap |
| PageAllocation.PageAllocator.FindFree | hal/src/main/c/runtime/page_alloc.c:112-122 | the single-page search stops at the lowest free page, the run a contiguous search for one page finds, or at the end of the span |
| PageAllocation.PageAllocator.Alloc | hal/src/main/c/runtime/page_alloc.c:112-122 | `page_alloc` takes and returns what `page_alloc_contig(1)` would; the running count keeps its distance from the number of free pages |
| PageAllocation.PageAllocator.FindRun | hal/src/main/c/runtime/page_alloc.c:125-140 | the `run` counter ends on the last page of the lowest run of the length, and at the end of the span exactly when there is none |
| PageAllocation.PageAllocator.AllocContig | hal/src/main/c/runtime/page_alloc.c:124-141 | takes exactly the lowest run, or nothing for a non-positive length or without a run; the running count keeps its distance from the number of free pages |
| PageAllocation.PageAllocator.Free | hal/src/main/c/runtime/page_alloc.c:143-151 | frees the page containing the address, once, if the span has it; otherwise nothing changes; the count follows |
| PageAllocation.PageAllocator.ReserveRange | hal/src/main/c/runtime/page_alloc.c:92-110 | withholds the pages meeting the clamped interval and counts only those that were free |
| PageAllocation.TakeAndReturn | hal/src/main/c/runtime/page_alloc.c:124-151 | taking a run and freeing its pages in any order restores the bitmap byte for byte and the running count |
| HeapModel.ClassOfIsLeast | hal/src/main/c/runtime/allocator.c:60-67 | every size up to 2048 has a class, its blocks are large enough, and those of every smaller class are not |
| HeapModel.ClassSteps | hal/src/main/c/runtime/allocator.c:60-67 | the table: multiples of 8 up to 64, then four steps from each power of two to the next |
| HeapModel.LittleIsWasted | hal/src/main/c/runtime/allocator.c:60-67 | a class is less than 8 bytes larger than the request, or less than a quarter |
| HeapModel.SlabSizes | hal/src/main/c/runtime/allocator.c:69-71 | a block holds header and object, is a multiple of 16, wastes less than 16 bytes beyond its class and fits a page |
| HeapModel.PagesCoverExactly | hal/src/main/c/runtime/allocator.c:116-119 | the page count of a large request covers header and object exactly when size + 4111 does not wrap 64 bits, and then wastes less than a page |
| HeapModel.CastMeaning | hal/src/main/c/runtime/allocator.c:125 | the cast to int keeps the low 32 bits, between -2^31 and 2^31 |
| HeapSteps.BigFreeIsSafeExactly | hal/src/main/c/runtime/allocator.c:140-147 | freeing a live large block keeps ownership exclusive and within the memory provided if and only if the block starts on a page boundary of the span, or outside the span, or lies in the bump region directly on a large block that has been freed |
| HeapSteps.BigFreeIsNoOpExactly | hal/src/main/c/runtime/allocator.c:142-145 | freeing a live large block leaves the page allocator as it was, as the comment says of the bump region, exactly when none of the addresses passed to `page_free` lies in the span |
| HeapSteps.AllocKeeps | hal/src/main/c/runtime/allocator.c:98-133 | every allocation of a size whose arithmetic fits keeps the heap invariant; a result is a block granted to the caller |
| HeapSteps.DeallocSmallKeeps | hal/src/main/c/runtime/allocator.c:149-153 | freeing a live small block keeps the invariant: it joins the list of its class, in front, and no other list |
| HeapSteps.DeallocBigKeeps | hal/src/main/c/runtime/allocator.c:140-147 | freeing a live large block under that condition keeps the invariant |
| HeapSteps.WriteKeeps | hal/src/main/c/runtime/allocator.c:102-154 | a client's store inside a live object keeps the invariant: it reaches no header and no free-list link |
| HeapSteps.GrabKeeps | hal/src/main/c/runtime/page_alloc.c:124-141 | pages taken by other callers of the page allocator keep the heap invariant |
| HeapSteps.ReturnKeeps | hal/src/main/c/runtime/page_alloc.c:143-151 | and so does giving such a page back |
| HeapSteps.InitKeeps | kernel/src/main/partic/kr/partix/kernel/memory/PageAllocator.partic:85-92 | `page_alloc_init`, with the reservations that follow it at once, keeps the invariant while the heap holds live objects and has freed others, if no page left free meets the bump region or has a byte of the bitmap, and the bitmap lies outside that region; a second call only reserves |
| HeapSteps.InitIsSafeExactly | kernel/src/main/partic/kr/partix/kernel/memory/PageAllocator.partic:78-92 | with ranges in 16-byte steps apart from the bump region, and that region reserved, initialisation leaves every byte at most one owner, the bitmap's bytes included, if and only if the bitmap fits the pages marked for it or the page behind them is not left free |
| HeapTheorems.BitmapIsHandedOut | hal/src/main/c/runtime/page_alloc.c:66-79 | the counterexample behind that condition, at the constants of the x86_64 kernel: the host of the bitmap starts 16 bytes into a page, the bump region is reserved, and the last 16 bytes of the bitmap lie in a free page |
| HeapTheorems.BitmapIsUntouched | hal/src/main/c/runtime/allocator.c:98-154 | in an admissible step neither the heap nor a client stores into a word that shares a byte with the bitmap, wherever initialisation puts it: the bitmap may be treated as an array of its own |
| HeapSteps.WholeRangesAreGood | kernel/src/main/partic/kr/partix/kernel/memory/PageAllocator.partic:71-85 | for ranges of whole pages apart from the bump region all of this holds without any reservation |
| HeapSteps.ReservingMakesGood | kernel/src/main/partic/kr/partix/kernel/memory/PageAllocator.partic:88-92 | with the bump region reserved, and ranges that start off a page boundary, as behind the kernel image, it holds if and only if the bitmap fits or the page behind it is not left free |
| HeapSteps.ReserveCommutesWithSmallFree | kernel/src/main/partic/kr/partix/kernel/memory/PageAllocator.partic:86-92 | freeing a small array between initialisation and reservation leads to the same state as freeing it afterwards |
| HeapSteps.ReserveKeeps | kernel/src/main/partic/kr/partix/kernel/memory/PageAllocator.partic:88-92 | so does every `page_alloc_reserve`, before and after |
| HeapSteps.StepKeeps | hal/src/main/c/runtime/allocator.c:98-154 | every admissible step keeps the invariant: of the heap, of a client, of a page-level caller, of the set-up of the page allocator |
| HeapTheorems.FreshIsSafe | hal/src/main/c/runtime/allocator.c:50-58 | after `alloc_init`, over an allocator not set up yet or over any layout in which bump region, free pages and bitmap are apart, the invariant holds |
| HeapTheorems.RegionIsWhole | hal/src/main/c/runtime/allocator.c:50-58 | the bump region at the start runs from the least multiple of 16 at or above the lower bound to the upper bound, all of it uncarved |
| HeapTheorems.HistoryIsSafe | hal/src/main/c/runtime/allocator.c:80-154 | every admissible history of allocations, frees, client stores, page-level calls, initialisation and reservations keeps the invariant, in which the storage of the bitmap is an owner like any other |
| HeapTheorems.BootHistoryIsSafe | kernel/src/main/partic/kr/partix/kernel/memory/PageAllocator.partic:78-92 | in particular every admissible history that starts with no page allocator and sets it up later, over live objects, its bitmap included |
| HeapTheorems.NothingOverlaps | hal/src/main/c/runtime/allocator.c:80-154 | in every such state two different owners of memory never overlap: live blocks, free-listed blocks, uncarved bump space, the tail of the extension page, free pages, pages handed out directly, the storage of the bitmap |
| HeapTheorems.AllocGrants | hal/src/main/c/runtime/allocator.c:98-133 | a granted block is 16-byte aligned, at least as large as requested, not in use before and live afterwards |
| HeapTheorems.AllocWrites | hal/src/main/c/runtime/allocator.c:104-132 | an allocation writes the two header words of its own block and no other word |
| HeapTheorems.DeallocWrites | hal/src/main/c/runtime/allocator.c:138-153 | a free writes at most the first word of its own block and changes no other block |
| HeapTheorems.HistoryKeepsBlock | hal/src/main/c/runtime/allocator.c:98-154 | until it is freed itself a block stays in use, with its class or page count, whatever else happens |
| HeapTheorems.DeallocReadsWhatAllocStored | hal/src/main/c/runtime/allocator.c:111-141 | after any history that does not free it, the header of a block still holds the class index, or magic and page count, stored by its allocation |
| HeapTheorems.HistoryKeepsData | hal/src/main/c/runtime/allocator.c:98-154 | a word of a live object that nobody stores to keeps its value through any history that does not free the object |
| HeapTheorems.AllocFailsExactly | hal/src/main/c/runtime/allocator.c:98-128 | a request fails exactly when list, bump region, extension page and page allocator are all unable to serve it, before the page allocator is set up and after |
| HeapTheorems.SmallIsServedInOrder | hal/src/main/c/runtime/allocator.c:80-113 | where a small request is served and what is left there: the front of its list; without one, the front of the bump region; without room there, of the rest of the extension page; without room there, of the lowest free page. The rest begins exactly at the end of the block granted, and nothing else moves |
| HeapTheorems.PageServesRun | hal/src/main/c/runtime/allocator.c:86-95 | a page newly taken serves as many requests of a class as fit it, one behind the other, before another page is taken |
| HeapTheorems.LargeIsServedInOrder | hal/src/main/c/runtime/allocator.c:116-128 | a large request gets the front of the bump region, or without room there the lowest run of free pages, and nothing else moves |
| HeapTheorems.FailureCostsExactly | hal/src/main/c/runtime/allocator.c:86-128 | a small request that fails loses the rest of the extension page and changes nothing else, a large one changes nothing, if and only if the pages asked for did not start with page 0 of a span at address 0 |
| HeapTheorems.IgnoredFrees | hal/src/main/c/runtime/allocator.c:135-149 | freeing 0, or an address whose header is neither a class index nor the magic number, changes nothing |
| HeapTheorems.FreeThenAllocReuses | hal/src/main/c/runtime/allocator.c:102-113 | a small block freed is the one the next request of its class gets, and list, counters, regions and all memory but its header are back as they were |
| HeapTheorems.BigAllocThenFreeRestores | hal/src/main/c/runtime/allocator.c:118-147 | a large block got from the page allocator and freed again leaves bitmap, lists, regions and counters exactly as they were |
| HeapTheorems.LargeRequestsHonouredExactly | hal/src/main/c/runtime/allocator.c:116-132 | a large request that is granted gets enough pages, and exactly those left the bump region or the free pages, at the address returned, if and only if rounding the size and moving the bump pointer do not wrap and the page count, where it matters, survives the cast to int |
| HeapTheorems.CastGrantsOnePage | hal/src/main/c/runtime/allocator.c:118-128 | in every state of the x86_64 heap with a free page, 16 TiB are granted one page |
| HeapTheorems.WrapRewindsRegion | hal/src/main/c/runtime/allocator.c:121-123 | in every state of the riscv64 heap the same request is granted from the bump region and moves the bump pointer back, out of the region |
| HeapTheorems.RoundingGrantsNothing | hal/src/main/c/runtime/allocator.c:118-123 | a request of 2^64 - 16 bytes is granted no page at all |
| HeapTheorems.UnsafeFreeIsReachable | hal/src/main/c/runtime/allocator.c:140-147 | the counterexample behind the condition on frees, at the constants of the x86_64 kernel: a small and a large object, then the page allocator is set up, and freeing the large one hands out the page of the small one, still live |
| HeapTheorems.ListsCountFreeBlocks | hal/src/main/c/runtime/allocator.c:156-162 | the lengths of the lists of the first k classes add up to the number of free blocks of those classes: lists share no block and repeat none |
| HeapTheorems.BlocksAreConserved | hal/src/main/c/runtime/allocator.c:98-167 | small blocks in use as counted plus blocks on the lists are all the small blocks ever carved |
| KernelHeapCode.KernelHeap.constructor | hal/src/main/c/runtime/allocator.c:50-58 | sets up the state from which histories start |
| KernelHeapCode.KernelHeap.ClassIndex | hal/src/main/c/runtime/allocator.c:61-67 | the loop finds the class the specification names |
| KernelHeapCode.KernelHeap.SlabCarve | hal/src/main/c/runtime/allocator.c:80-96 | carves from bump region, extension page or a new page as the specification does, page allocator included |
| KernelHeapCode.KernelHeap.Allocate | hal/src/main/c/runtime/allocator.c:98-133 | in place, returns the pointer and reaches the whole state of the specified step, memory and bitmap included, so histories of calls are the histories of HeapTheorems |
| KernelHeapCode.KernelHeap.Deallocate | hal/src/main/c/runtime/allocator.c:135-154 | in place, reaches the whole state of the specified step: list push, page frees or, for a class index out of range, nothing; for any address, computed as wrapping words |
| KernelHeapCode.KernelHeap.InitPages | kernel/src/main/partic/kr/partix/kernel/memory/PageAllocator.partic:85 | in place, `page_alloc_init` under a heap in use reaches the specified step, also when it does nothing |
| KernelHeapCode.KernelHeap.ReservePages | kernel/src/main/partic/kr/partix/kernel/memory/PageAllocator.partic:88-92 | in place, `page_alloc_reserve` under a heap in use reaches the specified step |
| KernelHeapCode.KernelHeap.Stats | hal/src/main/c/runtime/allocator.c:156-167 | in every state of a history the walk over each list ends, and the numbers reported are the blocks in use, the blocks on the lists and the large blocks |
| KernelHeapCode.KernelHeap.ListLength | hal/src/main/c/runtime/allocator.c:159-162 | the walk along the links of a class visits each of its free blocks once and stops |
| SplitQueue.IndexSurvivesWrapExactly | drivers/src/main/c/virtio/virtio_queue.c:64-75 | the ring index of a wrapped counter is that of the true count, for all counts, exactly when the queue size divides 2^16 |
| SplitQueue.RingEntriesDiffer | drivers/src/main/c/virtio/virtio_queue.c:60-69 | within queue-size consecutive submissions no two use the same ring entry |
| InputProtocol.CountersTell | drivers/src/main/c/virtio/virtio_queue.c:73-73 | comparing the 16-bit counters tells whether anything is unread, although both wrap |
| InputProtocol.SlotsSideBySide | drivers/src/main/c/virtio/virtio_input.c:31-33 | the 64 slots of 8 bytes lie side by side in the 512 bytes of the ring, none reaches beyond |
| InputProtocol.StoreSetsByte | drivers/src/main/c/virtio/virtio_input.c:78-84 | byte k of an event is what was stored last at offset k of its slot |
| InputProtocol.FetchKeeps | drivers/src/main/c/virtio/virtio_queue.c:71-82 | taking the next used entry hands exactly that buffer to the driver |
| InputProtocol.CopyKeeps | drivers/src/main/c/virtio/virtio_input.c:81-84 | copying a byte keeps what was copied a prefix of the published event |
| InputProtocol.RefillKeeps | drivers/src/main/c/virtio/virtio_input.c:86-87 | rewriting the descriptor leaves it pointing at its own slot |
| InputProtocol.PutBackKeeps | drivers/src/main/c/virtio/virtio_queue.c:64-65 | writing the ring entry overwrites no submission the device has still to take |
| InputProtocol.BumpKeeps | drivers/src/main/c/virtio/virtio_queue.c:67-67 | moving the counter offers exactly that buffer again and completes the event polled |
| InputProtocol.TakeKeeps | drivers/src/main/c/virtio/virtio_input.c:40-44 | the device taking the next offered buffer, at any moment, keeps the invariant |
| InputProtocol.StoreKeeps | drivers/src/main/c/virtio/virtio_input.c:40-44 | device stores into buffers it holds touch no unread event and none being copied |
| InputProtocol.ReturnKeeps | drivers/src/main/c/virtio/virtio_queue.c:71-82 | the device entering a buffer in the used ring, in any order of completion and any number ahead of its counter, overwrites no entry the driver has still to read |
| InputProtocol.PublishKeeps | drivers/src/main/c/virtio/virtio_queue.c:71-82 | the device moving its counter over any number of entered buffers publishes exactly their events, in order |
| InputProtocol.InitialIsGood | drivers/src/main/c/virtio/virtio_input.c:46-68 | the state after `virtio_input_dev_init` satisfies the invariant |
| InputProtocol.RunKeeps | drivers/src/main/c/virtio/virtio_input.c:46-90 | every run of driver and device steps, interleaved in any way, keeps each descriptor in exactly one place and pointing at its own slot |
| InputProtocol.PolledIsPrefixOfPublished | drivers/src/main/c/virtio/virtio_input.c:73-90 | through any interleaving and any number of 16-bit wraps the events polled are a prefix of the events published: none lost, repeated, reordered or torn |
| InputProtocol.BetweenPolls | drivers/src/main/c/virtio/virtio_input.c:73-90 | between polls every buffer is on offer, with the device or unread; `avail.idx` equals `last_used_idx` plus the queue size modulo 2^16; a poll reports nothing exactly when all published events are polled |
| InputProtocol.PollIsARun | drivers/src/main/c/virtio/virtio_input.c:73-90 | a whole poll run without interruption is a run of the protocol's steps, so its contract and the interleaved steps describe one driver |
| VirtioDrivers.VirtQueue.constructor | drivers/src/main/c/virtio/virtio_queue.c:20-44 | all descriptors on one chain in order, both counters 0; with two or more descriptors the queue is ready for commands |
| VirtioDrivers.VirtQueue.AllocDesc | drivers/src/main/c/virtio/virtio_queue.c:46-50 | pops the head of the free chain and changes nothing else |
| VirtioDrivers.VirtQueue.FillDesc | drivers/src/main/c/virtio/virtio_queue.c:52-58 | rewrites one descriptor, its link included, and changes nothing else |
| VirtioDrivers.VirtQueue.SubmitDesc | drivers/src/main/c/virtio/virtio_queue.c:60-69 | writes the ring entry of the present counter and moves the counter on, modulo 2^16 |
| VirtioDrivers.VirtQueue.GetUsed | drivers/src/main/c/virtio/virtio_queue.c:71-82 | -1 and no change when the counters agree; otherwise the id of the oldest unread entry, which becomes the free descriptor |
| VirtioDrivers.FillEventQueue | drivers/src/main/c/virtio/virtio_input.c:46-54 | the loop offers every slot once and ends in the initial state of the protocol |
| VirtioDrivers.Poll | drivers/src/main/c/virtio/virtio_input.c:73-90 | copies the event of the oldest unread buffer and offers that buffer again; without one, nothing changes |
| GpuCommands.CommandIsOffered | drivers/src/main/c/virtio/virtio_gpu.c:52-59 | the counter of the available ring is one further, its one new entry holds a descriptor for the command buffer that leads to one, writable, for the response buffer, and every other entry and descriptor is as before |
| GpuCommands.CommandComesBack | drivers/src/main/c/virtio/virtio_gpu.c:42-79 | although filling clears the links and only the head comes back, the one the device finds in the available ring, a completed command leaves descriptor 0 leading to 1, all other descriptors and ring entries as they were |
| GpuCommands.NoDescriptorLeaks | drivers/src/main/c/virtio/virtio_gpu.c:42-79 | over any number of commands, past counter wraps, every command takes descriptors 0 and 1 and no other descriptor is touched or lost |
| VirtioDrivers.BeginCommand | drivers/src/main/c/virtio/virtio_gpu.c:52-59 | in place, fills, links and submits the two descriptors as specified |
| VirtioDrivers.SendCommand | drivers/src/main/c/virtio/virtio_gpu.c:42-79 | in place, with the answer after any number of fruitless rounds: the queue state of a completed command, descriptors 0 and 1; the ring entry of the command heads its two buffers, every other entry is as before; the device answers the head it reads there |
| Leb128.OrIsSum | hal/src/main/c/riscv64/partic_eh_dwarf.c:64-80 | or-ing a number below 2^s with a multiple of 2^s adds them |
| Leb128.OrSignIsSum | hal/src/main/c/riscv64/partic_eh_dwarf.c:78-78 | or-ing in the sign bits above the groups read adds them |
| Leb128.StandardExamples | hal/src/main/c/riscv64/partic_eh_dwarf.c:65-80 | the encodings whose decoding is proved are those of the examples in tables 7.7 and 7.8 of DWARF 5 |
| Leb128.GroupStep | hal/src/main/c/riscv64/partic_eh_dwarf.c:64-73 | or-ing in one more group keeps the word equal to the number read so far modulo 2^64, exact below ten groups |
| Leb128.UnsignedRoundTrip | hal/src/main/c/riscv64/partic_eh_dwarf.c:64-73 | any 64-bit value encoded, anywhere in a buffer, decodes to itself, and the decoder stops exactly at the end of the encoding, which has at most 10 bytes |
| Leb128.SignedRoundTrip | hal/src/main/c/riscv64/partic_eh_dwarf.c:75-80 | the same for any signed 64-bit value, negative and ten-byte ones included |
| Leb128.ReadUleb128 | hal/src/main/c/riscv64/partic_eh_dwarf.c:64-73 | the loop returns the number whose encoding starts at the cursor and leaves the cursor just past it |
| Leb128.ReadSleb128 | hal/src/main/c/riscv64/partic_eh_dwarf.c:75-80 | the same with sign extension below bit 64 |
| UnwindSpec.CatchesExactly | hal/src/main/c/riscv64/partic_eh_dwarf.c:164-171 | a positive filter without a type catches everything, with a type exactly the exceptions of that class or one derived from it; other filters catch nothing |
| UnwindSpec.FirstCatchIsFirst | hal/src/main/c/riscv64/partic_eh_dwarf.c:199-220 | the selector is the 1-based position of a clause that catches with none before it, and 0 only when none does |
| UnwindSpec.HandlerFrameIsFirst | hal/src/main/c/riscv64/partic_eh_dwarf.c:155-176 | the frame found by the search phase is the youngest that has a catching clause |
| UnwindSpec.PhasesAgree | hal/src/main/c/riscv64/partic_eh_dwarf.c:104-231 | over any stack, each frame with a type table of its own, the frame chosen by the search is entered at its landing pad with the position of its first matching clause, exactly when it has a landing pad; every younger frame is entered at its landing pad with selector 0 exactly when it has one and either no action or a filter that is no catch clause, and skipped otherwise |
| UnwindSpec.UncaughtExactly | hal/src/main/c/riscv64/partic_eh_dwarf.c:155-176 | the search runs off the stack exactly when no clause of any frame catches |
| PersonalityCode.VtableIsA | hal/src/main/c/riscv64/partic_eh_dwarf.c:104-112 | the walk along parent pointers answers whether the caught class is the object's class or an ancestor |
| PersonalityCode.ReadEncVal | hal/src/main/c/riscv64/partic_eh_dwarf.c:82-102 | the decoder returns the value of any of the formats, relative and indirect ones included, and stops at its end; unknown formats read nothing |
| PersonalityCode.ReadHeader | hal/src/main/c/riscv64/partic_eh_dwarf.c:132-141 | the cursor over the start of the tables finds the type table, the call sites and the actions |
| PersonalityCode.ClauseCatches | hal/src/main/c/riscv64/partic_eh_dwarf.c:164-171 | a filter catches exactly when its entry in the type table of this frame is null or names the exception's class or an ancestor |
| PersonalityCode.FindSite | hal/src/main/c/riscv64/partic_eh_dwarf.c:143-152 | the loop returns the first call site covering the instruction |
| PersonalityCode.AnyCatch | hal/src/main/c/riscv64/partic_eh_dwarf.c:159-175 | the search-phase walk succeeds exactly when some clause of the chain catches |
| PersonalityCode.AnyCleanup | hal/src/main/c/riscv64/partic_eh_dwarf.c:185-195 | the walk for cleanups succeeds exactly when some filter of the chain is not positive |
| PersonalityCode.SelectorOf | hal/src/main/c/riscv64/partic_eh_dwarf.c:200-222 | the second, separate walk returns the position of the first catching clause, 0 without one |
| PersonalityCode.SearchPhase | hal/src/main/c/riscv64/partic_eh_dwarf.c:155-176 | the verdict of the search phase on the frame the tables describe |
| PersonalityCode.CleanupPhase | hal/src/main/c/riscv64/partic_eh_dwarf.c:178-228 | the verdict of the cleanup phase on the frame the tables describe, told whether it is the handler |
| PersonalityCode.LooksUpTheCall | hal/src/main/c/riscv64/partic_eh_dwarf.c:125-128 | a call that ends a call site belongs to it: the byte before the return address is looked up |
| PersonalityCode.AnswersExactly | hal/src/main/c/riscv64/partic_eh_dwarf.c:154-230 | for each combination of flags: found (6) exactly when some clause catches; installed (7) exactly when the frame has a landing pad and is the handler or has something to clean up, with the exception in the first register, the position of the first catching clause or 0 in the second, the landing pad as instruction pointer and every other register as before; continue (8) otherwise, nothing changed |
| PersonalityCode.ForeignIsPassedOn | hal/src/main/c/riscv64/partic_eh_dwarf.c:118-119 | another version or exception class is passed on |
| PersonalityCode.Personality | hal/src/main/c/riscv64/partic_eh_dwarf.c:114-231 | reason code and registers are the answer spelled out in `AnswersExactly` for the frame its tables describe |
| LsdaTables.PlainFormats | hal/src/main/c/riscv64/partic_eh_dwarf.c:82-99 | width, byte order and sign of each fixed format |
| LsdaTables.Modifiers | hal/src/main/c/riscv64/partic_eh_dwarf.c:84-101 | 0x10 counts from the place of the value, 0x80 reads memory there, and both together in that order |
| LsdaTables.HeaderRoundTrip | hal/src/main/c/riscv64/partic_eh_dwarf.c:132-141 | a header written for any type-table base and call-site length, with or without a landing-pad base, is read as such |
| LsdaTables.SitesRoundTrip | hal/src/main/c/riscv64/partic_eh_dwarf.c:145-152 | a call-site table of any length is read back record by record |
| LsdaTables.FirstCoveringIsFirst | hal/src/main/c/riscv64/partic_eh_dwarf.c:145-152 | the call site found is the first whose stretch of code has the instruction |
| LsdaTables.ChainRoundTrip | hal/src/main/c/riscv64/partic_eh_dwarf.c:159-174 | an action chain of any filters, displacements counted from the start of the record, is read as that chain |
| LsdaTables.StandardChainsReadExactly | hal/src/main/c/riscv64/partic_eh_dwarf.c:161-174 | chains with displacements counted from their own field, as C++ compilers write them, are read as such exactly when they have one record |
| LsdaTables.TypeRoundTrip | hal/src/main/c/riscv64/partic_eh_dwarf.c:165-167 | filter k names the k-th four-byte entry before the end of the type table |
| LsdaTables.OtherTypes | hal/src/main/c/riscv64/partic_eh_dwarf.c:165-167 | of eight-byte values the low four bytes count; without a type table every type is 0 |
| LsdaTables.ParentsAreChained | hal/src/main/c/riscv64/partic_eh_dwarf.c:104-112 | the classes an exception is of are those reached over the first words of the vtables |
| LsdaTables.AreaRoundTrip | hal/src/main/c/riscv64/partic_eh_dwarf.c:132-222 | a whole area, with call sites, the chain of the one that covers the instruction and the types of its clauses, is read as the frame it was written for |
| LsdaTables.UncoveredRoundTrip | hal/src/main/c/riscv64/partic_eh_dwarf.c:143-152 | one without a call site for the instruction says nothing about it |
| FdtModel.CStrIs | hal/src/main/c/riscv64/fdt.c:32-35 | the bytes up to a zero byte are the C string there |
| FdtModel.AsciiIs | hal/src/main/c/riscv64/fdt.c:32-36 | the names compared with are the codes of their characters |
| FdtBytes.StringsRoundTrip | hal/src/main/c/riscv64/fdt.c:44-54 | a list of strings each closed by a zero is read as that list |
| FdtBytes.BigEndian | hal/src/main/c/riscv64/fdt.c:23-30 | 32-bit numbers have their most significant byte first |
| FdtBytes.TwoWords | hal/src/main/c/riscv64/fdt.c:23-30 | and 64-bit numbers their more significant word |
| FdtBytes.SmallBlock | hal/src/main/c/riscv64/fdt.c:110-187 | a block of one node with a no-op and a property, byte for byte, as section 5.4 of the standard lays it out |
| FdtScan.StrEq | hal/src/main/c/riscv64/fdt.c:32-36 | equal exactly when the C string at the cursor is the target |
| FdtScan.MatchCompatible | hal/src/main/c/riscv64/fdt.c:44-54 | succeeds exactly when the target is one of the strings of the list |
| FdtScan.FdtScanner.SetRegAt | hal/src/main/c/riscv64/fdt.c:56-66 | records address, and shift for a UART, only where none is recorded |
| FdtScan.FdtScanner.Property | hal/src/main/c/riscv64/fdt.c:147-175 | one property: the pending entries of its depth and the globals become what the recursive reading says, no other depth changes |
| FdtScan.FdtScanner.BeginNode | hal/src/main/c/riscv64/fdt.c:114-129 | the new depth starts afresh with inherited cells, the other depths are as before, and the cursor stands on the padding's end |
| FdtScan.FdtScanner.Scan | hal/src/main/c/riscv64/fdt.c:110-187 | for every well-formed tree, of any depth, the loop stops just past the end token at depth 0, having recorded what a recursive reading of the tree records |
| FdtReference.RegRecordedExactly | hal/src/main/c/riscv64/fdt.c:159-163 | what is recorded of a reg property, pending and for the first device of each kind, is the big-endian number in as many cells as the parent states, two without a statement, if and only if that is how many the code reads (two or one, by its table entry), or all the cells either would read are zero |
| FdtDeviations.OwnCellsMisread | hal/src/main/c/riscv64/fdt.c:147-163 | a tree on which they differ: the UART states a cell count of its own before its address |
| FdtDeviations.InheritedCellsMisread | hal/src/main/c/riscv64/fdt.c:118-120 | another: a bus that states no cell count inherits one from the root |
| FdtDeviations.WideCellsMisread | hal/src/main/c/riscv64/fdt.c:159-163 | a third: of an address in three cells the first alone is recorded |
| FdtDeviations.NarrowCellsOverread | hal/src/main/c/riscv64/fdt.c:159-163 | a valid tree outside the theorems: a one-cell address in a node that states two cells before it, which the code reads past its end |
| FdtReference.OneMoreFact | hal/src/main/c/riscv64/fdt.c:147-175 | whatever is known of a node already, one more property leads to the state that knowing it as well describes |
| FdtReference.DeepIsInert | hal/src/main/c/riscv64/fdt.c:116-140 | nodes 64 or more levels deep record nothing |
| FdtReference.WalkIsReference | hal/src/main/c/riscv64/fdt.c:110-175 | for trees with properties before children and no name twice, the scan records what looking each node up as a whole, in preorder, records: first nonzero match wins, cells come from the parent, the timebase from a cpus node; under the inheritance of the code, where each reg is read with the kind of width it has, and under section 2.3.5 of the standard, with addresses of any number of cells, where the cells read of each reg are those of its parent or hold zero |
| FdtDevices.ReferenceIsFold | hal/src/main/c/riscv64/fdt.c:110-187 | the reading by whole nodes goes over the list of nodes in preorder, each with its properties and the width of its address |
| FdtDevices.DevicesFound | hal/src/main/c/riscv64/fdt.c:56-66 | what is recorded, by the strings in the tree: the base of the UART is the address of the first node with an address that lists ns16550a or snps,dw-apb-uart, its shift that of the same node, a signed 32-bit number; of the PLIC, the first that lists riscv,plic0 and is not taken for a UART; of the PCIe host, the first that lists pci-host-ecam-generic and is taken for neither; the timebase that of the last cpus node that states one; 0 where there is none |
| FdtDevices.CpusByName | hal/src/main/c/riscv64/fdt.c:38-42 | a cpus node is one named cpus, or that followed by @ or : |
| FdtReference.BasesStay | hal/src/main/c/riscv64/fdt.c:56-66 | a base once recorded stays, in any tree |
| FdtReference.FirstUartStays | hal/src/main/c/riscv64/fdt.c:56-66 | with a UART of nonzero address recorded and its node left, walking any further nodes, of any shape, changes neither its address nor its shift |
| FdtReference.AnyOrderOfProperties | hal/src/main/c/riscv64/fdt.c:147-175 | a node with its properties in any other order leaves the same globals behind, base and shift of the UART included |
| FdtInit.Init | hal/src/main/c/riscv64/fdt.c:68-187 | a null pointer, a wrong magic or a version below 16 record nothing; otherwise the result is that of the recursive reading, and where they apply that of the whole-node readings and the devices the strings in the tree call for |
| FdtInit.HeaderIsRead | hal/src/main/c/riscv64/fdt.c:94-110 | of the ten fields of the header those that decide whether a blob is read and where its blocks are |
| BuildOrder.OrderedIsAcyclic | buildsystem/src/abstract/component.py:52-64 | nothing listed after its dependencies reaches a cycle |
| BuildOrder.StuckReachesCycle | buildsystem/src/abstract/component.py:60-62 | components that each wait for another of them all reach a cycle |
| BuildOrder.OneMoreDone | buildsystem/src/abstract/component.py:55-56 | a dependency listed several times is settled in one go: the entries left drop by its multiplicity |
| BuildOrderCode.CountDown | buildsystem/src/abstract/component.py:55-57 | each visit of a dependent lowers a positive in-degree by one and keeps it the number of entries left |
| BuildOrderCode.JoinQueue | buildsystem/src/abstract/component.py:57-58 | a component enters the queue exactly when its in-degree reaches zero, so at most once |
| BuildOrderCode.TakeFirst | buildsystem/src/abstract/component.py:52-54 | the head of the queue has all its dependencies in the order already; the order stays shorter than the registry until then, so the loop ends |
| BuildOrderCode.Finished | buildsystem/src/abstract/component.py:60-64 | when the queue is empty the components missing are exactly those that reach a cycle, and some are missing exactly when the graph has one |
| BuildOrderCode.ComponentRegistry.Register | buildsystem/src/abstract/component.py:17-21 | adds a component under a new name; a name registered before is refused and nothing changes |
| BuildOrderCode.ComponentRegistry.FindUnknown | buildsystem/src/abstract/component.py:36-41 | finds the first dependency, in registration order, that nobody registered, or reports that all are known |
| BuildOrderCode.ComponentRegistry.CountEdges | buildsystem/src/abstract/component.py:43-48 | adjacency lists hold each dependent as often as it lists the dependency, and in-degrees count the entries |
| BuildOrderCode.ComponentRegistry.FirstQueue | buildsystem/src/abstract/component.py:50-50 | the queue starts with exactly the components without dependencies |
| BuildOrderCode.ComponentRegistry.Release | buildsystem/src/abstract/component.py:55-58 | visiting the dependents of a built component keeps in-degrees and queue exact |
| BuildOrderCode.ComponentRegistry.Build | buildsystem/src/abstract/component.py:35-64 | an unknown dependency is reported first and exactly when there is one; the circular error is raised exactly when the graph has a cycle and names exactly the components that reach one; otherwise the order lists every component once, after its dependencies |
| ElfImage.LoadAddrMeaning | bootloader/src/main/c/x86_64/x86_64BL.c:131-133 | an address in the upper half and its load address differ by exactly the base, the others are loaded where they say |
| ElfImage.ImageIsExact | bootloader/src/main/c/x86_64/x86_64BL.c:155-165 | with disjoint segments byte i of every segment of type 1 is byte offset + i of the file for i below filesz, 0 for i from filesz to memsz, and every byte in no segment is as before |
| ElfImage.OrderIsIrrelevant | bootloader/src/main/c/x86_64/x86_64BL.c:155-165 | the memory image does not depend on the order of the program headers |
| ElfImage.BoundsAreTight | bootloader/src/main/c/x86_64/x86_64BL.c:139-148 | lowest and highest address bound all loadable segments, are reached by some, and are in order exactly when there is a loadable segment |
| ElfImage.RequestCoversExactly | bootloader/src/main/c/x86_64/x86_64BL.c:150-152 | the requested pages hold every segment exactly when the offset of the lowest byte in its page and the length in the last page fit one page; always when the lowest address is page aligned |
| ElfImage.RequestFallsShort | bootloader/src/main/c/x86_64/x86_64BL.c:150-152 | two bytes across a page boundary: one page is requested and the second byte lies outside |
| ElfLoader.Memcpy | bootloader/src/main/c/x86_64/x86_64BL.c:62-65 | copies between stretches that do not overlap and changes no other byte |
| ElfLoader.Memset | bootloader/src/main/c/x86_64/x86_64BL.c:67-69 | fills a stretch and changes no other byte |
| ElfLoader.LoadSegment | bootloader/src/main/c/x86_64/x86_64BL.c:155-165 | in place, one segment is written as the image says, with the file lying in the same memory |
| ElfLoader.FindRange | bootloader/src/main/c/x86_64/x86_64BL.c:139-148 | the first pass computes the two bounds |
| ElfLoader.LoadElf | bootloader/src/main/c/x86_64/x86_64BL.c:135-168 | in place, memory becomes the image of all segments in order, with those very bytes; pages are requested exactly when there is a loadable segment; the entry point is returned |
| KeyRing.FullExactly | hal/src/main/c/x86_64/ps2kbd.c:188-190 | the ring counts as full exactly when 63 events are pending, as empty exactly when none is |
| KeyRing.IrqKeeps | hal/src/main/c/x86_64/ps2kbd.c:188-220 | an interrupt, anywhere in a poll, accepts its event exactly when fewer than 63 are pending and disturbs nothing the poll has read or will read |
| KeyRing.StatementKeeps | hal/src/main/c/x86_64/ps2kbd.c:273-288 | each statement of a poll keeps what it holds a part of the oldest event |
| KeyRing.RunKeeps | hal/src/main/c/x86_64/ps2kbd.c:188-290 | every run of interrupts and statements keeps the ring equal to the accepted events not yet taken, in order |
| KeyRing.PolledIsPrefixOfAccepted | hal/src/main/c/x86_64/ps2kbd.c:188-290 | with any number of interrupts between any two statements of any polls, the events polled are a prefix of the events accepted |
| KeyRing.AcceptedAreTheRest | hal/src/main/c/x86_64/ps2kbd.c:188-220 | of the events typed the ring accepts exactly those that do not arrive with 63 pending, in order |
| KeyRing.NothingLostAllAccepted | hal/src/main/c/x86_64/ps2kbd.c:188-220 | in a run where none arrives with 63 pending it accepts exactly the decoded scancodes |
| KeyRing.ExtendedExactly | hal/src/main/c/x86_64/ps2kbd.c:202-215 | a scancode is read as extended exactly when the last byte before it other than 0xE1 is 0xE0 |
| KeyRing.DownAndUp | hal/src/main/c/x86_64/ps2kbd.c:198-220 | a scancode below 0x80 is its key going down, value 1, the same with the top bit set the same key going up, value 0; the key is the entry of the plain map or the first entry of the extended one, and code 0 or a prefix byte is no event |
| KeyRing.BytesDetermineEvent | hal/src/main/c/x86_64/ps2kbd.c:280-288 | the eight bytes returned determine the event |
| KeyRing.BytesAreInOrder | hal/src/main/c/x86_64/ps2kbd.c:280-288 | the eight bytes are type, code and value, each with its least significant byte first |
| KeyboardDriver.Ps2Kbd.PushEvent | hal/src/main/c/x86_64/ps2kbd.c:188-195 | in place, the slot at the head is written and the head moves, or nothing changes when full |
| KeyboardDriver.Ps2Kbd.Irq | hal/src/main/c/x86_64/ps2kbd.c:198-220 | in place, prefix flag and ring become those of the specification for any scancode |
| KeyboardDriver.Ps2Kbd.Poll | hal/src/main/c/x86_64/ps2kbd.c:273-290 | in place and with bursts of interrupts after its statements: returns the oldest event accepted before the call and not yet polled, or nothing exactly when there is none, and reaches the state of the interleaved run |

## Left out

- PageAllocation.PageAllocator.Init: the bitmap is an array of its own, so what becomes of it when a caller writes to a page that holds part of it is not modelled; which bytes it takes, and that no history under `GoodSetUp` writes to them, is proved on values (`BitmapFitsExactly`, `BitmapIsUntouched`).
- Lazy initialisation of the heap (`inited`, allocator.c:50-51) is the constructor.
- On a page grid shifted against the bump region, initialisation and reservation of that region are one step; a large array freed by the caller between the two is not covered there.
- How PageAllocator.partic builds the ranges it hands over (lines 45-84 and 109-137): they are parameters.
- Page tables and other users of pages appear only as direct calls of `page_alloc_contig` and `page_free`.
- Double frees and corrupt page counts: excluded from histories, as the code offers no defence; the code's step is modelled for any address.
- `len` of used-ring entries, memory fences, notification and MMIO registers: steps are sequentially consistent.
- GPU commands that time out (virtio_gpu.c:72-75), the device's reading of the command chain, and the contents of commands.
- VirtioDrivers.Poll: the whole-call contract is for a poll with no device step inside; the interleaved steps are the lemmas of InputProtocol, and PollIsARun connects the two.
- Single loads behind raw pointers are reads of a byte sequence or a word map; the stack is a list of frames; libunwind is not part of this model.
- The `#size-cells` table (`pending_sc`), which fdt.c writes and never reads.
- Property values shorter than the reads made of them, unterminated strings and malformed blocks: excluded by `Good`, and with them the valid tree of `NarrowCellsOverread`.
- Parsing of ELF headers, and the firmware calls around `load_elf`, whose page request is an output.
- The loader of riscv64, which leaves bss to the kernel.
- The scancode tables, which are parameters, the 8042 initialisation sequence, and port I/O: an interrupt brings a byte or none.
- `ComponentRegistry.get` and `list_all`, configuration, subprocesses and prompts of the build system.
- backtrace.c, gdt.c, idt.c, thread.c, the string helpers, PCI and the graphics commands: fixed-size tables, short loops and hardware effects.
- Vendored headers: declarations only.
