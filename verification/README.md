# ShovelOS: verified models of the memory, page-table, time, scheduling and mutex code

This Dafny project models the parts of the ShovelOS kernel whose fast, redundant state has to agree with a much
simpler idea, and proves that it does.

- **Page allocation, built allocator** (`src/kernel/lib/alloc/buddy_alloc.c`, `src/kernel/memory/page2.c`). Two
  bitmap pyramids over a binary tree of page groups stand for a set of disjoint live blocks. `buddy_tree`,
  `buddy_paths`, `buddy_geometry`, `buddy_layout` and `buddy_heap` define the value of an allocator, `buddy_theorems`,
  `buddy_runs`, `buddy_search` and `buddy_limits` prove what single calls and whole runs do, `buddy_clients` says what
  that means for the clients' bytes, and `buddy_alloc` is the code itself: loops over words of memory, each proved
  equal to the operation on values.
- **Page allocation, older allocator** (`src/kernel/memory/page.c`). Thirteen bitmaps must show, group by group,
  whether any page of the group is used. `page_bitmaps`, `page_runs` and `page_clients` work on values, `page_frames` is
  the code.
- **Slab allocation** (`src/kernel/memory/mem_cache.c`, `kmalloc.c`). Three linked lists, bitmaps and counters stand
  for a set of live chunks. `slab_bitmaps`, `slabs` and `slab_caches` work on values and multisets of slabs;
  `mem_cache` is the surgery on linked slabs through `slab **` cursors, `kmalloc` the seven size classes over it.
- **Page tables** (`src/kernel/arch/arm_a/mm/VMSAv7/`). `page_tables` and `init_page_tables` relate the descriptors in
  memory to the short-descriptor walk of section B3.5 of the ARM Architecture Reference Manual, ARMv7-A and ARMv7-R
  edition.
- **Time** (`src/kernel/timer/system_time.c`), **scheduling** (`src/kernel/sched/`) and the **mutex**
  (`src/kernel/arch/arm_a/concurrency/mutex.S`) are `system_time`, `sched` and `mutex`; the mutex is a state machine
  whose steps are single instructions, interrupts and losses of the exclusive monitor.

Each code file that changes things in place is a class whose methods are proved against functions on values; the
theorems are about those functions, so they hold for the methods. `machine`, `memory_flags`, `page_sets`, `words`,
`shifts`, `division` and `bit_tables` hold the constants and the set, word, shift, quotient and bitmap facts they
share. Words are 32 bits wide. `dafny verify dfyconfig.toml` checks everything.

## Where the code stops short

The models keep these behaviours as they are in the code and prove when they occur.

- The built allocator marks the partly populated block at the end of a heap as dirty, but a free may clear the mark.
  All live blocks stay inside the heap over every run exactly when the page count is a power of two
  (`BuddyLimits.ContainmentIffPow2`). Live blocks never overlap on any heap whose tables have room.
- Its search never backtracks. That costs nothing for single pages (`BuddySearch.SinglePageLowest`); for larger orders
  it can refuse although a block is free (`BuddyLimits.SearchIncomplete`). `BuddySearch.RequestExact` says for every
  heap, marked at its end or not, exactly when a request succeeds and what it gets.
- Tables are sized by the floor count while indices run to the ceiling. Both allocators need that no order leaves a
  remainder on a floor count that is a multiple of the word size (`BuddyGeometry.RoomExact`,
  `PageBitmaps.RoomBelowExact`); power-of-two heaps always qualify, 65 pages do not (`BuddyGeometry.SixtyFivePages`).
  Otherwise two blocks of the built allocator share one bit of memory (`BuddyLayout.RoomMeansOwnBits`), so `Room` or
  `RoomBelow` is a precondition of the set-up.
- When the counter wraps between two calls the clock stays one tick behind until it is next rebased
  (`SystemTime.GetTells` says exactly when, `SystemTime.BehindAfterWrap` shows it happen).
- `_get_memtype` returns before its branch for RAM, so every mapping that is not device memory is strongly ordered; the
  model follows the code. `vm_unmap` never adds a table, because it asks for memory with no flags
  (`PageTables.AddressSpace.VmUnmap`), and leaves pages present without access rights rather than faulting in the walk.
- Mutual exclusion rests on `clrex` at exception entry: without it `Mutex.ClrexNeeded` reaches a state with two holders.

## Model

| member | source | states |
|---|---|---|
| `BuddyRuns.EveryRun` | src/kernel/memory/page2.c:39-123 | After any run of allocations and matching frees from a fresh power-of-two heap: a node is dirty exactly when a live block lies in its subtree, a node not strictly inside a live block is saturated exactly when all its pages are covered, nodes strictly inside a live block are clear in both pyramids; live blocks are pairwise disjoint and inside the heap; the page counter is the sum of their sizes and at most the tracked pages |
| `BuddyRuns.EveryRunDisjoint` | src/kernel/memory/page2.c:39-123 | On a heap of any size whose tables have room, no two live blocks ever share a page, over every run |
| `BuddyClients.ClientsApart` | src/kernel/memory/page2.c:39-141 | As clients see it, over addresses: after any run of get_free_pages and free_pages calls, each free giving back only an address that was returned, no two clients' bytes overlap, for any page count whose tables have room; every address is a whole number of pages above the heap base, and on a power-of-two heap all bytes of every client end inside the heap |
| `BuddyClients.GetGiveRestores` | src/kernel/memory/page2.c:70-131 | Giving back the address that get_free_pages returned frees exactly that block: from any state without a mark both pyramids and the counter are restored bit for bit |
| `BuddyClients.GetAtExact` | src/kernel/memory/page2.c:70-84 | With a base above 0, null is returned exactly when no page was taken; any other address is the base plus 4096 times the page number, and leads back to that number |
| `BuddyRuns.RunKeeps` | src/kernel/memory/page2.c:39-123 | The invariant tying both pyramids and the counter to the set of live blocks survives every legal run, for every heap size; the mark on a partly populated block can only disappear |
| `BuddyRuns.StepKeeps` | src/kernel/memory/page2.c:39-123 | One allocation or one matching free keeps that invariant |
| `BuddyRuns.FreshMeans` | src/kernel/lib/alloc/buddy_alloc.c:113-137 | The heap that the set-up leaves satisfies the invariant with no live block and a mark on the partly populated block of each order |
| `BuddyRuns.AllocateFreeRestores` | src/kernel/memory/page2.c:39-123 | From any state of a heap without a tail mark, allocating and then freeing the returned page restores both pyramids and the counter bit for bit |
| `BuddyRuns.MeansExact` | src/kernel/lib/alloc/buddy_alloc.c:157-223 | In every state that means a set of disjoint live blocks the bits of both pyramids are exact against the pages and the tree |
| `BuddyRuns.TotalExact` | src/kernel/memory/page2.c:58-66 | The counter, kept modulo the word size, equals the sum of 2^order over live blocks and never exceeds the tracked pages |
| `BuddyRuns.PagesFit` | src/kernel/memory/page2.c:58-66 | Disjoint blocks inside a heap hold no more pages than the heap has |
| `BuddyTheorems.AllocationSound` | src/kernel/memory/page2.c:39-68 | Any heap size: allocation fails and changes nothing, or returns the start of a block of the least sufficient order none of whose pages was taken, and the state then means the larger set |
| `BuddyTheorems.FreeSound` | src/kernel/memory/page2.c:108-123 | Any heap size: freeing a live block by its start page alone recovers its order, removes exactly that block from both pyramids and from the counter, and of the tail's mark clears exactly what lies on the freed path up to the first dirty twin |
| `BuddyTheorems.LiveOrder` | src/kernel/memory/page2.c:92-106 | A live block starts inside the heap and its start page yields exactly the order it was allocated with |
| `BuddyTheorems.OrderRecovered` | src/kernel/memory/page2.c:92-106 | The scan of the dirty pyramid from any order above stops at the block's own order |
| `BuddyTheorems.FindSound` | src/kernel/lib/alloc/buddy_alloc.c:225-269 | The search, started from the top order, returns only blocks that meet no live block |
| `BuddySearch.SinglePageLowest` | src/kernel/memory/page2.c:39-68 | One page, any heap whose tables have room, any mix of larger live blocks: the lowest-numbered free page is returned, and failure means every page is taken |
| `BuddySearch.AllocationExact` | src/kernel/lib/alloc/buddy_alloc.c:225-269 | Any heap size, any order, any mark left on the end: although it never backtracks the search succeeds exactly when the group of two that holds the lowest free page (at the top order: the whole heap) contains a free block of that order which, if the dirty bit of the partly populated block is set, does not run past the end; it returns the lower one |
| `BuddySearch.RequestExact` | src/kernel/memory/page2.c:39-68 | The same for a whole request, read against pages: failure exactly when no block that the search examines has all its pages free and, on a heap marked at its end, lies inside it; otherwise the lowest such block is taken. It covers requests above the top order and full heaps |
| `BuddySearch.EveryRequest` | src/kernel/memory/page2.c:39-123 | So it is after every run of allocations and matching frees, for every page count whose tables have room |
| `BuddySearch.MarkedTells` | src/kernel/lib/alloc/buddy_alloc.c:122-129 | For a free block that runs past the end, one dirty bit tells whether the mark of the set-up is still there |
| `BuddySearch.UnmarkedAllocation` | src/kernel/lib/alloc/buddy_alloc.c:225-269 | Corollary for heaps without a mark, which power-of-two heaps always are: the free pages of the group alone decide |
| `BuddySearch.BlockFreePages` | src/kernel/lib/alloc/buddy_alloc.c:225-269 | No live block at, below or above a node: exactly when none of its pages is taken |
| `BuddySearch.FindExact` | src/kernel/lib/alloc/buddy_alloc.c:225-269 | The whole recursive search equals a scan of one group of bits at the target order, the group that holds the lowest free page |
| `BuddyHeap.SearchDescends` | src/kernel/lib/alloc/buddy_alloc.c:234-262 | The recursion walks down exactly the nodes of the lowest free page |
| `BuddyHeap.SearchSound` | src/kernel/lib/alloc/buddy_alloc.c:225-269 | Whatever node the search returns has no live block in its subtree, is not saturated and lies inside no live block |
| `BuddyHeap.PagesOrderLeast` | src/kernel/memory/page2.c:21-26 | The order used is the least one whose block holds the request |
| `BuddyLimits.SearchIncomplete` | src/kernel/lib/alloc/buddy_alloc.c:255-260 | A reachable state of an eight-page heap in which a free pair exists and a request for two pages is refused: completeness fails for larger orders |
| `BuddyLimits.ContainmentFails` | src/kernel/lib/alloc/buddy_alloc.c:167-187 | Every heap whose page count is no power of two (and whose tables have room) has a run that hands out pages beyond its end, because a free clears the tail's mark |
| `BuddyLimits.ContainmentIffPow2` | src/kernel/lib/alloc/buddy_alloc.c:122-129 | All live blocks stay inside the heap over every run exactly when the page count is a power of two |
| `BuddyPaths.SetPathShows` | src/kernel/lib/alloc/buddy_alloc.c:157-165 | Setting the root path makes the dirty pyramid show the set with the block added |
| `BuddyPaths.ClearShows` | src/kernel/lib/alloc/buddy_alloc.c:167-187 | Clearing upwards until a dirty twin makes the dirty pyramid show exactly the set without the blocks on that path |
| `BuddyPaths.SetWhileTwinShows` | src/kernel/lib/alloc/buddy_alloc.c:189-211 | Setting upwards while the twin is saturated makes the saturated pyramid show the set with the block added |
| `BuddyPaths.ClearPathShows` | src/kernel/lib/alloc/buddy_alloc.c:213-223 | Clearing the root path makes the saturated pyramid show the set with the block removed |
| `BuddyPaths.ShowsUnique` | src/kernel/lib/alloc/buddy_alloc.c:157-223 | Pyramids of one shape that show the same set are equal bit for bit |
| `BuddyTree.CoveredSaturated` | src/kernel/lib/alloc/buddy_alloc.c:189-211 | A node outside live blocks all of whose pages are covered is saturated |
| `BuddyTree.SaturatedCovered` | src/kernel/lib/alloc/buddy_alloc.c:189-211 | A saturated node has every page covered |
| `BuddyTree.InsideClear` | src/kernel/lib/alloc/buddy_alloc.c:157-211 | A node strictly inside a live block is clear in both pyramids |
| `BuddyGeometry.OrderBitsLast` | src/kernel/lib/alloc/buddy_alloc.c:30-37 | The ceiling bit count of an order is one more than the index of the block holding the last page |
| `BuddyGeometry.CountedContained` | src/kernel/lib/alloc/buddy_alloc.c:122-129 | Of the blocks an order counts, exactly the one marked by the set-up reaches beyond the heap |
| `BuddyGeometry.PartialIsRemainder` | src/kernel/lib/alloc/buddy_alloc.c:32-34 | The recursive test for a partly populated block is the remainder test of the code |
| `BuddyGeometry.TailIffNotPow2` | src/kernel/lib/alloc/buddy_alloc.c:122-129 | A heap has a partly populated block exactly when its page count is no power of two |
| `BuddyGeometry.RoomShort` | src/kernel/lib/alloc/buddy_alloc.c:25-37 | A table sized by the floor count lacks room for the ceiling count exactly when a remainder is left and the floor count is a multiple of the word size |
| `BuddyGeometry.RoomExact` | src/kernel/lib/alloc/buddy_alloc.c:25-37 | All tables have room exactly when no order leaves a remainder on a floor count that is a multiple of the word size |
| `BuddyGeometry.SixtyFivePages` | src/kernel/lib/alloc/buddy_alloc.c:25-37 | 65 pages lack room: order 1 counts 33 blocks in a table of 32 bits |
| `BuddyLayout.RoomMeansOwnBits` | src/kernel/lib/alloc/buddy_alloc.c:115-130 | Different blocks have different dirty bits in memory exactly when all tables have room; the last block of a short order shares its bit with the first block of the next order |
| `BuddyGeometry.Pow2HasRoom` | src/kernel/lib/alloc/buddy_alloc.c:25-37 | Power-of-two heaps always have room |
| `BuddyGeometry.WordsForIsRoundUp` | src/kernel/lib/alloc/buddy_alloc.c:16-28 | The recursive word count is the code's round-up division |
| `BuddyLayout.SecondPassFits` | src/kernel/lib/alloc/buddy_alloc.c:88-104 | Table sizes are monotone in the heap length, so the second pass needs no more bytes than the first one sized |
| `BuddyLayout.LayoutFits` | src/kernel/lib/alloc/buddy_alloc.c:74-143 | Both pyramids of the second pass fit in the memory that the first pass requested |
| `BuddyLayout.TablesLaid` | src/kernel/lib/alloc/buddy_alloc.c:115-137 | The tables of both pyramids are consecutive and disjoint inside that memory |
| `BuddyLayout.TrackedPagesFit` | src/kernel/lib/alloc/buddy_alloc.c:99-143 | For a page-aligned base and a page-multiple length the tracked pages, from the aligned end of the tables on, end inside the heap |
| `BuddyLayout.TrackedPagesExact` | src/kernel/lib/alloc/buddy_alloc.c:99-110 | Every whole page that the tables of the first pass leave is tracked |
| `BuddyLayout.TablesEnd` | src/kernel/lib/alloc/buddy_alloc.c:88-137 | The bytes sized for a heap are those up to the end of its last table, and no table ends later |
| `BuddyAlloc.Buddies.BuddyOrderBits` | src/kernel/lib/alloc/buddy_alloc.c:30-37 | Computes the ceiling bit count |
| `BuddyAlloc.Buddies.BuddySetDirty` | src/kernel/lib/alloc/buddy_alloc.c:157-165 | The in-place loop over memory words changes both pyramids exactly as the path update on values does |
| `BuddyAlloc.Buddies.BuddyClearDirty` | src/kernel/lib/alloc/buddy_alloc.c:167-187 | Likewise, with the early exit at a dirty twin |
| `BuddyAlloc.Buddies.BuddySetSaturated` | src/kernel/lib/alloc/buddy_alloc.c:189-211 | Likewise, with the early exit at an unsaturated twin |
| `BuddyAlloc.Buddies.BuddyClearSaturated` | src/kernel/lib/alloc/buddy_alloc.c:213-223 | Likewise, for the whole path |
| `BuddyAlloc.Buddies.BuddySearchUnsaturated` | src/kernel/lib/alloc/buddy_alloc.c:225-269 | The recursive search over memory words returns what the search on values returns |
| `BuddyAlloc.TwinMaskBits` | src/kernel/lib/alloc/buddy_alloc.c:152-155 | The twin mask tests a bit and its twin, in both uses |
| `BuddyAlloc.Buddies.PagesOrderOf` | src/kernel/memory/page2.c:21-26 | The loop computes the order on values, which is the least sufficient one |
| `BuddyAlloc.Buddies.SearchFromTop` | src/kernel/memory/page2.c:44-56 | The search starts at the top order with all its bits |
| `BuddyAlloc.Buddies.GetFreePageNumber` | src/kernel/memory/page2.c:39-68 | The new bitmaps, counter and returned page are those of the allocation on values |
| `BuddyAlloc.Buddies.GetFreePagesAt` | src/kernel/memory/page2.c:70-90 | The heap base plus 4096 times the page taken, or null with nothing changed |
| `BuddyAlloc.Buddies.DetermineAllocatedPageOrder` | src/kernel/memory/page2.c:92-106 | The descending loop finds the order that the order recovery on values finds |
| `BuddyAlloc.Buddies.FreePageNumber` | src/kernel/memory/page2.c:108-123 | The new bitmaps and counter are those of the free on values |
| `BuddyAlloc.Buddies.FreePagesAt` | src/kernel/memory/page2.c:125-141 | The address alone decides what is freed; null changes nothing |
| `BuddyAlloc.Buddies.ConfigureGeometry` | src/kernel/lib/alloc/buddy_alloc.c:48-67 | Page count and order count of both pyramids; a heap without a whole page leaves the order count |
| `BuddyAlloc.Buddies.DataSize` | src/kernel/lib/alloc/buddy_alloc.c:39-46 | Bytes of the pointers and tables of one pyramid |
| `BuddyAlloc.Buddies.LayTables` | src/kernel/lib/alloc/buddy_alloc.c:117-131 | Tables are consecutive after the pointers and hold only the marks of partly populated blocks; earlier words are untouched |
| `BuddyAlloc.Buddies.LayBothPyramids` | src/kernel/lib/alloc/buddy_alloc.c:115-137 | Zeroed memory becomes exactly the fresh heap |
| `BuddyAlloc.Buddies.BuddyAllocData` | src/kernel/lib/alloc/buddy_alloc.c:88-150 | After the set-up the state is the fresh heap of the tracked pages; the heap base is the first page address at or above the end of all tables, is not null, and all tracked pages lie inside the heap; the result is 0 exactly when both passes agree on the size |
| `PageRuns.EveryRun` | src/kernel/memory/page.c:97-264 | After any run of allocations and matching frees, for any page counts: the bit of a group is set at every order in use exactly when some page of the group is used; live ranges are aligned, disjoint, inside the heap and clear of the allocator's own pages |
| `PageRuns.EveryRunTotal` | src/kernel/memory/page.c:270-311 | Over every run the counter of allocated pages, kept modulo the word size, is the number of pages in live ranges, and together with the allocator's own pages they never exceed the heap |
| `PageClients.ClientsApart` | src/kernel/memory/page.c:270-385 | As clients see it, over addresses: after the set-up and any run of calls no two clients' bytes overlap, and every client's bytes lie above the allocator's own order table and bitmaps, a whole number of pages above the base, and end inside the heap |
| `PageClients.OwnBytesReserved` | src/kernel/memory/page.c:344-380 | The pages marked used by the set-up are exactly as many as the allocator's own words fill, the last one perhaps in part |
| `PageRuns.SetUpInvariant` | src/kernel/memory/page.c:326-385 | The bitmaps after the set-up are exact for the allocator's own pages |
| `PageRuns.AllocKeeps` | src/kernel/memory/page.c:223-264 | One allocation keeps the invariant |
| `PageRuns.FreeKeeps` | src/kernel/memory/page.c:150-185 | One matching free keeps the invariant |
| `PageBitmaps.BuddyAllocateExact` | src/kernel/memory/page.c:223-264 | The allocation returns the lowest wholly free aligned group of the least sufficient order inside the heap, marks exactly the pages asked for, and fails exactly when no such group exists |
| `PageBitmaps.BuddyFreeExact` | src/kernel/memory/page.c:150-185 | Freeing an aligned range, of any length, leaves every bit of every order exact |
| `PageBitmaps.JoinExact` | src/kernel/memory/page.c:121-147 | The bottom-up join sweep makes every order exact again for a window that contains the freed pages |
| `PageBitmaps.SetUsedExact` | src/kernel/memory/page.c:97-118 | Marking a range whose halving follows the touched groups keeps every bit of every order exact |
| `PageBitmaps.SweepCovers` | src/kernel/memory/page.c:176-184 | The window swept contains every freed page |
| `PageBitmaps.RoomBelowExact` | src/kernel/memory/page.c:358-363 | The bitmaps have room for their partial groups exactly when no order in use leaves a remainder on a floor count that is a multiple of the word size |
| `PageBitmaps.BuddyOrderLeast` | src/kernel/memory/page.c:88-94 | The order is the least sufficient one, or there is none below 13 |
| `PageBitmaps.LargestRequest` | src/kernel/memory/page.c:63-94 | A request is refused outright exactly when it is for more than 4096 pages |
| `PageFrames.FastForwardSkips` | src/kernel/memory/page.c:191-201 | Every bit before the place where the fine search starts is set |
| `PageFrames.Buddy.BuddySetUsed` | src/kernel/memory/page.c:97-118 | The in-place loops change the bitmaps exactly as on values, for every range inside the heap |
| `PageFrames.Buddy.JoinOrder` | src/kernel/memory/page.c:138-142 | One sweep clears exactly the upper bits whose two lower bits are clear |
| `PageFrames.Buddy.BuddyJoinFree` | src/kernel/memory/page.c:121-147 | All sweeps, as on values |
| `PageFrames.Buddy.BuddyFreeRange` | src/kernel/memory/page.c:150-185 | The in-place free, as on values, with the unsigned window arithmetic |
| `PageFrames.Buddy.ScanOrder` | src/kernel/memory/page.c:234-260 | Word skipping, the fast-forward start and the limit on the last word together find the first clear bit below the order's bit count |
| `PageFrames.Buddy.BuddyAlloc` | src/kernel/memory/page.c:223-264 | New bitmaps and result are those of the allocation on values |
| `PageFrames.Buddy.BuddyOrderOf` | src/kernel/memory/page.c:88-94 | The loop returns the least sufficient order or -1 |
| `PageFrames.Buddy.SetUpBuddy` | src/kernel/memory/page.c:344-380 | The bitmaps follow the order table of 26 words and show exactly the allocator's own pages as used, which are just enough to hold all of its words |
| `PageClients.ReservedFits` | src/kernel/memory/page.c:372-380 | The allocator's own pages always fit in the heap |
| `PageFrames.PageFrameAllocator.constructor` | src/kernel/memory/page.c:326-385 | The whole set-up: the bitmaps show exactly the pages of the allocator's own words as used |
| `PageFrames.PageFrameAllocator.GetFreePages` | src/kernel/memory/page.c:270-289 | Only kernel requests are served; the address is the heap base plus 4096 times the block taken, and the counter follows |
| `PageFrames.PageFrameAllocator.FreePages` | src/kernel/memory/page.c:300-311 | The range at the address is freed and counted off, modulo the word size; null changes nothing |
| `SlabCaches.EveryRun` | src/kernel/memory/mem_cache.c:305-539 | Over every run of allocations and frees, with any answers of the page allocator, the cache stays sound and stands for exactly the chunks allocated and not freed |
| `SlabCaches.AllocExact` | src/kernel/memory/mem_cache.c:305-373 | Allocation returns an aligned chunk of an owned slab that was not live and makes exactly it live; null exactly when no partial slab exists and the page allocator refused, and then nothing live changes; soundness and page ownership follow |
| `SlabCaches.FreeExact` | src/kernel/memory/mem_cache.c:446-539 | Null is accepted; a live chunk, and only a live chunk, is freed and nothing else dies; unaligned, foreign and already free addresses are rejected with the cache unchanged |
| `SlabCaches.StepRefines` | src/kernel/memory/mem_cache.c:305-539 | One call keeps soundness and the refinement of the set of live chunks |
| `SlabCaches.NewCache` | src/kernel/memory/mem_cache.c:207-238 | A new cache is sound and has no live chunk |
| `SlabCaches.DroppedFrees` | src/kernel/memory/mem_cache.c:494-536 | Relinking the slab keeps the three lists characterised by their counters and frees exactly the chunk; the slab's pages are released exactly when the chunk was its last one and the cache is not atomic, and no other pages are |
| `SlabCaches.TakeFirstExact` | src/kernel/memory/mem_cache.c:347-372 | Taking the lowest unused chunk of the first partial slab makes exactly that chunk live and moves the slab exactly when it becomes full |
| `SlabCaches.StockedExact` | src/kernel/memory/mem_cache.c:313-316 | A page of blank slabs changes nothing that clients see |
| `SlabCaches.PluckedExact` | src/kernel/memory/mem_cache.c:320-345 | Moving the first free slab, with fresh pages if it has none, changes no live chunk and adds exactly those pages |
| `Slabs.ReplaceSound` | src/kernel/memory/mem_cache.c:494-536 | Replacing one slab keeps every slab's counter equal to its bits and all page runs disjoint |
| `Slabs.ReplaceLive` | src/kernel/memory/mem_cache.c:494-536 | Replacing one slab changes the live chunks by that slab's alone |
| `Slabs.ChunkOf` | src/kernel/memory/mem_cache.c:419-425 | An aligned address inside a slab is the address of exactly the chunk that the division yields |
| `Slabs.AddressExact` | src/kernel/memory/mem_cache.c:298-301 | Chunk addresses are aligned, lie inside the slab's pages and determine their chunk |
| `Slabs.ChunksFill` | src/kernel/memory/mem_cache.c:95-96 | The chunks of a slab fill its pages exactly |
| `Slabs.SlabsFillPage` | src/kernel/memory/mem_cache.c:92-114 | The slabs carved from a page fit in it and one more would not; the bitmap has a bit for every chunk |
| `SlabBitmaps.UsedCount` | src/kernel/memory/mem_cache.c:355-365 | The number of set bits is 0, or the number of chunks, exactly when no chunk, or every chunk, is in use |
| `SlabBitmaps.FindZeroBitInWord` | src/kernel/memory/mem_cache.c:240-247 | The lowest clear bit below the limit, or -1 when there is none |
| `SlabBitmaps.FindUnallocatedIn` | src/kernel/memory/mem_cache.c:269-290 | Word by word and with the odd bits of the last word it finds the lowest unused chunk, or none exactly when all are used |
| `MemCaches.SlabList.Unlink` | src/kernel/memory/mem_cache.c:499-500 | *cursor = slab->next removes exactly the i-th slab from an acyclic list and changes no slab's contents |
| `MemCaches.SlabList.Push` | src/kernel/memory/mem_cache.c:507-511 | The slab becomes the head of the list |
| `MemCaches.MoreSlabs` | src/kernel/memory/mem_cache.c:127-170 | For one page of slabs: null, or 146 blank slabs linked into an acyclic list; nothing but the page allocator is touched |
| `MemCaches.MemCache.FindUnallocated` | src/kernel/memory/mem_cache.c:249-296 | The cursor points to the first partial slab with an unused chunk, word and bit to its lowest one |
| `MemCaches.MemCache.FindAllocated` | src/kernel/memory/mem_cache.c:398-442 | All four answers: corrupt exactly for unaligned addresses, not found exactly when no slab of the list contains the address, found or double free by the chunk's bit; the cursor points to the slab |
| `MemCaches.MemCache.constructor` | src/kernel/memory/mem_cache.c:207-238 | Three empty lists, a sound cache |
| `MemCaches.MemCache.Restock` | src/kernel/memory/mem_cache.c:313-316 | More slabs exactly when there are neither free nor partial ones |
| `MemCaches.MemCache.Pluck` | src/kernel/memory/mem_cache.c:318-345 | The first free slab becomes partial, and gets pages if it has none; no change when the page allocator refuses |
| `MemCaches.MemCache.TakeChunk` | src/kernel/memory/mem_cache.c:347-372 | Bit, counter, list move and address as on values |
| `MemCaches.MemCache.Alloc` | src/kernel/memory/mem_cache.c:305-373 | On the linked lists: the cache's value and the result are those of the allocation on values; returned chunks are aligned and were not live, exactly they become live, new pages belonged to nobody; null exactly when the page allocator had no pages, which never happens while a slab is partial |
| `MemCaches.MemCache.RelinkSlab` | src/kernel/memory/mem_cache.c:499-535 | The slab moves to the head of the partial or free list as on values; an empty non-atomic slab's pages go back |
| `MemCaches.MemCache.Free` | src/kernel/memory/mem_cache.c:446-539 | On the linked lists: 0 exactly for null and live chunks, exactly that chunk dies, rejected calls change neither cache nor pages, only pages of the cache's own slabs are given back |
| `Kmalloc.Pools.Kmalloc` | src/kernel/memory/kmalloc.c:47-75 | A kernel request of up to 2048 bytes touches one pool and no other: no pool whose chunks are large enough has smaller ones, and above 32 bytes the chunk is less than twice the request; the chunk is aligned to its size, was not live and alone becomes live; it is null exactly when the pool is missing with no room to create it or the page allocator had no pages, and never while the pool has a partial slab; every other request returns null and changes nothing |
| `Kmalloc.PoolSizes` | src/kernel/memory/kmalloc.c:22-31 | The seven pools have chunks of 32, 64, and so on up to 2048 bytes, one page to a slab, and give pages back |
| `Kmalloc.TightestPool` | src/kernel/memory/kmalloc.c:51-53 | A request fits some pool exactly up to 2048 bytes, and the first pool that fits is the tightest one |
| `MemoryFlags.KernelFlag` | src/kernel/memory/memory.h:18-20 | GFP_KERNEL is the second bit, and the other flags do not matter |
| `Kmalloc.Pools.Kfree` | src/kernel/memory/kmalloc.c:77-89 | Null is accepted; a chunk live in some pool is released in that pool alone, all pools tried before it having rejected it; anything else is rejected with all pools unchanged |
| `Kmalloc.Pools.ChunksDisjoint` | src/kernel/memory/kmalloc.c:22-31 | Live chunks of one pool or of different pools never overlap |
| `Kmalloc.Pools.NewPool` | src/kernel/memory/kmalloc.c:55-62 | A missing pool is created empty and separate from the others while mem_cache_new has room |
| `Kmalloc.Pools.PoolAlloc` | src/kernel/memory/kmalloc.c:64-70 | An allocation from one pool leaves every other pool as it was; null exactly when the page allocator had no pages |
| `Kmalloc.Pools.PoolFree` | src/kernel/memory/kmalloc.c:84-87 | A free in one pool leaves every other pool as it was |
| `Kmalloc.PoolBitmaps` | src/kernel/memory/mem_cache.c:82-100 | All seven sizes fit the bitmap words of a slab |
| `PageTables.AddressSpace.VmMap` | src/kernel/arch/arm_a/mm/VMSAv7/page_tables.c:84-140 | The B3.5 walk changes for exactly the first `mapped` pages from the page of virt on, the i-th going to the i-th page from phy with the flags' attributes; all other translations stay; on success that is the size rounded up to pages of 4096 bytes, on failure a proper prefix that ends where a megabyte had no table; first-level entries never share a second-level table; a call without GFP_KERNEL never adds a table |
| `PageTables.AddressSpace.VmUnmap` | src/kernel/arch/arm_a/mm/VMSAv7/page_tables.c:142-145 | The pages stay present, walk to pages from physical 0 on and carry no access permission. No table is ever added: it succeeds exactly when every page of the range has a second-level table, and otherwise stops at the first page without one |
| `PageTables.MapPageExact` | src/kernel/arch/arm_a/mm/VMSAv7/page_tables.c:100-117 | One turn of the loop, with the megabyte's own or a new zeroed table, gives one page its new translation, leaves every other address alone and keeps tables unshared |
| `PageTables.MapsInside` | src/kernel/arch/arm_a/mm/VMSAv7/page_tables.c:95-125 | Spelled out in addresses: every byte of the i-th page from the page of virt reaches the i-th page from that of phy, around the end of the address space |
| `PageTables.MapsOutside` | src/kernel/arch/arm_a/mm/VMSAv7/page_tables.c:95-125 | An address on none of those pages walks as before |
| `PageTables.WalkIsArchitectural` | src/kernel/arch/arm_a/mm/VMSAv7/small_page.h:1-6 | The walk used throughout is the short-descriptor walk of section B3.5, bit field by bit field, from TTBR0 on |
| `PageTables.PutSmallWalks` | src/kernel/arch/arm_a/mm/VMSAv7/page_tables.c:109-112 | Writing one second-level descriptor changes the walk of its page alone |
| `PageTables.PutTableSound` | src/kernel/arch/arm_a/mm/VMSAv7/page_tables.c:114-117 | Installing a table keeps the first level sound: page-table entries only, no table shared |
| `PageTables.PutTableWalk` | src/kernel/arch/arm_a/mm/VMSAv7/page_tables.c:114-117 | After it the megabyte walks through the new table and no other address is affected |
| `PageTables.L1Where` | src/kernel/arch/arm_a/mm/VMSAv7/page_tables.c:100-100 | First-level descriptors lie in the 16 KB root, one to a megabyte |
| `PageTables.L2Where` | src/kernel/arch/arm_a/mm/VMSAv7/page_tables.c:109-112 | Second-level descriptors lie in their 1 KB table, one to a page of the megabyte |
| `PageTables.SmallDecodes` | src/kernel/arch/arm_a/mm/VMSAv7/small_page.h:218-232 | The walk reads back base and attributes of both kinds of small-page descriptors |
| `PageTables.AttributesMean` | src/kernel/arch/arm_a/mm/VMSAv7/page_tables.c:26-54 | Field by field, each bit of the attributes: device memory is never executable and bufferable, all else strongly ordered and executable; no flags mean no access |
| `PageTables.NormalMeans` | src/kernel/arch/arm_a/mm/VMSAv7/init_page_tables.c:63-91 | Field by field, the memory mapped at boot: executable, bufferable, cacheable, shared, global, access for privileged code only |
| `PageTables.TableEntryReads` | src/kernel/arch/arm_a/mm/VMSAv7/pagetable.h:67-79 | A page-table descriptor is read back as a table with the same base |
| `PageTables.TableEntryFields` | src/kernel/arch/arm_a/mm/VMSAv7/page_tables.c:56-67 | Field by field, a first-level descriptor: page-table type, privileged execution, secure, domain 0, and the base |
| `PageTables.IndexHit` | src/kernel/arch/arm_a/mm/VMSAv7/page_tables.c:119-125 | The i-th turn of the loop works on the page with index i, around the end of the address space |
| `PageTables.PagesLeft` | src/kernel/arch/arm_a/mm/VMSAv7/page_tables.c:121-124 | The loop runs once for each page of the size rounded up |
| `InitPageTables.BootTables.GetFreeL2` | src/kernel/arch/arm_a/mm/VMSAv7/init_page_tables.c:29-61 | Over any number of calls: null, or a blank 1 KB aligned table outside the root that no earlier call returned; earlier tables and the root are untouched |
| `InitPageTables.TablesApart` | src/kernel/arch/arm_a/mm/VMSAv7/init_page_tables.c:28-61 | So any two tables that it ever returned are disjoint |
| `InitPageTables.BootTables.BuildRoot` | src/kernel/arch/arm_a/mm/VMSAv7/init_page_tables.c:119-138 | Exactly the megabytes of the range get tables, all different; no address translates yet |
| `InitPageTables.BootTables.InitL2` | src/kernel/arch/arm_a/mm/VMSAv7/init_page_tables.c:67-100 | Every page of the range is mapped in order, all other translations stay |
| `InitPageTables.BootTables.InitPageTables` | src/kernel/arch/arm_a/mm/VMSAv7/init_page_tables.c:103-152 | Afterwards every address of the range walks to the physical page with its index, every other address faults, tables are unshared; on failure the translation base register is unchanged |
| `InitPageTables.ExpectedOffsets` | src/kernel/arch/arm_a/mm/VMSAv7/init_page_tables.c:102-103 | For page-aligned bases the mapped address is the physical base plus the offset, and exactly the range is mapped |
| `SystemTime.EveryRunFromStart` | src/kernel/timer/system_time.c:37-107 | From start_system_time on, for any frequency up to the counter's top value and calls at most wrap minus freq ticks apart: reported times never go back, and each is exactly the time of the true elapsed ticks or of one tick less, whole seconds plus leftover ticks times 10^9 / freq nanoseconds; nanoseconds stay below 10^9 |
| `SystemTime.RealTime` | src/kernel/timer/system_time.c:52-66 | Against real time a report falls short exactly by what the truncated tick length loses on the leftover ticks |
| `SystemTime.EveryRun` | src/kernel/timer/system_time.c:56-107 | The same from any state that tells the time |
| `SystemTime.GetTells` | src/kernel/timer/system_time.c:82-107 | One call keeps the clock's invariant, never lowers the tick count, and is exact exactly when the counter does not stand below the base tick |
| `SystemTime.BehindAfterWrap` | src/kernel/timer/system_time.c:77-99 | A clock of any frequency started at the top tick of its counter reports no time at all one tick later |
| `SystemTime.ForwardSteps` | src/kernel/timer/system_time.c:56-72 | Moving the base forward by whole seconds keeps base seconds and base tick in step, across the wrap |
| `SystemTime.StartTells` | src/kernel/timer/system_time.c:37-54 | The clock just started tells time zero |
| `SystemTime.TellsAccurate` | src/kernel/timer/system_time.c:61-65 | A state that tells the time reports exactly the time of the elapsed ticks or of one tick less |
| `SystemTime.CounterAfter` | src/kernel/drivers/ti/omap/timer/sync_timer.c:28-30 | The counter runs modulo one more than its top value |
| `SystemTime.CallFits` | src/kernel/timer/system_time.c:56-80 | No intermediate value of a call exceeds the counter's top value, and leftover nanoseconds stay below a second |
| `SystemTime.CompareTotals` | src/kernel/timer/system_time.c:109-121 | The comparison orders normal times by their totals |
| `SystemTime.AddSubTotals` | src/kernel/timer/system_time.c:123-142 | Sums and differences are those of the totals modulo 2^32 seconds and stay normal |
| `SystemTime.AddSubUndo` | src/kernel/timer/system_time.c:123-142 | Adding and subtracting the same time undo each other, wrap-around included |
| `SystemTime.SystemClock.StartSystemTime` | src/kernel/timer/system_time.c:37-54 | The start state, or the timer's error with no timer present |
| `SystemTime.SystemClock.ForwardTime` | src/kernel/timer/system_time.c:56-72 | All fields after a forward step; the leftover nanoseconds are leftover ticks times 10^9 / freq |
| `SystemTime.SystemClock.LoopedTime` | src/kernel/timer/system_time.c:74-80 | All fields after a wrapped step, nanoseconds likewise |
| `SystemTime.SystemClock.GetSystemTime` | src/kernel/timer/system_time.c:82-107 | The new clock and the reported time, whose seconds and nanoseconds are stated outright, or -1 with no change |
| `SystemTime.TimespecCell.AddSystemTime` | src/kernel/timer/system_time.c:123-130 | In place, also when both arguments are one cell |
| `SystemTime.TimespecCell.SubSystemTime` | src/kernel/timer/system_time.c:132-142 | In place, also when both arguments are one cell |
| `Sched.BoundedWaiting` | src/kernel/sched/sched.c:66-93 | Whatever else is added, sleeps or wakes, a thread that is ready at every switch is dispatched after at most as many switches as there are non-idle slots up to its own |
| `Sched.ThirtyOneSwitches` | src/kernel/sched/sched.c:66-93 | That is never more than 31 switches |
| `Sched.NextExact` | src/kernel/sched/sched.c:66-93 | One call chooses the first ready slot in cyclic order; idle exactly when no other thread is ready |
| `Sched.SwitchKeepsFlags` | src/kernel/sched/sched.c:50-93 | A task switch chooses a thread with no flag, or a sleeper whose time has come, and idle only when there is neither; it changes no sleep time and no flag except that the chosen sleeper loses exactly its sleep flag |
| `Sched.ClearSleepMeans` | src/kernel/sched/sched.c:58 | Losing the sleep flag leaves every other flag as it was |
| `Sched.AwakeStaysReady` | src/kernel/sched/sched.c:50-93 | A thread with no flags that asks for no sleep keeps no flags and is ready at every switch of every run |
| `Sched.AwakeIsDispatched` | src/kernel/sched/sched.c:66-93 | So it is dispatched within thirty-one switches of every run, whatever other threads do |
| `Sched.SpawnExact` | src/kernel/sched/sched.c:110-125 | Adding a thread fills the first empty slot with it and changes nothing else |
| `Sched.NeverEarly` | src/kernel/sched/sched_sleep.c:9-23 | From the step that sets a thread to sleep until a time no run dispatches it before that time, whatever else happens, unless the thread itself, still on the processor, sets another time |
| `Sched.SleepThenYield` | src/kernel/sched/sched_sleep.c:9-23 | kthread_sleep_ts with its closing yield: a thread whose time has not come leaves the processor at once, is dispatched by no run before that time, and finds its registers as it left them |
| `Sched.GoToSleepSets` | src/kernel/sched/sched_sleep.c:15-20 | Going to sleep sets the sleep flag and the time of the running thread and nothing else; a sleeper with no other flag may run exactly from its time on |
| `Sched.SleeperWaits` | src/kernel/sched/sched.c:50-64 | A sleeping thread off the processor keeps its slot unchanged and is not dispatched over any run before its time |
| `Sched.SleeperLeaves` | src/kernel/sched/sched.c:327-351 | The next switch before the wake-up time takes a sleeping thread off the processor and saves its registers |
| `Sched.WokenRuns` | src/kernel/sched/sched.c:56-61 | A due sleeper with no other flag wakes with no flag and stays runnable |
| `Sched.PrivateProcessors` | src/kernel/sched/sched.c:289-351 | Over every run without thread exit each thread computes as on a processor of its own |
| `Sched.SwitchKeepsViews` | src/kernel/sched/sched.c:289-301 | A task switch, to the same thread included, leaves every thread's registers as it sees them |
| `Sched.RunQueue.IsRunnable` | src/kernel/sched/sched.c:50-64 | The answer: no flag, or asleep with the time come; the thread loses its sleep flag exactly then and nothing else of it changes |
| `Sched.RunQueue.LookAt` | src/kernel/sched/sched.c:79-84 | A look at one slot tells whether it is ready and changes only that slot, only when it is |
| `Sched.RunQueue.RunQueueNext` | src/kernel/sched/sched.c:66-93 | The loop chooses what the scan on values chooses and changes only the chosen thread's flags |
| `Sched.RunQueue.RunQueueAdd` | src/kernel/sched/sched.c:110-125 | The thread goes to the first empty slot, -1 exactly when there is none |
| `Sched.RunQueue.Switch` | src/kernel/sched/sched.c:289-301 | Registers are saved, and loaded unless the thread stays |
| `Sched.RunQueue.ArchIrqTaskSwitch` | src/kernel/sched/sched.c:327-351 | Queue, flags and registers after a switch are those of the switch on values |
| `Sched.RunQueue.KthreadSleepTs` | src/kernel/sched/sched_sleep.c:9-23 | The running thread's sleep flag and wake-up time are set to the present time plus the argument, and the yield then switches as a task switch does |
| `Sched.RunQueue.constructor` | src/kernel/sched/sched.c:211-232 | Boot thread running in slot 1 beside the idle thread in slot 0 |
| `Mutex.EveryRunExclusive` | src/kernel/arch/arm_a/concurrency/mutex.S:5-49 | From the start state, with any number of threads and mutexes, any interleaving of single instructions and any interruption: at most one thread lies between its successful strex and its unlock of a mutex |
| `Mutex.StartInvariant` | src/kernel/arch/arm_a/concurrency/mutex.S:5-49 | All threads in client code and all lock words 0 satisfy the invariant |
| `Mutex.StepKeeps` | src/kernel/arch/arm_a/context/context_a.S:87-89 | Every instruction, call, spurious loss of the monitor and interrupt keeps the invariant, resting on clrex at exception entry |
| `Mutex.StrexTakesFree` | src/kernel/arch/arm_a/concurrency/mutex.S:12-14 | A strex that succeeds finds the mutex held by nobody |
| `Mutex.UnlockFrees` | src/kernel/arch/arm_a/concurrency/mutex.S:45-49 | The unlocking store leaves the lock word 0 and the mutex free |
| `Mutex.RoutineResults` | src/kernel/arch/arm_a/concurrency/mutex.S:5-40 | mutex_lock returns holding the mutex and yields only after loading 1; mutex_trylock returns 0 holding it, or the non-zero mutex address only after loading 1 |
| `Mutex.LoadTells` | src/kernel/arch/arm_a/concurrency/mutex.S:9-10 | A load sees 1 exactly while some thread holds the mutex |
| `Mutex.LockAlone` | src/kernel/arch/arm_a/concurrency/mutex.S:5-16 | Undisturbed on a free mutex, mutex_lock returns after nine instructions holding it |
| `Mutex.LockWaits` | src/kernel/arch/arm_a/concurrency/mutex.S:5-19 | Undisturbed on a held mutex, mutex_lock comes to its yield with no memory changed |
| `Mutex.LockAfterYield` | src/kernel/arch/arm_a/concurrency/mutex.S:17-22 | After its yield it acquires a mutex that is free by then |
| `Mutex.TrylockAlone` | src/kernel/arch/arm_a/concurrency/mutex.S:26-37 | Undisturbed on a free mutex, mutex_trylock returns 0 holding it |
| `Mutex.TrylockFails` | src/kernel/arch/arm_a/concurrency/mutex.S:26-40 | Undisturbed on a held mutex, mutex_trylock returns the mutex address with no memory changed |
| `Mutex.UnlockAlone` | src/kernel/arch/arm_a/concurrency/mutex.S:45-49 | Undisturbed, mutex_unlock leaves the lock word 0 and the thread without the mutex |
| `Mutex.ClrexNeeded` | src/kernel/arch/arm_a/context/context_a.S:135-137 | Without clrex at exception entry a reachable state has two holders of one mutex |

Members without a row are helpers: steps of these proofs, or definitions that the rows' contracts use.

## Left out

- MemCaches.MoreSlabs: models the one-page request only, the only one that is made (`mem_cache.c:315`); for several pages the link across a page boundary is written to a different field.
- Slabs.ChunkOf: chunk sizes are those that divide a page, hence powers of two; the cache accepts others, for which the alignment mask of the free path has no meaning.
- MemCaches.MemCache.constructor: likewise, the chunk size divides a page.
- BuddyTheorems.AllocationSound: requests are at most 2^31 pages, because the order loop does not end beyond that on a 32-bit machine.
- BuddyAlloc.Buddies.FreePagesAt: the address belongs to a tracked page; what an arbitrary page number does to the bitmaps is not modelled, and the run theorems free live blocks only, as a caller must.
- BuddyAlloc.Buddies.FreePageNumber: likewise, for page numbers.
- BuddyAlloc.Buddies.DetermineAllocatedPageOrder: likewise; the code reads beyond its tables for other page numbers.
- BuddyAlloc.Buddies.LayTables: requires room for the ceiling counts, without which two blocks share a bit (BuddyLayout.RoomMeansOwnBits).
- BuddyAlloc.Buddies.LayBothPyramids: likewise.
- BuddyAlloc.Buddies.BuddyAllocData: likewise, and a whole page is left after the tables.
- PageFrames.Buddy.SetUpBuddy: likewise requires room for the partial group of each order in use.
- PageFrames.PageFrameAllocator.constructor: likewise.
- PageFrames.PageFrameAllocator.FreePages: the range lies in the heap; the exactness of the bitmaps is stated for matching frees.
- PageFrames.Buddy.BuddyFreeRange: likewise the range lies in the heap; the code does not check it.
- PageFrames.FastForwardSkips: the 32-bit build; the branch for 64-bit words is not modelled.
- PageTables.AddressSpace.VmMap: tables are reached at their physical address (virtual and physical bases are equal on every board), the boot-loader tables' early return is not taken, and mapping over the tables themselves is not modelled.
- InitPageTables.BootTables.InitPageTables: the root pages are not null and the range does not run past the end of the address space, neither of which the code checks; cache, TLB and MMU switching have no model.
- SystemTime.EveryRunFromStart: claims end when the 32-bit seconds are used up.
- Sched.RunQueue.constructor: setting up the timer and the interrupt controller, and their failures, are left out.
- Sched.RunQueue.KthreadSleepTs: the two clock readings are parameters.
- Sched.RunQueue.ArchIrqTaskSwitch: programming the next timer interrupt and checking stacks are left out; the clock reading is a parameter.
- Mutex.EveryRunExclusive: one core, and unlock is called by the holder only; progress is claimed for a thread that nothing disturbs (Mutex.LockAlone, Mutex.LockAfterYield), not for one that always finds the mutex held.
- BuddyAlloc.Buddies.GetFreePagesAt: pages are addresses, so the clearing asked for by `GFP_ZERO` is not modelled; it is for second-level tables and pages of slabs.
- PageFrames.PageFrameAllocator.GetFreePages: likewise without the clearing.
- MemCaches.MemCache.TakeChunk: likewise, chunks are addresses.
- MemCaches.MemCache.Alloc: likewise.
- Kmalloc.Pools.Kmalloc: likewise.
- The page allocators below the slab cache and the page tables appear there as a source that never gives out pages somebody owns; the link to the buddy allocators is by that contract.
- Thread exit and join: an exit empties the running slot, which the next switch asserts to be filled.
- `kthread_sleep_ms` and `kthread_sleep_ns`: conversions in front of `kthread_sleep_ts`; the first scales leftover milliseconds by 1000 into nanoseconds.
- Spinlocks, interrupt masking, the hosted builds and the hosted timer, which wraps at a value other than the one it reports.
- Drivers, boot code, context save and restore beyond the `clrex` points, formatting and parsing, ring buffers, device registries, stack canaries: hardware effects or easy members.
