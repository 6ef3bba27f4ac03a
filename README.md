# ChCore core: buddy allocator, page tables, round-robin scheduler, tmpfs names

This project is a Dafny model of four parts of the ChCore teaching kernel, with proofs about that model:

- **Buddy allocator** (`kernel/mm/buddy.c`), in `buddy.dfy`, module `Buddy`.
  - A physical memory pool is modelled as a class `BuddyPool`. It has these parts:
    - the array of page records;
    - the 14 free lists, each a sequence of page indices with the head first;
    - the `nr_free` counters;
    - a ghost `owner` map that gives, for each page, the head of the block holding it.
  - The invariant says several things:
    - the blocks tile the pool;
    - each block is aligned on its size in absolute page frames;
    - only heads are ever marked allocated;
    - list k holds exactly the free heads of order k, each once;
    - `nr_free[k]` is the length of list k;
    - the pool is coalesced: no free block below the top order has a free buddy of its own order.
  - Every operation keeps this invariant. Every operation also says how the allocated blocks change and how the free byte count changes.
- **Page tables** (`kernel/mm/page_table.c`), in `page_table.dfy`, module `PageTable`.
  - The AArch64 four-level translation tables with a 4 KB granule.
  - A class `PageTables` holds these parts:
    - the table pages, as frame number mapped to 512 descriptors;
    - an explicit supply of free frames for new table pages;
    - a ghost level and a ghost parent descriptor for each table page.
  - The invariant: no table page is reached from two descriptors, and levels 0 and 1 hold no blocks.
  - The main properties:
    - mapped pages and 2 MiB blocks read back through `query_in_pgtbl` and `query_in_pgtbl_level`;
    - cleared pages read back as `-ENOMAPPING`;
    - no translation outside the range changes.
- **Round-robin scheduler** (`kernel/sched/policy_rr.c`), in `policy_rr.dfy`, module `RoundRobin`.
  - Per-CPU FIFO ready queues, thread contexts and each CPU's current thread.
  - A class `Scheduler` whose methods are specified by functions on a `Policy` value.
  - The properties:
    - queues stay free of repeats;
    - no thread sits in two queues, and no idle thread is queued;
    - choosing is FIFO;
    - budgets count down to zero.
- **tmpfs name layer** (`user/lab5/tmpfs/tmpfs.c`), in `tmpfs.dfy` (module `Tmpfs`) and `dirent.dfy` (module `DirScan`).
  - The BKDR hash and the stored strings.
  - Directories as 1024-bucket hash tables of dentries.
  - `tfs_lookup`, `tfs_mknod`, `tfs_remove` and the path walk `tfs_namex`.
  - The directory scan `tfs_scan` with `dirent_filler`, which packs `struct dirent` records into a byte buffer.
  - The properties:
    - lookup is sound and complete;
    - remove undoes mknod;
    - namex resolves a path component by component;
    - the records that the scan writes parse back, record by record, when a reader steps through them by `d_reclen`.

`common.dfy` (module `Common`) holds the shared arithmetic:
- powers of two;
- the bit flip that `x ^ (1 << k)` performs;
- alignment lemmas;
- the conversion to a 32-bit `int`.

Machine integers are unbounded in the model. Where the C code wraps or truncates, the model writes that out: `u64` sums modulo 2^64, the `unsigned short` record length modulo 2^16, and the `s64` to `int` return of `tfs_scan`.

## Model

| member | source | states |
|---|---|---|
| Common.ToInt32 | user/lab5/tmpfs/tmpfs.c:457 | The result is a 32-bit signed value, and any value below 2^31 is kept unchanged. |
| Common.FlipBitInvolution | kernel/mm/buddy.c:84 | Flipping the same bit twice gives back the original number. |
| Common.FlipBitAligned | kernel/mm/buddy.c:84 | Flipping bit k of a number aligned on 2^k gives another aligned number, 2^k away. The lower of the pair is aligned on 2^(k+1), so the two buddies form one block of the next order. |
| Common.FlipUpperHalf | kernel/mm/buddy.c:84 | Flipping bit k of the upper half of a 2^(k+1)-aligned pair gives the lower half. |
| Buddy.BlockBytes | kernel/mm/buddy.c:237 | A block of any order holds at least one 4096-byte page. |
| Buddy.VirtOfPage | kernel/mm/buddy.c:212-227 | `page_to_virt` of a page record gives an address inside the pool, and `virt_to_page` of that address gives the same record back. |
| Buddy.PageOfVirt | kernel/mm/buddy.c:212-227 | `virt_to_page` maps any address in the pool to a record of the pool. That record's address is the input address rounded down to its page. For a page-aligned address it is the address itself. |
| Buddy.GetBuddyChunkFrames | kernel/mm/buddy.c:70-93 | `get_buddy_chunk`'s address XOR is the same as flipping bit `order` of the page frame number. The result is NULL exactly when that frame lies outside the pool. This holds whatever the pool start's offset within its page. |
| Buddy.BuddyOfBuddy | kernel/mm/buddy.c:70-93 | The buddy of a block is a different page of the pool, and that page's buddy at the same order is the block itself. |
| Buddy.RemoveProps | kernel/mm/buddy.c:180-181 | `list_del` of a node removes exactly that node, keeps the list free of repeats, and shortens the list by one when the node was present. |
| Buddy.FreeBytesUpdate | kernel/mm/buddy.c:235-240 | Changing one `nr_free` counter by d changes the free byte count by d blocks of that order. |
| Buddy.BlocksDisjoint | kernel/mm/buddy.c:115-116 | In a tiled pool, two different block heads own no page in common. |
| Buddy.BuddyIsHead | kernel/mm/buddy.c:174-175 | In a tiled pool, a head's buddy that lies inside the pool is itself a block head. So the test `buddy_page->order == order` reads a real block's record. |
| Buddy.SplitStep | kernel/mm/buddy.c:110-124 | One round of `split_page` keeps the invariant and keeps the counters equal to the list lengths. The free bytes and the allocated blocks do not change. |
| Buddy.SplitFreeBytes | kernel/mm/buddy.c:110-124 | Taking one block of order k and adding two of order k-1 leaves the free byte count unchanged. |
| Buddy.MergeStep | kernel/mm/buddy.c:175-186 | Merging two free buddies keeps the invariant and the counters. The free bytes and the allocated blocks do not change. The merged block starts at the lower buddy and covers the old block. |
| Buddy.MergeFreeBytes | kernel/mm/buddy.c:185-186 | Taking two blocks of order k and adding one of order k+1 leaves the free byte count unchanged. |
| Buddy.TakeStep | kernel/mm/buddy.c:152-154 | Taking a free head off its list and marking it allocated keeps the invariant. The counter of that order drops by one. |
| Buddy.PushStep | kernel/mm/buddy.c:199-207 | Marking an allocated head free and pushing it on its list keeps the invariant. The counter of that order rises by one. |
| Buddy.PushCoalesced | kernel/mm/buddy.c:199-207 | Marking one block free keeps a coalesced pool coalesced, except for that block and any block whose buddy it is. |
| Buddy.TakeCoalesced | kernel/mm/buddy.c:152-154 | Marking the block at x allocated makes the pool coalesced when at most x and the blocks beside it were exempt. |
| Buddy.SplitCoalesced | kernel/mm/buddy.c:110-124 | A split round keeps the pool coalesced except around the block being split. The new upper half is that block's buddy, and no other block has it as a buddy of the same order. |
| Buddy.MergeCoalesced | kernel/mm/buddy.c:175-186 | A merge round moves the exemption from the block being merged to the merged block. |
| Buddy.MergeRoundKeeps | kernel/mm/buddy.c:175-186 | A merge round keeps the layout sound and counted, keeps the free bytes and the allocated blocks, and leaves only the merged block (and blocks whose buddy it is) free to merge further. |
| Buddy.StopCoalesced | kernel/mm/buddy.c:172-188 | Where `merge_page` stops, the whole pool is coalesced. A block whose buddy is the stopping block cannot be a free block of the same order, because then the stopping block would have merged with it. |
| Buddy.BuddyPool.Install | kernel/mm/buddy.c:180-186 | Writes one page record and replaces the lists, the counters and the owners. Nothing else changes, and the pool is sound when the new values form a sound layout. |
| Buddy.InitValid | kernel/mm/buddy.c:41-55 | The state `init_buddy` starts from is well formed: every page is an allocated order-0 block of its own, and every list is empty. |
| Buddy.OrderZeroFrom | kernel/mm/buddy.c:51-61 | While `init_buddy` frees pages in turn, the allocated blocks are exactly the order-0 pages not yet freed. |
| Buddy.ScanAsWritten | kernel/mm/buddy.c:141-148 | Models the order scan as written. When it finds an order, that order is the first non-empty one at or above the request. |
| Buddy.ScanAsWrittenOutOfBounds | kernel/mm/buddy.c:141-148 | The scan as written reads `free_lists[BUDDY_MAX_ORDER]` exactly when the order passes the guard and no list at or above it has a block. |
| Buddy.ScanAsWrittenExamples | kernel/mm/buddy.c:141-148 | Two concrete inputs that read past the array: a request of order 14 on a pool that has blocks, and a request of order 0 on an empty pool. |
| Buddy.MergeRoundAsWritten | kernel/mm/buddy.c:169-190 | One merge round as written dereferences NULL exactly when the block is below the top order and its buddy lies outside the pool. |
| Buddy.MergeNullDerefExample | kernel/mm/buddy.c:28-62 | A concrete pool where this happens: three pages at 1 MiB, with page 2 freed last. Its buddy, page 3, is outside the pool. |
| Buddy.BuddyPool.SplitHalves | kernel/mm/buddy.c:109-125 | One split round on the free block at idx, of order k. The block leaves list k, and its two halves of order k-1 go to the front of list k-1, upper half first (`SplitLists`). Both halves' records read order k-1, free (`SplitPages`). `nr_free[k]` drops by one and `nr_free[k-1]` rises by two. The upper half heads its own pages (`SplitOwner`). The allocated blocks and free bytes are kept, and the pool stays coalesced except around idx. |
| Buddy.BuddyPool.SplitPage | kernel/mm/buddy.c:106-127 | `split_page` returns the head it was given, now of the target order and free. The layout invariant, the allocated blocks and the free bytes are kept, and the pool stays coalesced except around that head. |
| Buddy.BuddyPool.FindNonEmptyOrder | kernel/mm/buddy.c:141-148 | With the bound corrected, the result is the first order at or above the request whose counter is non-zero. It is None exactly when every such counter is zero. |
| Buddy.BuddyPool.GetPages | kernel/mm/buddy.c:135-157 | The result is None exactly when no free list at or above `order` holds a block, and then nothing changes. Otherwise it is the head taken from the last node of the first non-empty list, now an allocated block of exactly `order`. That block is on no list, the allocated blocks gain it, and the free bytes drop by its size. The invariant, coalescing included, is kept in both cases. |
| Buddy.BuddyPool.TakeBlock | kernel/mm/buddy.c:151-153 | The free block that alone may have a free buddy leaves every list and becomes allocated with its order. The pool is valid and coalesced again, the allocated blocks gain it and the free bytes drop by its size. |
| Buddy.BuddyPool.MergeWithBuddy | kernel/mm/buddy.c:175-186 | Two free buddies of order k leave list k (`MergeLists`). The lower one, `MIN(page, buddy_page)`, goes to the front of list k+1 as a free head of order k+1 that owns both halves (`MergePages`, `MergeOwner`). `nr_free[k]` drops by two and `nr_free[k+1]` rises by one. The allocated blocks and free bytes are kept, and the pool stays coalesced except around the merged block. |
| Buddy.BuddyPool.BuddyChunk | kernel/mm/buddy.c:70-93 | `get_buddy_chunk` on this pool is the page whose frame differs in bit k, when the pool holds that page. |
| Buddy.BuddyPool.MergePage | kernel/mm/buddy.c:169-190 | Returns a free head at or below idx whose block covers the original block. Merging stopped there for one of the source's reasons (`MergeStops`): the top order, no buddy in the pool, or a buddy whose record is allocated or of another order. Afterwards the whole pool is coalesced. The allocated blocks and free bytes are kept. |
| Buddy.BuddyPool.FreePages | kernel/mm/buddy.c:198-210 | A record that is not allocated is left alone. Freeing an allocated block removes it from the allocated blocks and adds its size to the free bytes. Its pages then lie in a free block that starts at or below it. The invariant is kept, so no free block has a free buddy of its own order below the top order. |
| Buddy.BuddyPool.GetFreeMemSize | kernel/mm/buddy.c:229-246 | The loop returns the sum over the orders of `nr_free` × 4096 × 2^order, modulo 2^64. |
| Buddy.BuddyPool.Init | kernel/mm/buddy.c:28-62 | `init_buddy` produces a well-formed, coalesced pool over the pages from `startAddr`. No block is allocated, and the free bytes equal the pool size. |
| Buddy.BuddyPool.FreeEachPage | kernel/mm/buddy.c:57-61 | Freeing every page of a pool whose pages are all allocated order-0 blocks leaves it well formed and coalesced, with no block allocated and all of the pool's bytes free. |
| Buddy.CoveredIff | kernel/mm/buddy.c:28-62 | A page lies inside an allocated block exactly when the record of its head says allocated. |
| Buddy.BlockIsChunk | kernel/mm/buddy.c:70-93 | An aligned block that holds an aligned chunk of the same or a larger order, and is no larger, is that chunk. |
| Buddy.ChunkInside | kernel/mm/buddy.c:70-93 | An aligned block of order at least m that holds an aligned page of order m holds that page's whole chunk of order m. |
| Buddy.HalvesInBlocks | kernel/mm/buddy.c:70-93 | When the two halves of an aligned chunk each lie inside an aligned block, either one block holds the whole chunk, or the two blocks are exactly the two halves. |
| Buddy.FreeHalves | kernel/mm/buddy.c:106-127 | Both halves of a chunk that holds no allocated page also hold none. |
| Buddy.FreeBuddiesMerge | kernel/mm/buddy.c:169-190 | Two free blocks that are buddies of the same order below the top order break coalescing. |
| Buddy.JoinHalves | kernel/mm/buddy.c:169-190 | In a coalesced pool, when each half of a free aligned chunk lies inside a free block, one free block holds the whole chunk. |
| Buddy.FreeChunkInBlock | kernel/mm/buddy.c:169-190 | In a coalesced pool, every aligned chunk below the top order that holds no allocated page lies inside one free block. |
| Buddy.FreeHeadsDetermined | kernel/mm/buddy.c:169-190 | Two coalesced layouts of the same pool with the same allocated blocks have the same free heads, with the same records. |
| Buddy.FreeListsDetermined | kernel/mm/buddy.c:169-190 | Two valid, coalesced pools with the same pages and the same allocated blocks hold the same blocks on each free list. |
| Buddy.BuddyPool.GetThenFree | kernel/mm/buddy.c:135-157 | `buddy_get_pages` followed by `buddy_free_pages` of its result gives back the same allocated blocks, the same blocks on each free list and the same free bytes, whether or not the request succeeded. |
| PageTable.SetPteFlags | kernel/mm/page_table.c:42-63 | Sets AP from VMR_WRITE and UXN exactly when VMR_EXEC is missing. PXN is set for user descriptors, and is kept otherwise. AF, inner shareable and normal memory are always set. The walk fields are not touched. |
| PageTable.LevelSize | kernel/mm/page_table.c:82-104 | An entry at any level covers a positive number of bytes. |
| PageTable.Index | kernel/mm/page_table.c:89-104 | Each level's index is below 512. |
| PageTable.NextPtp | kernel/mm/page_table.c:82-137 | Without allocation, `get_next_ptp` either fails with `-ENOMAPPING` or returns a pointer to the descriptor of `cur` that va selects at this level. |
| PageTable.PathTable | kernel/mm/page_table.c:156-171 | The table on va's walk at each level, when there is one, is a page-table page. |
| PageTable.RegionDigits | kernel/mm/page_table.c:89-104 | The four indices are consecutive 9-bit digits of the virtual page number. |
| PageTable.AdvanceRegion | kernel/mm/page_table.c:249 | The i-th step of a range that advances by one entry's size lies in region (start + i) mod the region count, with the `u64` wrap-around. |
| PageTable.AdvanceDistinct | kernel/mm/page_table.c:249 | Two steps of a range that are fewer than the region count apart lie in different regions. |
| PageTable.PathDepth | kernel/mm/page_table.c:156-171 | On well-formed tables, the table a walk reaches at level l has depth l. |
| PageTable.SameSlotSameRegion | kernel/mm/page_table.c:106 | Two addresses whose walks reach the same descriptor lie in the same region: no table page is shared. |
| PageTable.MapsKept | kernel/mm/page_table.c:128 | A change to one descriptor keeps w's translation at a level in three cases: it lies below that level, it only fills an empty slot or changes attributes above it, or it lies off w's walk. |
| PageTable.SlotWrite | kernel/mm/page_table.c:244-248 | Rewriting the level-l descriptor of va keeps va's walk down to it. It also keeps every translation of addresses outside va's level-l region. |
| PageTable.WfWrite | kernel/mm/page_table.c:285-292 | Writing a descriptor keeps the tables well formed in three cases: the write is below level 2, it keeps the walk fields, or it puts a non-table descriptor at level 2. |
| PageTable.WfAlloc | kernel/mm/page_table.c:116-128 | Installing a fresh zero-filled table page under an empty slot keeps the tables well formed. The rest of the frame supply stays fresh. |
| PageTable.QueryPage | kernel/mm/page_table.c:156-171 | A level-3 page descriptor is what `query_in_pgtbl` reports: its pfn field, or `-ENOMAPPING` once its valid bit is clear. |
| PageTable.QueryBlock | kernel/mm/page_table.c:156-208 | For a 2 MiB block, `query_in_pgtbl_level(.., 2)` reports the block address plus va's offset. `query_in_pgtbl` returns BLOCK_PTP for it. |
| PageTable.BlockEntry | kernel/mm/page_table.c:285-292 | The block descriptor holds the 27-bit pfn. Its table bit is clear, and UXN, AF, SH and the memory type are set. AP and PXN are kept from before. |
| PageTable.KeepsBesideTrans | kernel/mm/page_table.c:232-251 | Keeping every translation beside a region, twice in a row, keeps them all. |
| PageTable.PagesReadBack | kernel/mm/page_table.c:232-251 | Pages of a range that are mapped to the matching physical pages are found by `query_in_pgtbl` at those pages. |
| PageTable.StepWrite | kernel/mm/page_table.c:236-243 | A write through the level-k descriptor of v keeps v's walk down to it. It keeps every translation outside v's region in two cases: it lies at the region's level, or it fills an empty slot or only changes attributes. |
| PageTable.RangeDistinct | kernel/mm/page_table.c:231-232 | Pages of a range shorter than 2^31 pages lie in distinct regions. |
| PageTable.PagesMappedStep | kernel/mm/page_table.c:232-251 | Mapping page k beside the first k mapped pages keeps those pages and extends the mapped prefix. |
| PageTable.BlocksMappedStep | kernel/mm/page_table.c:272-295 | Writing block k beside the earlier blocks keeps every earlier block that it does not alias. |
| PageTable.AllocStep | kernel/mm/page_table.c:107-134 | When `get_next_ptp` on v's walk yields a valid descriptor, found or newly installed, the walk down to it is kept. A table descriptor leads one level further, and nothing beside v's region changes. |
| PageTable.DescendWrite | kernel/mm/page_table.c:237-242 | Running `get_next_ptp` and then `set_pte_flags` on a table descriptor of v's walk keeps the walk going through it. Nothing beside v's page changes. |
| PageTable.BlockWrite | kernel/mm/page_table.c:285-292 | Overwriting v's level-2 descriptor makes v's 2 MiB region a block of the given pfn. Translations beside it are kept. |
| PageTable.BlocksReadBack | kernel/mm/page_table.c:173-208 | Mapped 2 MiB blocks are found by `query_in_pgtbl_level(.., 2)` at their physical address. `query_in_pgtbl` refuses them with BLOCK_PTP. |
| PageTable.WalkOn | kernel/mm/page_table.c:131-134 | A valid table descriptor on v's walk leads to the next table of the walk. |
| PageTable.QueryWalk | kernel/mm/page_table.c:156-171 | On well-formed tables, `query_in_pgtbl` finds va exactly when its walk ends at a valid page descriptor. Otherwise it fails with `-ENOMAPPING` or BLOCK_PTP, and it never reads a page that is not a table. |
| PageTable.QueryKept | kernel/mm/page_table.c:317-328 | A page whose walk keeps every descriptor gets the same answer from `query_in_pgtbl`: found at the same descriptor, or the same error. |
| PageTable.ClearWrite | kernel/mm/page_table.c:326 | Clearing the valid bit of v's level-3 descriptor unmaps v's page. Every other page, and every translation above level 3, is kept. |
| PageTable.QueryRestStep | kernel/mm/page_table.c:317-328 | Unmapping page pg leaves every later page of the range reading back through `query_in_pgtbl` as before. |
| PageTable.PagesUnmappedStep | kernel/mm/page_table.c:317-328 | Clearing page k beside the first k cleared pages extends the cleared prefix. |
| PageTable.PagesGoneOf | kernel/mm/page_table.c:312-331 | Cleared pages read back as `-ENOMAPPING`. |
| PageTable.UnmapAsWritten | kernel/mm/page_table.c:312-331 | The unmap loop as written carries `cur_pt` from one page to the next. The model only ever adds table pages. |
| PageTable.ExampleWf | kernel/mm/page_table.c:312-331 | The two-page example tables are well formed, with frame 1 as the root. |
| PageTable.ExampleQueries | kernel/mm/page_table.c:156-171 | `query_in_pgtbl` finds both example pages, at frames 100 and 101. |
| PageTable.UnmapAsWrittenExample | kernel/mm/page_table.c:315-324 | On the example, the loop as written walks the second page from data frame 100, which is not a table page. |
| PageTable.PageTables.Init | kernel/mm/page_table.c:116-128 | An address space with an empty root table and a fresh frame supply is well formed. |
| PageTable.PageTables.WriteEntry | kernel/mm/page_table.c:244-248 | Storing through a descriptor pointer changes exactly that descriptor and keeps the tables well formed. |
| PageTable.PageTables.GetNextPtp | kernel/mm/page_table.c:82-137 | `get_next_ptp`: NULL gives `-ENOMAPPING`, and so does an invalid entry without `alloc`. With `alloc`, an invalid entry first becomes a table descriptor for a fresh zero page; with an empty supply the kernel halts. Otherwise the result is NORMAL_PTP or BLOCK_PTP from the table bit, with the next table and the descriptor pointer. |
| PageTable.PageTables.WalkLevel | kernel/mm/page_table.c:236-243 | One level of the mapping walk keeps the walk above it. It leads one level down v's walk, and it changes only v's page. It fails with a halt exactly when the entry is invalid and the frame supply is empty. It stops at a block exactly when the entry is a valid block descriptor, and then changes nothing. It never creates a block descriptor, and it takes at most one frame. |
| PageTable.PageTables.MapPage | kernel/mm/page_table.c:233-250 | One page of `map_range_in_pgtbl`: on success, va translates to the page descriptor for pa. Whatever the outcome, no other page changes translation. BLOCK_PTP means that va's walk meets a valid block descriptor. A halt means that the frame supply ran out, having held fewer than 4 frames. No block descriptor is created, and at most 4 frames are taken. |
| PageTable.PageTables.MapRange | kernel/mm/page_table.c:225-255 | On success, every page of the range translates to its physical page and reads back through `query_in_pgtbl`. No page outside the range changes. The only errors are BLOCK_PTP and a halt. BLOCK_PTP means that some page's walk meets a block descriptor. A halt means the supply ran out and held fewer than 4 frames per page. An empty or negative page count returns 0 and changes nothing. With no block descriptor in the tables and at least 4 frames per page, the call succeeds. No block descriptor is created. |
| PageTable.NoBlocksOnWalk | kernel/mm/page_table.c:236-243 | If a walk meets a block descriptor after an update that creates none, the tables held a block descriptor before the update. |
| PageTable.PageTables.AllocLevel | kernel/mm/page_table.c:276-284 | One level of the 2 MiB walk keeps the walk above it. It leads one level down v's walk, and it changes only v's 2 MiB region. It fails with a halt exactly when the entry is invalid and the frame supply is empty. It stops at a block only at level 2 on a valid block descriptor, and then changes nothing. It never creates a block descriptor, and it takes at most one frame. |
| PageTable.PageTables.MapBlock | kernel/mm/page_table.c:273-294 | One block of `map_range_in_pgtbl_2m`: on success, v's 2 MiB region is a block for pa. No other region changes. A halt means that the frame supply ran out, having held fewer than 3 frames. At most 3 frames are taken. |
| PageTable.PageTables.MapRange2M | kernel/mm/page_table.c:267-298 | On success, every block of the range that no later block aliases reads back through `query_in_pgtbl_level`. Nothing at levels 2 and 3 outside the range changes. A halt means that the supply ran out and held fewer than 3 frames per block. An empty or negative block count returns 0 and changes nothing. With at least 3 frames per block, the call succeeds. |
| PageTable.PageTables.UnmapPage | kernel/mm/page_table.c:317-327 | The page is cleared (only its valid bit changes) exactly when `query_in_pgtbl` finds it. Otherwise the error is returned and nothing changes. |
| PageTable.PageTables.UnmapRange | kernel/mm/page_table.c:312-331 | Succeeds exactly when `query_in_pgtbl` finds every page of the range in the tables as they were before the call, and then every page reads back `-ENOMAPPING`. Otherwise it returns the error of the first page that was not found: every page before it was found, and the pages before it are now cleared. That page reads back the same error afterwards. No page outside the range changes. |
| RoundRobin.TargetCpu | kernel/sched/policy_rr.c:59-60 | The queue a thread joins is a valid CPU: its affinity, or the current CPU for NO_AFF. |
| RoundRobin.Without | kernel/sched/policy_rr.c:80 | `list_del` removes exactly that thread and never lengthens the queue. On a queue that does not hold the thread, the model changes nothing; this is the model's reading of `list_del` on an unqueued node (see Left out). |
| RoundRobin.WithoutDistinct | kernel/sched/policy_rr.c:80 | Deleting a thread keeps a queue free of repeats. |
| RoundRobin.WithoutSplit | kernel/sched/policy_rr.c:80 | Deleting the one occurrence of a thread keeps the threads before and after it in order. |
| RoundRobin.QueuedOnce | kernel/sched/policy_rr.c:51-66 | In a well-formed state, a queued thread sits in exactly one queue and is not idle. |
| RoundRobin.EnqueueCode | kernel/sched/policy_rr.c:51-66 | The return value is between -4 and 0, one code per check, in the source's order. It is -1 exactly for a NULL thread or a thread with no context. An idle-type context gives 0. Otherwise it is -2 exactly for a TS_READY thread, -3 exactly for this CPU's idle thread when not ready, and -4 exactly for an invalid affinity after those. |
| RoundRobin.Enqueued | kernel/sched/policy_rr.c:51-66 | An enqueue that does not append leaves the state unchanged. |
| RoundRobin.EnqueueAppends | kernel/sched/policy_rr.c:57-63 | A successful enqueue puts the thread, which was in no queue, at the tail of its affinity CPU's queue. It marks the thread ready on that CPU and touches nothing else. |
| RoundRobin.EnqueueKeepsWf | kernel/sched/policy_rr.c:51-66 | Enqueue keeps the scheduler invariant. |
| RoundRobin.DequeueCode | kernel/sched/policy_rr.c:74-83 | The return value is between -4 and 0, one code per check, in the source's order. It is -1 exactly for a NULL thread or a thread with no context. Otherwise it is -2 exactly for this CPU's idle thread, -3 exactly for any other TS_RUNNING thread, and -4 exactly for an invalid affinity after those. |
| RoundRobin.Dequeued | kernel/sched/policy_rr.c:74-83 | A failed dequeue leaves the state unchanged. |
| RoundRobin.DequeueRemoves | kernel/sched/policy_rr.c:79-81 | A successful dequeue removes exactly that thread from its queue and keeps the others in order. The thread is then in no queue and is marked TS_INTER. |
| RoundRobin.DequeueKeepsWf | kernel/sched/policy_rr.c:74-83 | Dequeue keeps the scheduler invariant. |
| RoundRobin.AfterChoose | kernel/sched/policy_rr.c:96-109 | With an empty queue, choosing changes nothing. |
| RoundRobin.ChooseFifo | kernel/sched/policy_rr.c:96-109 | FIFO choice. With a non-empty queue, the head is chosen and leaves the queue, the rest keep their order, and the head is marked TS_INTER. With an empty queue, the CPU's idle thread is chosen. |
| RoundRobin.ChooseKeepsWf | kernel/sched/policy_rr.c:96-109 | Choosing keeps the scheduler invariant. |
| RoundRobin.Preempted | kernel/sched/policy_rr.c:135-139 | Putting back the current thread keeps the set of threads. |
| RoundRobin.Scheduled | kernel/sched/policy_rr.c:127-146 | `rr_sched` returns -1, and changes nothing, exactly when the current thread has a context and budget left. Otherwise it returns 0, picks a target and refills that target's budget. |
| RoundRobin.PreemptKeepsWf | kernel/sched/policy_rr.c:135-139 | Re-queuing the current thread keeps the invariant, whatever the enqueue returned. |
| RoundRobin.SchedKeepsWf | kernel/sched/policy_rr.c:127-146 | A round of scheduling keeps the invariant: the idle thread never enters a queue, and no thread is queued twice. |
| RoundRobin.SchedRequeuesCurrent | kernel/sched/policy_rr.c:135-141 | A current thread that is out of budget and alone on its CPU is re-queued and chosen again. |
| RoundRobin.Ticked | kernel/sched/policy_rr.c:182-188 | A timer tick changes only the current thread's context. |
| RoundRobin.TicksCount | kernel/sched/policy_rr.c:182-188 | After n ticks the budget is the old budget minus n, but never below 0. Nothing else changes. |
| RoundRobin.BudgetRunsOut | kernel/sched/policy_rr.c:127-133 | After as many ticks as its budget, the current thread loses the CPU and `rr_sched` schedules. |
| RoundRobin.TickKeepsWf | kernel/sched/policy_rr.c:182-188 | A timer tick keeps the invariant. |
| RoundRobin.IdleCtxs | kernel/sched/policy_rr.c:161-171 | Initialisation creates exactly one idle context per CPU. |
| RoundRobin.EmptyQueues | kernel/sched/policy_rr.c:155-158 | Initialisation creates one empty queue per CPU. |
| RoundRobin.InitWf | kernel/sched/policy_rr.c:151-175 | The initial state is well formed. |
| RoundRobin.Scheduler.Init | kernel/sched/policy_rr.c:151-175 | After `rr_sched_init`, every queue is empty, no CPU has a current thread and each CPU has its idle context. |
| RoundRobin.Scheduler.Enqueue | kernel/sched/policy_rr.c:51-66 | Returns `rr_sched_enqueue`'s code, leaves the state that `Enqueued` gives and keeps the invariant. |
| RoundRobin.Scheduler.Dequeue | kernel/sched/policy_rr.c:74-83 | Returns `rr_sched_dequeue`'s code, leaves the state that `Dequeued` gives and keeps the invariant. |
| RoundRobin.Scheduler.ChooseThread | kernel/sched/policy_rr.c:96-109 | Returns the thread that `Chosen` names, leaves the state after the choice and keeps the invariant. |
| RoundRobin.Scheduler.Sched | kernel/sched/policy_rr.c:127-146 | Returns what `Scheduled` gives, leaves its state and keeps the invariant. |
| RoundRobin.Scheduler.HandleTimerIrq | kernel/sched/policy_rr.c:182-188 | Leaves the state after one tick and keeps the invariant. |
| Tmpfs.Bkdr | user/lab5/tmpfs/tmpfs.c:14-29 | The hash is a `u64` value. |
| Tmpfs.StrLen | user/lab5/tmpfs/tmpfs.c:20-23 | `strlen` returns the position of the first NUL. |
| Tmpfs.CStr | user/lab5/tmpfs/tmpfs.c:157 | The C string is a prefix: up to the first NUL, or the whole sequence when there is none. |
| Tmpfs.HashChars | user/lab5/tmpfs/tmpfs.c:14-29 | With len ≥ 0, the BKDR hash of the first len bytes. With len < 0, the hash of the bytes up to the first NUL. |
| Tmpfs.InitString | user/lab5/tmpfs/tmpfs.c:36-48 | Stores exactly the first len bytes, NUL-terminated, with their length and hash. The C string read back is those bytes. |
| Tmpfs.CStrAfter | user/lab5/tmpfs/tmpfs.c:44 | Some bytes followed by a NUL read back as those bytes. |
| Tmpfs.EmptyTable | user/lab5/tmpfs/tmpfs.c:70 | A new table has 1024 empty buckets. |
| Tmpfs.NewInode | user/lab5/tmpfs/tmpfs.c:64-84 | A new inode has size 0 and is a directory exactly when one is asked for. Its table has 1024 empty buckets; for a regular file this is the model's choice (see Left out). |
| Tmpfs.Bucket | user/lab5/tmpfs/tmpfs.c:154 | The bucket index is below 1024. |
| Tmpfs.Find | user/lab5/tmpfs/tmpfs.c:156-159 | A found index is inside the bucket. |
| Tmpfs.FindSpec | user/lab5/tmpfs/tmpfs.c:156-159 | The result is the first dentry whose length and C string match. It is None exactly when no dentry in the bucket matches. |
| Tmpfs.StoredName | user/lab5/tmpfs/tmpfs.c:36-48 | The C string of a well-formed stored name is its content. |
| Tmpfs.LookupSound | user/lab5/tmpfs/tmpfs.c:147-162 | Lookup finds only a dentry of an existing inode whose non-empty name is exactly the first len bytes, and only when those bytes are the whole name. |
| Tmpfs.LookupComplete | user/lab5/tmpfs/tmpfs.c:147-162 | Whenever the directory holds an entry with that name, in any bucket, lookup returns one. |
| Tmpfs.NewDentry | user/lab5/tmpfs/tmpfs.c:86-101 | The new dentry's name is well formed and equals the first len bytes. It names the next inode number. |
| Tmpfs.MknodResult | user/lab5/tmpfs/tmpfs.c:107-124 | The return value is 0 or `-ENOENT`, and `-ENOENT` exactly when len is 0, in which case nothing changes. |
| Tmpfs.MknodKeepsWf | user/lab5/tmpfs/tmpfs.c:107-124 | Mknod keeps the file system well formed. |
| Tmpfs.MknodThenLookup | user/lab5/tmpfs/tmpfs.c:107-162 | After mknod, the new inode has the requested kind and a lookup finds the new dentry. Every other directory is unchanged. |
| Tmpfs.MknodFinds | user/lab5/tmpfs/tmpfs.c:107-162 | Looking up a whole name that was just created finds its new dentry, which names an inode of the new file system. |
| Tmpfs.RemoveResult | user/lab5/tmpfs/tmpfs.c:233-284 | The return value is 0, `-ENOENT` or `-ENOTEMPTY`. On an error nothing changes. |
| Tmpfs.RemoveKeepsWf | user/lab5/tmpfs/tmpfs.c:233-284 | Remove keeps the file system well formed. |
| Tmpfs.RemoveTakesFirstMatch | user/lab5/tmpfs/tmpfs.c:245-283 | The result is `-ENOENT` exactly when lookup finds nothing, and `-ENOTEMPTY` for a non-empty directory. Otherwise exactly the first matching dentry leaves its bucket and the rest keep their order. |
| Tmpfs.RemoveUndoesMknod | user/lab5/tmpfs/tmpfs.c:233-284 | Removing a name that was just created restores the directory, whether or not the name existed before. |
| Tmpfs.RemoveHead | user/lab5/tmpfs/tmpfs.c:245-283 | Removing the name at the head of its bucket drops that dentry. |
| Tmpfs.FirstSlashSpec | user/lab5/tmpfs/tmpfs.c:199 | The lookahead stops at the first '/' or at the end, and passes no '/'. |
| Tmpfs.SkipSlashes | user/lab5/tmpfs/tmpfs.c:188 | Counts exactly the leading '/' bytes. |
| Tmpfs.Advance | user/lab5/tmpfs/tmpfs.c:208-223 | A component is looked up, and created as a directory when `mkdir_p` asks for it. The walk goes on only inside the file system, and without `mkdir_p` it changes nothing. Otherwise the walk stops: with `-EEXIST` without `mkdir_p`, and with `-ENOENT` (mkdir failing) with it, never `-EEXIST`. |
| Tmpfs.WalkGo | user/lab5/tmpfs/tmpfs.c:196-224 | A round that descends continues the walk after the component's '/'. |
| Tmpfs.WalkStop | user/lab5/tmpfs/tmpfs.c:212-221 | A round that stops ends the walk in the directory it was in. |
| Tmpfs.WalkLeaf | user/lab5/tmpfs/tmpfs.c:202-230 | The last component ends the walk: `-EINVAL` when it is empty, 0 otherwise. |
| Tmpfs.WalkFacts | user/lab5/tmpfs/tmpfs.c:196-230 | Every walk keeps the file system well formed and only adds inodes. `*dirat` is an inode, and the return value is one of the four C codes. On success the name left is a non-empty suffix of the path without '/'. |
| Tmpfs.WalkResolves | user/lab5/tmpfs/tmpfs.c:196-230 | Without `mkdir_p`, the walk is component-by-component resolution: `-EEXIST` exactly when a component is missing, and otherwise the directory reached and the leaf. |
| Tmpfs.SplitLastSuffix | user/lab5/tmpfs/tmpfs.c:223-226 | The leaf is a suffix of the path that was split. |
| Tmpfs.GrowsTrans | user/lab5/tmpfs/tmpfs.c:196-224 | Growth by created directories composes over the rounds of a walk. |
| Tmpfs.MknodGrows | user/lab5/tmpfs/tmpfs.c:107-124 | Creating a directory under a name that lookup does not find only adds: the new inode is a directory, every old inode keeps its kind, size and entries and gains only dentries for new inodes at bucket heads, and every lookup that succeeded still finds the same dentry. |
| Tmpfs.MknodGained | user/lab5/tmpfs/tmpfs.c:120-122 | An old inode only gains the new dentry at the head of one bucket, and that dentry names an inode that did not exist. |
| Tmpfs.MknodKeepsLookup | user/lab5/tmpfs/tmpfs.c:147-162 | After creating a missing name, a lookup that succeeded before finds the same dentry: the new head of the bucket does not match it. |
| Tmpfs.AdvanceCreates | user/lab5/tmpfs/tmpfs.c:211-222 | With `mkdir_p` a round stops exactly on an empty component, which mkdir refuses. Otherwise the component is found in the grown file system and names the directory the walk goes on from. |
| Tmpfs.WalkCreates | user/lab5/tmpfs/tmpfs.c:196-230 | With `mkdir_p` the walk only grows the file system. It fails with `-ENOENT` exactly when a component is empty. Otherwise it reaches the directory the components lead to in the grown file system and ends at the leaf, with `-EINVAL` exactly for an empty leaf. |
| Tmpfs.NamexCreates | user/lab5/tmpfs/tmpfs.c:172-231 | With `mkdir_p`, namex only grows the file system. It fails with `-ENOENT` exactly when a component is empty, leaving `*name` after the leading slashes. Otherwise `*dirat` is the directory the components lead to in the grown file system and `*name` the start of the leaf, with `-EINVAL` exactly for an empty leaf. |
| Tmpfs.ResolveKept | user/lab5/tmpfs/tmpfs.c:212-218 | Creating missing directories never redirects a path: what the components led to before, they lead to afterwards. |
| Tmpfs.NamexResolves | user/lab5/tmpfs/tmpfs.c:172-231 | Without `mkdir_p`, namex changes nothing. It resolves from the root after the leading slashes, or from `*dirat`. The error codes and the final `*dirat` and `*name` are those that resolution predicts. |
| Tmpfs.LeafIsSuffix | user/lab5/tmpfs/tmpfs.c:226 | The final `*name` points at the tail of the path. |
| Tmpfs.NamexIsWalk | user/lab5/tmpfs/tmpfs.c:185-194 | namex is the walk from where the leading slashes end: from the root for an absolute path, and from `*dirat` otherwise. |
| Tmpfs.FileSystem.Init | user/lab5/tmpfs/tmpfs.c:286-290 | The file system holds only an empty root directory. |
| Tmpfs.FileSystem.Lookup | user/lab5/tmpfs/tmpfs.c:147-162 | The loop returns the dentry that `LookupSpec` gives. |
| Tmpfs.FileSystem.Mknod | user/lab5/tmpfs/tmpfs.c:107-143 | Returns the code and leaves the state that `MknodResult` gives, keeping the file system well formed. |
| Tmpfs.FileSystem.Namex | user/lab5/tmpfs/tmpfs.c:172-231 | The loops compute exactly `NamexSpec`, keeping the file system well formed. What that is follows from `NamexResolves` without `mkdir_p` and from `NamexCreates` with it. |
| Tmpfs.FileSystem.Descend | user/lab5/tmpfs/tmpfs.c:198-223 | One loop round either stops with the walk's result and leaves the state unchanged, or goes on with the same walk result after the '/'. |
| Tmpfs.FileSystem.Remove | user/lab5/tmpfs/tmpfs.c:233-284 | Returns the code and leaves the state that `RemoveResult` gives, keeping the file system well formed. |
| Tmpfs.IsEmpty | user/lab5/tmpfs/tmpfs.c:269 | The bucket-by-bucket loop returns true exactly when no bucket holds a dentry. |
| Tmpfs.SearchBucket | user/lab5/tmpfs/tmpfs.c:247-252 | The bucket loop returns the first matching index, as `Find` gives it. |
| Tmpfs.LeadingSlashes | user/lab5/tmpfs/tmpfs.c:188 | The loop stops after exactly the leading '/' bytes. |
| Tmpfs.ComponentEnd | user/lab5/tmpfs/tmpfs.c:198-199 | The lookahead loop ends at the next '/' or at the end of the path. |
| Tmpfs.WalkNext | user/lab5/tmpfs/tmpfs.c:222-223 | A round that descends keeps the walk's result. |
| Tmpfs.WalkHalt | user/lab5/tmpfs/tmpfs.c:216-221 | A round that stops is the walk's result. |
| DirScan.LittleEndian | user/lab5/tmpfs/tmpfs.c:432-434 | A field is stored as exactly n bytes. |
| DirScan.LittleEndianRoundTrip | user/lab5/tmpfs/tmpfs.c:432-434 | Storing a value in n bytes and reading it back gives the value modulo 256^n. |
| DirScan.LittleEndianKeeps | user/lab5/tmpfs/tmpfs.c:432-434 | A value below 256^n reads back unchanged. |
| DirScan.Encode | user/lab5/tmpfs/tmpfs.c:427-436 | A record is the name's length plus 20 bytes long. |
| DirScan.DecodeEncode | user/lab5/tmpfs/tmpfs.c:432-436 | Every record whose fields fit their C types decodes back as itself, whatever follows it. |
| DirScan.PackSnoc | user/lab5/tmpfs/tmpfs.c:430-437 | Packing one more record appends its bytes. |
| DirScan.ParseCons | user/lab5/apps/init.c:154-158 | A reader decodes a record of the right size and goes on right after it. |
| DirScan.ParsePack | user/lab5/apps/init.c:154-158 | Records that are packed one after another, each with d_reclen equal to its length, read back as themselves. |
| DirScan.RecLenAsWritten | user/lab5/tmpfs/tmpfs.c:427-429 | The `unsigned short` length is below 2^16. It equals the record length whenever that length fits. |
| DirScan.OverrunAsWritten | user/lab5/tmpfs/tmpfs.c:427-438 | For a 65516-byte name, the length wraps to 0. The check as written accepts the record with no room left, although the record is 65536 bytes long. The corrected check refuses it. |
| DirScan.WrittenThen | user/lab5/tmpfs/tmpfs.c:430-437 | Two adjacent writes are one write of the joined bytes. |
| DirScan.DirentFiller | user/lab5/tmpfs/tmpfs.c:423-439 | When the record fits before `end`, it is stored at p, p moves past it and its length is returned. Otherwise the result is `-EAGAIN` and nothing is stored. |
| DirScan.VisitedInodes | user/lab5/tmpfs/tmpfs.c:450-452 | Every dentry the scan visits in a well-formed table names an existing inode. |
| DirScan.RecordOf | user/lab5/tmpfs/tmpfs.c:452-454 | The record for entry c has d_ino and d_off below 2^64, and d_reclen equal to its length. |
| DirScan.RecordOfIn | user/lab5/tmpfs/tmpfs.c:452-454 | The record for an entry holds the inode's size, the entry number, the inode's type and the C string of the name. |
| DirScan.Records | user/lab5/tmpfs/tmpfs.c:450-461 | There is one record for every entry from `start` on. |
| DirScan.RecordsIndex | user/lab5/tmpfs/tmpfs.c:451-454 | Record j is the record of entry start + j. |
| DirScan.Fit | user/lab5/tmpfs/tmpfs.c:450-461 | The greedy count never exceeds the number of records. |
| DirScan.FitSpec | user/lab5/tmpfs/tmpfs.c:450-461 | The records that are placed take at most the room, and each is sized. The next record, if any, does not fit in what is left. |
| DirScan.FitAfterSuffix | user/lab5/tmpfs/tmpfs.c:450-461 | Counting from record w is counting over the suffix from w. |
| DirScan.ScanParses | user/lab5/apps/init.c:154-158 | A reader of the buffer after `tfs_scan` finds, record by record, the records that were placed: the entries' names, numbered from `start`. |
| DirScan.PackedIsPack | user/lab5/tmpfs/tmpfs.c:430-437 | Packing record by record is packing the prefix. |
| DirScan.PlacedStep | user/lab5/tmpfs/tmpfs.c:454 | One more record placed by `dirent_filler` extends the bookkeeping. |
| DirScan.PlacedStop | user/lab5/tmpfs/tmpfs.c:455-458 | The record that does not fit ends the count. |
| DirScan.PlacedEnd | user/lab5/tmpfs/tmpfs.c:455-463 | When the scan stops, for lack of room or of records, w is the count and the bytes placed are the packed prefix. |
| DirScan.Place | user/lab5/tmpfs/tmpfs.c:452-458 | One `dirent_filler` call either places its record after the others or ends the count, leaving the buffer unchanged. |
| DirScan.Fill | user/lab5/tmpfs/tmpfs.c:450-463 | The loop stops at the entry that did not fit, or at the end. The buffer holds exactly the packed records that fit. |
| DirScan.Scan | user/lab5/tmpfs/tmpfs.c:441-464 | The records of the entries from `start` on are packed while they fit. The return value is cnt - start as a 32-bit int, which is negative when `start` is past the last entry. |

## Left out

- `Buddy.BuddyPool.GetPages`: in the source, the scan for an order can read past the 14 free lists. The model uses the corrected scan and returns None for every order ≥ 14, including order 14, which the guard lets through. The scan as written is kept as `Buddy.ScanAsWritten` (see Findings).
- `Buddy.BuddyPool.MergePage`: when the buddy lies outside the pool, the model stops merging. The source dereferences the NULL that `get_buddy_chunk` returns (see Findings).
- `Buddy.BuddyPool.GetFreeMemSize`: the result is stated modulo 2^64, as the source computes it. That the free bytes never exceed the pool size is not proved.
- `check()` in `buddy.c` is left out: it is a debugging walk over the free lists that prints and returns nothing used.
- `BUDDY_MAX_ORDER` is taken as 14. The header that defines it is not part of this model.
- The `order < 0` and `order > BUDDY_MAX_ORDER` tests on a freed page's order are left out. The invariant keeps every order below 14, so these tests can never fire.
- The page records are a Dafny array. Pointer arithmetic on `struct page` is modelled as indices. List nodes are modelled as sequences of indices, with `list_add` as a prepend and the tail (`prev`) as the last element.
- `set_page_table` and `flush_tlb` are left out: they are register writes and a TLB flush, with no state in the model.
- Physical memory is seen only through page-table pages. `get_pages(0)` is an explicit supply of fresh frame numbers, and an empty supply stands for the `BUG_ON` at `page_table.c:118`, reported as `Halted`.
- The descriptor keeps only the fields the kernel reads or writes. The other bits of a 64-bit descriptor are not modelled.
- `PageTable.PageTables.UnmapRange`: the model restarts each page's walk from the root. The source carries `cur_pt` over from the previous page (see Findings).
- `Buddy.BuddyPool.GetThenFree`: the free lists are restored as sets of blocks, not in node order, because `buddy_get_pages` takes the last node of a list and `buddy_free_pages` pushes at the front.
- `PageTable.PageTables.MapRange2M`: read-back is proved only for blocks that no later block of the same call aliases. `n_pages` is an `int`, so ranges of 2^31 blocks or more wrap.
- `query_in_pgtbl_level` with a level other than 1, 2 or 3 hits `BUG_ON` in the source. The model reports this as `Halted`.
- `RoundRobin.Dequeued`: a thread that passes the checks but is in no ready queue, or whose `cpuid` names no CPU, is only marked TS_INTER, and no queue changes. In the source, `list_del` then unlinks the node through whatever links it still holds. `list_del` is defined in `common/list.h`, which is not part of this model.
- `RoundRobin.Scheduler.Sched`: requires a context for a current thread that is not the CPU's idle thread. `RoundRobin.Scheduled`, `RoundRobin.Preempted`, `RoundRobin.PreemptKeepsWf` and `RoundRobin.SchedKeepsWf` require the same. For such a thread with a NULL context, `rr_sched_enqueue` returns -1 and `policy_rr.c:138` then writes through the NULL `thread_ctx`. The model does not represent that crash.
- `RoundRobin.Scheduler.HandleTimerIrq`: requires a context for the current thread. `RoundRobin.Ticked` and `RoundRobin.Ticks` require the same. The source reads `current->thread_ctx->sc` at `policy_rr.c:185` without a NULL test, so a current thread with no context is a crash the model does not represent.
- `switch_to_thread` is left out: it hands the target to context switching. `Sched` returns the target instead.
- `smp_get_cpu_id()` is a parameter (`cpu`). The big kernel lock and concurrency between CPUs are not modelled.
- The `kinfo`, `kwarn` and `kdebug` logging is left out.
- `PAGE_SIZE` (4096), `L2_PAGE_SIZE` (2 MiB), `PTP_ENTRIES` (512), `VMR_WRITE` (2), `VMR_EXEC` (4), `AP_HIGH_RW_EL0_RW` (1), `AP_HIGH_RO_EL0_RO` (3), `INNER_SHAREABLE` (3), `NORMAL_MEMORY` (4), `BUDDY_PAGE_SIZE` (4096), `ENOENT` (2), `EAGAIN` (11), `EEXIST` (17), `EINVAL` (22), `ENOTEMPTY` (39), `FS_REG` (1) and `FS_DIR` (2) take the values of the kernel's and the C library's headers, which are not part of this model.
- `Tmpfs.Bkdr`: the bytes of a name are taken as values 0 to 255, as plain `char` is unsigned under the AArch64 ABI. Where `char` is signed, bytes of 128 or more would be added as negative values.
- `PLAT_CPU_NUM` is taken as 4, `DEFAULT_BUDGET` as 2 and `NO_AFF` as -1. `INVALID_AFF(aff)` is taken as `aff >= PLAT_CPU_NUM || aff < NO_AFF` (`RoundRobin.InvalidAff`). The headers are not part of this model.
- Thread contexts are modelled only by the fields the policy reads: type, state, affinity, cpuid and budget. `create_thread_ctx` and `arch_idle_ctx_init` are modelled as the idle context they produce.
- `malloc` never fails in the model. The `-ENOMEM` paths of `init_string`, `new_inode`, `new_dent` and `tfs_namex`'s component buffer are left out.
- `Tmpfs.NewInode`: a regular file gets an empty 1024-bucket table. `new_reg` (`tmpfs.c:75-84`) leaves `dentries` uninitialised, so in the source a lookup, creation, removal, scan or walk through a regular file reads uninitialised memory, while the model finds nothing there, scans nothing, or creates inside it (with `mkdir_p`, the walk of "file/a/b" creates a directory "a" inside the file).
- `free`, `radix_free` and `htable_free` are left out. A removed inode stays in the inode map, unreachable. Inode numbers stand for inode pointers.
- A regular file's radix tree, file reads and writes, `tfs_load_image` and the IPC server loop are left out. `tfs_open_path` (`tmpfs.c:467-482`) is not part of this model.
- A hash table is 1024 buckets of dentry sequences. `htable_add` puts a dentry at the head of its bucket, and the bucket is `(u32)hash % 1024`. `for_each_in_htable` visits buckets in order, each from its head.
- `printf` and `WARN` are left out.
- `tfs_scan`: a dentry's inode that is missing from the inode map reads as size 0 and a regular file. A well-formed table never names a missing inode (`DirScan.VisitedInodes`). `d_ino` is filled with the inode's size, as the source does.
- `struct dirent` is taken with the glibc-style layout: d_ino (8 bytes), d_off (8), d_reclen (2), d_type (1) and the name, with no padding. The header is not part of this model.
- `DirScan.DirentFiller`: the record is stored only when its full length fits. The source compares the 16-bit truncated length (see Findings).

## Findings

| source | as written | input that shows it | evidently intended | confidence | as-written member | corrected member |
|---|---|---|---|---|---|---|
| kernel/mm/buddy.c:141-148 | The guard allows `order == BUDDY_MAX_ORDER`. The loop reads `free_lists[order_it].nr_free` before it tests `order_it` against the bound, so it reads `free_lists[BUDDY_MAX_ORDER]`, one past the array. | Any request when no list at or above `order` has a block (e.g. order 0 on an empty pool), or a request of order 14. | Only orders 0 to 13 are scanned, and the result is NULL when none has a block. | not executed | Buddy.ScanAsWritten, Buddy.ScanAsWrittenExamples | Buddy.BuddyPool.FindNonEmptyOrder |
| kernel/mm/buddy.c:174-175 | `merge_page` reads `buddy_page->allocated` without testing the NULL that `get_buddy_chunk` returns for an out-of-pool buddy. | `init_buddy` on 3 pages at 0x100000. When page 2 is freed, its buddy (page 3) is outside the pool. | An out-of-pool buddy means no merge. | not executed | Buddy.MergeRoundAsWritten, Buddy.MergeNullDerefExample | Buddy.BuddyPool.MergePage |
| kernel/mm/page_table.c:315-324 | `cur_pt` is set from `pgtbl` once, before the loop. Every `get_next_ptp` stores its next table back into it, so the second page's walk starts from the frame that the first page's level-3 descriptor names. | Unmapping two mapped pages at va 0 and 0x1000: the second walk reads data frame 100 as a page table. | Every page's walk starts from the root table. | not executed | PageTable.UnmapAsWritten, PageTable.UnmapAsWrittenExample | PageTable.PageTables.UnmapRange |
| user/lab5/tmpfs/tmpfs.c:427-431 | The record length is computed into an `unsigned short`, and only that truncated length is compared with `end`. | A 65516-byte name gives length 0: the record is accepted with no room left, 65536 bytes are written, and the call returns 0. | The full record length is compared with the room left. | not executed | DirScan.RecLenAsWritten, DirScan.OverrunAsWritten | DirScan.DirentFiller |
