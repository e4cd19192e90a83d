# DutchVMS kernel model

A Dafny model of the parts of the DutchVMS (BadgeVMS) kernel that hold state of
their own, with proofs of what that state keeps. `dafny verify dfyconfig.toml`
checks all of it.

| file | part of the kernel |
|---|---|
| `BitOps.dfy`, `Dyadic.dfy` | block orders: leading zeroes, rounding up, buddy indices |
| `BlockLists.dfy`, `Tiling.dfy`, `Buddy.dfy`, `Pool.dfy` | the buddy allocator: its circular lists, its blocks as a tiling, its table, its operations |
| `Padding.dfy`, `TwoRanges.dfy` | requests that end past a pool; two requests of one size |
| `Frames.dfy`, `Mmu.dfy` | physical pages and page chains; the MMU table |
| `AddressSpaces.dfy`, `Framebuffers.dfy`, `Memory.dfy` | heaps, framebuffers and the running task over one table and one page allocator |
| `Rects.dfy`, `RectMath.dfy`, `PpaSplit.dfy`, `Windows.dfy`, `Pixels.dfy` | the compositor: rectangle algebra, the merge, the strip workaround, the window ring and visible regions, the rotated blit |
| `Pids.dfy`, `Processes.dfy` | process ids; Zeus, Hades and the shared thread structures |
| `Systems.dfy` | the process table and memory together |
| `Paths.dfy`, `LogicalNames.dfy`, `LogicalPaths.dfy`, `TargetLists.dfy` | device paths and the two conversions of them; logical names and the lists they are set to |
| `Deploy.dfy` | the deploy protocol on a serial line |
| `FileNames.dfy`, `Sessions.dfy`, `Spellings.dfy` | which file a path names; what a host gets for its requests; the spellings of one file |

Code that changes things in place is modelled as classes and methods over the
same arrays, links and counters; what the code computes step by step is proved
equal to a function or tied to the old state, and the properties are proved of
that. Memory is counted in pages, addresses are page numbers. N is 2^max_order,
W is max_order_waste, so N - W pages are backed by memory and waste starts at
N - 2W.

Some predicates are written `forall open {:trigger PIf(open, x)} :: PIf(open, x)`, with
the content in `PIf`, as `open ==> ...`. That says the same as the content, and keeps
the verifier from unfolding it where it is only passed on: a proof that needs the
content asserts `PIf(true, x)`. To read a contract with `P`, read the body of `PIf`.
`Has(aspect)` and `Claims(k, claim)` name the parts of an invariant in the same way.

## Main results

- **Buddy allocator.** The blocks of a pool always tile [0, N), and no two free
  buddies are left apart. So the blocks on every list are a function of the live
  blocks (`FreeBlocksAreCanonical`, `TilingIsDeterminedByLive`,
  `HistoryIndependence`): history leaves no trace, freeing everything gives back
  the first block, and the rollback of a failed `pages_allocate` is complete. A
  request succeeds exactly when the live blocks leave a region for it, and is cut
  from the smallest such region.
- **Memory.** Over every run of breaks, switches, spawns, reaps, window creations,
  exchanges and destructions the MMU table is exactly the kernel heap, the
  framebuffers and the mapped task; every physical page in use has one owner;
  guard pages stay unmapped; every operation has its effect exactly when there is
  all it takes; and none of the abort paths is reached (`Run`).
- **Compositor.** Occlusion is exact up to the cap of 64 rectangles, and visible
  regions of different windows never overlap even when pieces are dropped, as long as
  no strip of one row grows (`ShownIsExposed`, `VisibleRegionsNeverOverlap`). The
  strip workaround ends for every positive scale, and it is exact when it drops strips
  and when it changes what is covered. The blit writes exactly the rotated rectangle,
  each pixel from its own place in the source. The window ring is what any sequence of
  steps makes of it, and a render walk over stale regions that meets no window without
  a task leaves every window showing what is right (`RenderWalk`).
- **Processes.** Ids are unique and at most one is ever lost. Reference counts are
  the numbers of unreaped tasks, and structures go with their last task, once. Run
  together with memory, the pages of a process go back exactly when its last task is
  reaped (`GoesWithTheLastTask`), and nothing leaks (`EveryHeapHasATask`).
- **Names.** Parsing inverts printing; the two path conversions agree but for one
  case; joining puts directories in order; chains of logical names resolve up to a
  depth that is given exactly, and so do paths along the devices that are names
  (`RouteResolves`).
- **Deploy.** A run of the listener is tied to its bytes frame by frame: every
  request whose bytes arrive is answered once; an OK to a PUT means that the file
  holds exactly the data that the checksum covers; a host reads back exactly the
  answers that were given. On a disk that never fails the outcome of a request is
  determined, a GET gets what a PUT put, across all that happens to other files
  (`PutThenGet`), and a host that sends whole requests sees a plain store of files
  (`Serve`). Files are told apart by what paths name: device and names, in whatever
  spelling (`NormalExactly`, `RequestsNameOneFile`).

## Findings

Where a property one would expect does not hold of the code, the model keeps the
code as it is, and a lemma gives the condition under which the property holds.

- `buddy_alloc.c:482` compares bytes with pages: a request that rounds to the
  highest order is always refused (`BuddyPool.Pool.LargestRequest`).
- The waste test of `pool_find_block` sees one page, and entries past the metadata
  read as zero (`SuitsExactly`). A request of n pages can be served past the memory of
  a pool exactly when a block for it can start, above page 0 and below the waste, where
  n pages end past the metadata: at all other sizes every served request is backed
  (`ServedIsBacked`), and at these a run of the pool serves one past the end
  (`ServesPastTheEnd`, and `LargeRequestMeetsPadding` for 200 pages of 400).
- `why_sbrk` checks the break against the end of external memory only
  (`memory.c:448`). A process never meets anything there; the kernel heap aborts
  the system exactly when it would reach the framebuffers (`Sbrk`).
- A task that runs on the kernel's thread structure aborts when it is switched in,
  exactly when the kernel heap is not empty (`RemapTask`, `KernelHeapIsMapped`).
- The kernel's thread structure starts without a reference. It is there exactly as
  long as no thread has been spawned from the kernel task, or one such thread is left
  (`KernelStays`): the last one that is reaped takes it along, and so does a spawn
  that fails late while there is none (`KernelThreadTakesTheKernel`,
  `FailedKernelThreadTakesTheKernel`).
- A framebuffer without pixels has no pages, and `map_regions` reads the address of
  the last one before it looks whether there is any: creating one reads through a null
  pointer exactly when it gets a range of addresses and a container
  (`FramebufferAllocate`, `WindowFramebufferCreate`).
- After an exchange, freeing one framebuffer of a pair alone would leave pages
  mapped in the range it gives back (`FreedAloneLeavesItsRangeClear`). Destroying
  the window frees both, so no run meets this (`WindowDestroy`).
- The second half of a problematic strip of two or three rows is as high as the strip,
  so it is split until the array is full. Counting such a strip as more than fit, the
  loop drops nothing exactly when the final pieces of all strips fit (`SplitUntilFine`).
- A problematic strip of one row becomes rows above and at itself (`StripGrows`). When
  nothing is dropped, the loop keeps the cover exactly when there is no such strip with
  any width (`SplitUntilFine`); `FailingScales` shows both kinds of strip.
- The ring of ids starts with its tail on the last entry. A release loses an id exactly
  when the tail entry still holds one (`LosesExactly`, `Free`). The first release loses
  127 unless all ids had been handed out (`FirstReleaseLoses`); otherwise a later one
  may lose another (`LaterReleaseLoses`). At most one is ever lost.
- The loop over the children of a dead task stops before id 127: all children are named
  exactly when 127 is not one of them (`Orphans`). It can be one (`LastChildIsMissed`)
  until the ring has lost it (`LastPidLost`).
- A spawn that fails still tells its caller the id, which is then that of no task
  (`Spawn`).
- `remove_window` brings the window behind the removed one to the front, also when
  the removed one was in the background (`RemoveWindow`). The order of the others
  survives exactly when the front or the back window goes (`RemovalKeepsOrder`).
- With empty brackets before a file the two path conversions differ by a slash
  (`ConversionsAgree`), and taking apart and joining drops the brackets
  (`ConcatOfParts`).
- A path with more than 25 directories overruns the array of the logical-name
  parser (`PathOverruns`).
- A PUT whose checksum is wrong or whose data stops removes the file, also one that was
  there before (`PutGuarantee`). WRITE leaves no file when it could not be given its
  size, and a file of that size when a write failed (`HandlePutStreamed`).
- The deploy conversion keeps doubled slashes and slashes at the end
  (`deploy_protocol.c:222`), which the file system skips: one file has several spellings
  (`BracketsNameTheFile`), so a PUT under one of them replaces what was put under another
  (`PutTwice`), and deleting a directory under one of them removes its files
  (`DeleteAbove`). Two requests name one file exactly when the normal forms of their paths
  agree (`RequestsNameOneFile`).
- The render loop marks the regions as valid also after a walk that removed a window
  (`compositor.c:919`), though the windows behind it were calculated with it in front, and
  those it did not come to were not calculated. When no piece was dropped, and without the
  PPA, regions that were right stay so exactly when what is now in front hides the same
  pixels of the window as before (`RightBehindOthers`); `BlankAfterRemoval` shows a window
  that stays blank.
- Of a list behind a bare name the first entry is taken whatever index is asked for, and
  its length is told (`NameThenName`).
- `logical_name_set` looks for white space behind an element at the comma itself, so it
  stays there; and a blank element leaves the comma behind it to the next one. The targets
  are what is meant exactly when no element but the last is blank and white space follows
  none (`FoundIsMeant`, `ListsThatGoWrong`).
- `get_order` of a 32-bit size above 2^31 is 0 (`GetOrder`).

## Model

| member | source | states |
|---|---|---|
| `BitOps.Clz32` | badgevms/bitops.h:11-37 | The software form counts the leading zeroes of every 32-bit word: shifted down by 31 less the count, the word is 1; for 0 the count is 32. |
| `BitOps.NextIsPower` | badgevms/buddy_alloc.c:122-137 | The rounded size is a power of two, no smaller than the size and less than twice it, up to 2^31; beyond that it is 0. |
| `BitOps.LeastOrderIsOrder` | badgevms/buddy_alloc.c:139-147 | An order that holds a word-sized request while the order below does not is the order of the number the word stands for: bit tricks and power-of-two arithmetic agree. |
| `BitOps.GetOrder` | badgevms/buddy_alloc.c:139-147 | Through rounding up and counting zeroes, the result is the least order whose block holds the request, for every size up to 2^31; above that it is 0. |
| `Dyadic.OrderForUnique` | badgevms/buddy_alloc.c:139-147 | A block order that is large enough while the one below is not is the order of the request: there is no other. |
| `Dyadic.FlipBitInvolutive` | badgevms/buddy_alloc.c:217-238 | The buddy of the buddy is the block itself. |
| `Dyadic.AlignedHalves` | badgevms/buddy_alloc.c:217-238 | A block and its buddy are the two halves of one aligned block, the lower of them the one aligned to it. |
| `Dyadic.NestedOrDisjoint` | badgevms/buddy_alloc.c:179-198 | Two aligned blocks are disjoint, or the smaller lies inside the larger. |
| `BlockLists.AppendKeepsRings` | badgevms/buddy_alloc.c:154-161 | Linking an entry in before the head keeps every list a ring through its head in both directions, the other lists untouched. |
| `BlockLists.CutKeepsRings` | badgevms/buddy_alloc.c:163-169 | Unlinking an entry keeps every list a ring in both directions. |
| `BlockLists.Lists.MarkedWhenOnList` | badgevms/buddy_alloc.c:154-177 | in_list is set exactly for the entries that are on a list. |
| `BlockLists.Lists.constructor` | badgevms/buddy_alloc.c:149-152 | Every list starts empty, with nothing marked. |
| `BlockLists.Lists.PushBack` | badgevms/buddy_alloc.c:154-161 | The entry becomes the last of its list; no other list changes. |
| `BlockLists.Lists.Remove` | badgevms/buddy_alloc.c:163-169 | The entry leaves its list, the order of the rest kept, and is on no list after. |
| `BlockLists.Lists.Empty` | badgevms/buddy_alloc.c:171-177 | A list is reported empty exactly when nothing is on it. |
| `Tiling.SplitKeepsTiles` | badgevms/buddy_alloc.c:185-198 | Splitting a block leaves an aligned partition of all page numbers. |
| `Tiling.MergeKeepsTiles` | badgevms/buddy_alloc.c:217-238 | So does joining two equal buddies. |
| `Tiling.MergeKeepsCoalesced` | badgevms/buddy_alloc.c:217-270 | Joining the block in hand with its free buddy leaves no two free equal buddies. |
| `Tiling.FreeBlocksAreCanonical` | badgevms/buddy_alloc.c:185-270 | In a coalesced tiling the free blocks are exactly the largest aligned regions that no live block touches. |
| `Tiling.TilingIsDeterminedByLive` | badgevms/buddy_alloc.c:185-270 | Two coalesced tilings with the same live blocks are the same tiling, with the same blocks free. |
| `Tiling.NothingLive` | badgevms/buddy_alloc.c:248-270 | With nothing live a coalesced pool is one block of the highest order. |
| `Tiling.AllPages` | badgevms/buddy_alloc.c:371-392 | The blocks of a tiling have 2^max_order pages together. |
| `Buddy.SplitHolds` | badgevms/buddy_alloc.c:185-198 | Splitting keeps the whole table consistent: sizes, entries, partition and list membership, with the right half on the free or the waste list as its index says. |
| `Buddy.RightHalfInside` | badgevms/buddy_alloc.c:185-198 | The right half a split makes has an entry below `pages`, because waste starts at N - 2W. |
| `Buddy.BuddyIndex` | badgevms/buddy_alloc.c:217-238 | The buddy index of a block below the highest order is that of an entry below `pages`; at the highest order it is the one zeroed entry past the table. |
| `Buddy.MergeHolds` | badgevms/buddy_alloc.c:217-238 | Joining with a listed buddy keeps the whole table consistent. |
| `Buddy.TakeHolds` | badgevms/buddy_alloc.c:425-443 | Taking a block off its list keeps the whole table consistent. |
| `Buddy.PutHolds` | badgevms/buddy_alloc.c:248-270 | Listing a block whose buddy is not free at its order keeps the whole table consistent. |
| `Buddy.OnSomeWhenFree` | badgevms/buddy_alloc.c:217-238 | A block entry is on a list exactly when it starts a free block, and then its recorded order is the order of that block. |
| `Buddy.OnFreeList` | badgevms/buddy_alloc.c:425-443 | A block on free list k has order k, is not live, starts below the waste, and lies in the pool. |
| `Buddy.AllHandedOut` | badgevms/buddy_alloc.c:425-443 | When only waste is listed and all live blocks are single pages, every page below the waste is live. |
| `BuddyPool.Pool.constructor` | badgevms/buddy_alloc.c:272-352 | A new pool is one free block of the highest order, with nothing live, the waste marked from N - 2W on, and both counters right. |
| `BuddyPool.Pool.SplitBlock` | badgevms/buddy_alloc.c:185-198 | The block in hand becomes its left half, the right half is listed; lists of higher orders do not change. |
| `BuddyPool.Pool.TryMergeBuddy` | badgevms/buddy_alloc.c:217-238 | Joins exactly when the buddy is free at the same order, and answers the lower of the two; if not, nothing changes. |
| `BuddyPool.Pool.FreeBlock` | badgevms/buddy_alloc.c:248-270 | The block is no longer live, no other live block changes, the invariant of the pool holds, free_pages grows by the size of the block. |
| `BuddyPool.Pool.FindBlock` | badgevms/buddy_alloc.c:425-443 | A suitable block of the smallest order that has one is taken off its list, or there is no suitable block on any list and nothing changes. |
| `BuddyPool.Pool.SearchList` | badgevms/buddy_alloc.c:425-443 | Walking a list backwards finds a block that passes the waste test, if the list has one. |
| `BuddyPool.Pool.CandidateIsListed` | badgevms/buddy_alloc.c:425-443 | The blocks that the search may choose are exactly the maximal free regions below the waste that pass its test. |
| `BuddyPool.Pool.AllocatePages` | badgevms/buddy_alloc.c:457-519 | A request is served exactly when the live blocks leave a region for it, from a region of the least order that does, next to the live blocks and overlapping none. |
| `BuddyPool.FewestPages` | badgevms/buddy_alloc.c:457-470 | A size in bytes rounds up to the fewest pages that hold it. |
| `BuddyPool.Pool.Allocate` | badgevms/buddy_alloc.c:457-519 | Succeeds exactly when the pages are counted free, the order is below the highest, and some free region passes the test. The block is new, best fit and apart from all live blocks, and has memory behind it if all places for it have; without one nothing changes. For single pages failure means that every page below the waste is live. |
| `BuddyPool.Pool.Deallocate` | badgevms/buddy_alloc.c:556-569 | An address that is not page aligned or not in the pool is ignored; for another the block is freed, and free_pages is right. |
| `BuddyPool.Pool.SuitsExactly` | badgevms/buddy_alloc.c:425-443 | The test of the last requested page passes exactly when the request ends below the waste, or past the end of the metadata. |
| `BuddyPool.Pool.ServedIsBacked` | badgevms/buddy_alloc.c:425-519 | A served request has memory behind all its pages when at every place where a block for it can start the test catches what goes too far. |
| `Padding.ServesPastTheEnd` | badgevms/buddy_alloc.c:425-519 | The converse: at every other size some run of the pool, which is given, ends with that request served past the end of the memory. |
| `Padding.LargeRequestMeetsPadding` | badgevms/buddy_alloc.c:425-519 | In a pool of 400 pages, after one page has been taken, a request of 200 pages is served at page 256 and ends past the memory. |
| `Padding.EnoughLeft` | badgevms/buddy_alloc.c:90-103 | With one page live in each other block, the counter does not keep the last block from being served. |
| `Padding.OnlyTheLastIsLeft` | badgevms/buddy_alloc.c:425-443 | And the last block is the only place where the search can find one. |
| `TwoRanges.SecondPlace` | badgevms/buddy_alloc.c:457-519 | After a request has been served, another of the same size finds a place exactly when there were two before: two regions, or one with room for two blocks. Which of several best fits was taken does not matter. |
| `BuddyPool.Pool.LargestRequest` | badgevms/buddy_alloc.c:482-488 | A request that rounds to the highest order always has more bytes than the pool has pages, so it is always refused. |
| `BuddyPool.Pool.FreePagesIsListedPages` | badgevms/buddy_alloc.c:385-390 | free_pages is the total that print_allocator calculates from the lists, in every state. |
| `BuddyPool.Pool.ListsAreCanonical` | badgevms/buddy_alloc.c:248-270 | The blocks of each free list, and of the waste list, are a function of the live blocks. |
| `BuddyPool.HistoryIndependence` | badgevms/buddy_alloc.c:185-270 | Two reachable tables of one size with the same live blocks have the same blocks on each list, whatever came before. |
| `BuddyPool.CountersFollow` | badgevms/buddy_alloc.c:457-519 | free_pages and max_order_free follow from the blocks on the lists. |
| `BuddyPool.AllFreed` | badgevms/buddy_alloc.c:248-270 | Freeing everything, in any order, gives back the one block init_pool started from, with its counters. |
| `Frames.PageAllocate` | badgevms/memory.c:596-603 | A page nobody has, or 0 exactly when no page is left. |
| `Frames.PageDeallocate` | badgevms/memory.c:592-594 | The page is no longer in use, and no other page changes. |
| `Frames.Counter` | badgevms/memory.c:596-603 | The count of a pool of single pages is the pages that exist less those in use; none is left exactly when all below the waste are in use. |
| `Frames.PagesDeallocate` | badgevms/memory.c:299-313 | Exactly the pages of the list go back. |
| `Frames.PagesAllocate` | badgevms/memory.c:315-398 | Succeeds exactly when there are enough pages and range structures, with a descending chain of new pages from the address up; if not, the rollback leaves every list of the pool with the blocks it had. |
| `Frames.SameUsedSamePool` | badgevms/memory.c:353-365 | The pages in use determine the lists and counters of the page allocator. |
| `Mmu.Mmu.MapRegion` | badgevms/memory.c:151-184 | Goes through exactly when no entry of the region is mapped, and then changes just the entries of the region. |
| `Mmu.Mmu.UnmapRegion` | badgevms/memory.c:195-215 | Goes through exactly when every entry of the region is mapped, and then removes just those. |
| `Mmu.Mmu.MapRegions` | badgevms/memory.c:217-244 | A whole chain is mapped exactly when its span is clear; every page of the chain is then where the chain says. |
| `Mmu.Mmu.UnmapRegions` | badgevms/memory.c:424-434 | A whole chain is unmapped exactly when its span is all mapped. |
| `AddressSpaces.MappedWhere` | badgevms/memory.c:151-297 | A mapped page is the metadata page or belongs to the kernel heap, the current task or a framebuffer, and lies in the window of its owner. |
| `AddressSpaces.OneOwner` | badgevms/memory.c:299-398 | A physical page is in use exactly when it has an owner - one heap page, one framebuffer page or the metadata - and it never has two. |
| `AddressSpaces.GuardPagesUnmapped` | badgevms/memory.c:400-434 | The page above each framebuffer is not mapped, in every state. |
| `AddressSpaces.ClearAbove` | badgevms/memory.c:436-489 | The pages above an active heap are free to map exactly when they stay in its window. |
| `AddressSpaces.GrownHolds` | badgevms/memory.c:446-489 | A heap that grows keeps shapes, windows, single ownership, and the table exact. |
| `AddressSpaces.ShrunkHolds` | badgevms/memory.c:490-573 | So does a heap that gives back its highest page. |
| `AddressSpaces.ClearForSwitch` | badgevms/memory.c:246-265 | With no process mapped, the pages of the task that is switched in are all free to map. |
| `AddressSpaces.KernelHeapIsMapped` | badgevms/memory.c:246-265 | A task on the kernel's thread structure could be mapped in only while the kernel heap is empty. |
| `AddressSpaces.SwitchedInHolds` | badgevms/memory.c:246-265 | After mapping a task in, the table shows exactly the kernel heap, the framebuffers, the metadata and that task. |
| `AddressSpaces.SwitchedOutHolds` | badgevms/memory.c:267-297 | After unmapping it, exactly the rest. |
| `AddressSpaces.ThreadGoneHolds` | badgevms/task.c:196-267 | The pages of a thread structure that no task uses are mapped nowhere and owned by it alone, and can go. |
| `AddressSpaces.TableIsDetermined` | badgevms/memory.c:151-297 | The MMU table is a function of the heaps, the framebuffers and the current task. |
| `AddressSpaces.StateIsDetermined` | badgevms/memory.c:151-297 | So are the pages in use. |
| `Framebuffers.UsedPages` | badgevms/memory.c:299-398 | A physical page is in use exactly when some heap or framebuffer lists it, or it is the metadata page. |
| `Framebuffers.ListsApart` | badgevms/memory.c:299-398 | No physical page is in the lists of two heaps, of two framebuffers, or of a heap and a framebuffer. |
| `Framebuffers.NewBufferHolds` | badgevms/compositor/compositor.c:332-405 | A framebuffer of new pages in a free range keeps the invariant of the address space. |
| `Framebuffers.BufferGoneHolds` | badgevms/compositor/compositor.c:407-415 | So does unmapping a framebuffer and giving its pages back. |
| `Framebuffers.SwappedHolds` | badgevms/compositor/compositor.c:300-330 | So does exchanging two framebuffers of one size. |
| `Framebuffers.SwapExchanges` | badgevms/compositor/compositor.c:300-330 | Page by page, each range shows after the exchange the physical page that the other showed before. |
| `Framebuffers.SwapLeavesTheRest` | badgevms/compositor/compositor.c:300-330 | No page outside the two ranges moves. |
| `Framebuffers.SwapTwice` | badgevms/compositor/compositor.c:286-330 | Exchanging twice gives back the whole state: the exchange is its own inverse. |
| `Framebuffers.NewBlockIsFree` | badgevms/memory.c:400-410 | A range that the framebuffer allocator hands out overlaps no framebuffer, wherever exchanges have put those. |
| `Framebuffers.FreedAloneLeavesItsRangeClear` | badgevms/compositor/compositor.c:407-415 | Freeing one framebuffer leaves the range it gives back clear exactly when it is mapped where it was made. |
| `Memory.Memory.constructor` | badgevms/memory.c:686-766 | After start-up page 0 and one page for the framebuffer allocator are mapped, that page is the only one in use, and the invariant holds. |
| `Memory.Memory.Grow` | badgevms/memory.c:446-489 | Grows the heap of the running task exactly when addresses, pages and structures suffice; otherwise nothing changes. It aborts exactly when the new pages would leave the window, which only the kernel heap can. |
| `Memory.Memory.Shrink` | badgevms/memory.c:490-573 | Gives back min(request, size) pages from the top and nothing below the new break, never through the partial-range branch, and never aborts. |
| `Memory.Memory.Sbrk` | badgevms/memory.c:436-590 | Answers the old break or none; moves the break by the increment, no further down than the start; pages below both breaks stay the same; aborts exactly for a kernel heap that would reach the framebuffers. |
| `Memory.GrowThenShrink` | badgevms/memory.c:436-590 | Growing and shrinking by as much gives back the whole state, the MMU table included. |
| `Memory.Memory.UnmapTask` | badgevms/memory.c:267-297 | Aborts exactly for a task other than the one that is mapped; otherwise takes off just its pages and leaves every heap as it was. |
| `Memory.Memory.RemapTask` | badgevms/memory.c:246-265 | Aborts exactly while another task is mapped, or for a task on the kernel's structure when the kernel heap is not empty. |
| `Memory.Memory.SwitchTo` | badgevms/task.c:585-601 | A context switch between any two tasks aborts nowhere and changes only what is mapped. |
| `Memory.Memory.NewThread` | badgevms/task.c:171-194 | A new structure has no pages; everything else stays. |
| `Memory.Memory.RemoveTask` | badgevms/task.c:607-678 | A task that is reaped and does not run leaves the heaps and the table as they are. |
| `Memory.Memory.ThreadDestroy` | badgevms/task.c:196-267 | Exactly the pages of a structure that no task uses go back to the page allocator. |
| `Memory.Memory.VaddrAllocate` | badgevms/memory.c:400-410 | A range for the pixels and a guard page exactly when the framebuffer allocator can serve one; no framebuffer is mapped in it. |
| `Memory.Memory.VaddrDeallocate` | badgevms/memory.c:412-416 | Exactly the range goes back. |
| `Memory.Memory.BackBuffer` | badgevms/compositor/compositor.c:363-380 | With the range reserved, mapping its pages never aborts; without enough pages nothing changes. |
| `Memory.Memory.FramebufferAllocate` | badgevms/compositor/compositor.c:332-405 | Succeeds exactly when there are pixels, a range, a container, and enough pages and structures; otherwise every resource taken goes back and the state is as before. Without pixels it reads through a null pointer exactly when it gets a range and a container. It never aborts. |
| `Memory.Memory.FramebufferFree` | badgevms/compositor/compositor.c:407-415 | Unmaps the framebuffer wherever it is, gives back exactly its pages and its own range, and never aborts. |
| `Memory.Memory.WindowDestroy` | badgevms/compositor/compositor.c:506-518 | Frees both framebuffers of a window without an abort, after any number of exchanges, and restores the invariant. |
| `Memory.ReassignVaddr` | badgevms/compositor/compositor.c:286-298 | The ranges keep their physical pages and order, and end just below the guard page of the new place. |
| `Memory.Memory.FramebufferSwap` | badgevms/compositor/compositor.c:300-330 | Never aborts on the two framebuffers of a window; afterwards each is mapped where the other was, and nothing else has changed. |
| `Memory.Memory.WindowFramebufferCreate` | badgevms/compositor/compositor.c:954-990 | One framebuffer or two for a window that has none, exactly when there is all they take - for two, a second range after whichever was taken first; if the second cannot be made the first goes, and the state is as before. Faults exactly when there are no pixels but a range and a container. |
| `Memory.Memory.Take` | badgevms/memory.c:151-590 | Each allowed operation - break, switch, spawn, reap, destroy, window create, swap, close - has its own effect, exactly when it should, keeps the invariant and does not abort. |
| `Memory.Memory.Run` | badgevms/memory.c:151-590 | No run of such operations in any order aborts; the states it passes are given, each follows from the one before by the effect of its operation, and all have the invariant. |
| `Rects.IntersectionIsCommonPixels` | badgevms/compositor/rect_math.h:45-53 | The intersection covers exactly the pixels both cover. |
| `Rects.IntersectsWhenCommonPixel` | badgevms/compositor/rect_math.h:41-43 | Two rectangles intersect exactly when some pixel is in both. |
| `Rects.SubtractIsExact` | badgevms/compositor/rect_math.c:82-126 | Each pixel of `a` outside `b` is in exactly one piece, and no other pixel is in any, for rectangles of every size. |
| `RectMath.MergeAtCount` | badgevms/compositor/rect_math.c:22-80 | Joining two rectangles that share a full edge covers every pixel as often as before. |
| `RectMath.MergeableExactly` | badgevms/compositor/rect_math.c:22-80 | Two rectangles with pixels share a full edge exactly when they have no pixel in common and make up one rectangle. |
| `RectMath.RectArray.MergeHorizontal` | badgevms/compositor/rect_math.c:28-51 | Joins one pair side by side, with one rectangle less and the same cover, or there is no such pair and nothing changes. |
| `RectMath.RectArray.MergeVertical` | badgevms/compositor/rect_math.c:53-78 | The same for pairs one above the other. |
| `RectMath.RectArray.MergeRectangles` | badgevms/compositor/rect_math.c:22-80 | Terminates with no more rectangles than before, every pixel covered as often as before, and no two rectangles that share a full edge. |
| `PpaSplit.SplitRects` | badgevms/compositor/rect_math.c:133-176 | The array holds the first 64 of the pieces, every problematic rectangle split; the count is the old one plus the splits less the dropped; reports whether anything was split. |
| `PpaSplit.ProblematicExactly` | badgevms/compositor/rect_math.c:128-131 | A height is problematic exactly when, scaled, it has one or more blocks of 32 rows and one whole row over. |
| `PpaSplit.HalvesStack` | badgevms/compositor/rect_math.c:133-175 | A problematic rectangle is cut in an upper part and one of two or three rows more right below it; others stay. |
| `PpaSplit.NumberDecreases` | badgevms/compositor/rect_math.c:133-176 | A first difference downwards makes the number whose digits are the heights smaller, whatever follows. |
| `PpaSplit.SplitDecreases` | badgevms/compositor/rect_math.c:133-176 | Each pass that splits something makes that number smaller, also when a second half is as high as the whole. |
| `PpaSplit.SplitAllCount` | badgevms/compositor/rect_math.c:133-176 | A pass never covers a pixel less often, and as often when no strip of one row is to be split. |
| `PpaSplit.StripGrows` | badgevms/compositor/rect_math.c:133-176 | A strip of one row that is to be split covers the row above it once more, in every list of rectangles. |
| `PpaSplit.SplitAllPieces` | badgevms/compositor/rect_math.c:133-176 | A pass does not change how many strips there will be in the end, as long as they all fit. |
| `PpaSplit.ThinStripNeverFits` | badgevms/compositor/rect_math.c:133-176 | A strip of two or three rows that is to be split is more than fits. |
| `PpaSplit.FailingScales` | badgevms/compositor/rect_math.c:128-176 | There are scales at which one row, and two and three rows, are to be split. |
| `PpaSplit.SmallHalvesAreFine` | badgevms/compositor/rect_math.c:128-176 | Halves never turn into problematic strips of one row. |
| `PpaSplit.OneRowExcludesOthers` | badgevms/compositor/rect_math.c:128-131 | If one row is problematic at a scale, two, four and five rows are not. |
| `PpaSplit.SplitUntilFine` | badgevms/compositor/compositor.c:253-260 | The loop ends for every positive scale with no problematic height. Nothing is dropped exactly when the final pieces fit in 64, and then there are just so many, and every pixel is covered as often as before exactly when no strip of one row was to be split; without such a strip no pixel ever gains cover. |
| `Windows.OccludedCount` | badgevms/compositor/compositor.c:211-252 | A pixel is in exactly one piece when it is content and under no window in front, and in none otherwise; the cap of 64 only ever loses pixels. |
| `Windows.FewOccluders` | badgevms/compositor/compositor.c:211-252 | Behind at most three windows nothing is dropped. |
| `Windows.WindowStack.PushWindow` | badgevms/compositor/compositor.c:149-166 | The new window is in front, the rest follow in their order, the links form one ring and the count is its length. |
| `Windows.WindowStack.RemoveWindow` | badgevms/compositor/compositor.c:168-209 | A window in the ring leaves it and the ring starts behind it; one that is not in the ring changes nothing, however often it is removed. |
| `Windows.WindowStack.AltTab` | badgevms/compositor/compositor.c:586-602 | The ring turns by one: the second window is in front, the first at the back. |
| `Windows.RemovalKeepsOrder` | badgevms/compositor/compositor.c:168-209 | A removal keeps the order of the other windows exactly when it is the front or the back one that goes. |
| `Windows.Play` | badgevms/compositor/compositor.c:149-209 | Any sequence of pushes, removals - also repeated ones - and turns leaves one ring, with its length counted, in the order the steps give; no ring that changed is believed to show what is right. |
| `Windows.WindowStack.CalculateVisibleRegions` | badgevms/compositor/compositor.c:211-252 | Without the PPA: the visible rectangles cover what is left of the content below the decorated windows in front, with no two that could be merged. |
| `Windows.Window.DecoratedHides` | badgevms/compositor/compositor.c:223-232 | What a window hides is its content and, with decorations, the border around it; the decorated rectangle starts where the window is placed. |
| `Windows.Window.HidesAround` | badgevms/compositor/compositor.c:223-232 | A window with content hides a pixel exactly when a pixel of the content is no further from it than the border is wide on that side; in full screen, exactly its content. |
| `Windows.Window.ScaleFits` | badgevms/compositor/compositor.c:686-706 | The scale of a window is the largest at which its framebuffer fits in it. |
| `Windows.WindowStack.ExposedIs` | badgevms/compositor/compositor.c:211-252 | Content pixels that no window in front hides are those outside all decorated rectangles in front. |
| `Windows.WindowStack.CalculateVisibleStrips` | badgevms/compositor/compositor.c:211-261 | With the PPA: the strips come of at most 64 merged rectangles, no two of which could be merged, that cover what is left of the content; no height is left that is to be split; strips are dropped exactly when the final number does not fit, and when it fits the cover is kept exactly when no strip of one row grows. |
| `Windows.WindowStack.CalculateVisible` | badgevms/compositor/compositor.c:211-261 | With or without the PPA the visible rectangles are right for the content, the windows in front and the scale. |
| `Windows.WindowStack.ShownIsExposed` | badgevms/compositor/compositor.c:211-261 | Right regions show only exposed pixels, unless with the PPA a strip of one row grows, and all of them when besides nothing was dropped. |
| `Windows.WindowStack.OccludedShowsExposed` | badgevms/compositor/compositor.c:211-252 | Visible rectangles do not overlap and show only content pixels that no window in front hides with content or border, and all of them when nothing was dropped. |
| `Windows.WindowStack.VisibleRegionsNeverOverlap` | badgevms/compositor/compositor.c:211-252 | No pixel is visible in two windows whose regions show only exposed pixels, even when pieces were dropped. |
| `Windows.WindowStack.RenderWalk` | badgevms/compositor/compositor.c:673-920 | A walk visits the windows back to front. With stale regions each is made to show what is right for it, with or without the PPA; otherwise nothing that is shown changes. If a task is gone, the walk ends at the hindmost such window, which leaves the ring; the regions are believed to be right from then on in either case. |
| `Windows.WindowStack.RightBehindOthers` | badgevms/compositor/compositor.c:211-252 | Regions that were right before a window in front went are right after exactly when what is in front hides the same pixels of the content, if no piece was dropped. |
| `Windows.BlankAfterRemoval` | badgevms/compositor/compositor.c:673-920 | Two walks over two windows of the same place: the front one, whose task is gone, is removed, and the other stays blank though nothing hides it. |
| `Pixels.RotationIsBijective` | badgevms/compositor/pixel_functions.h:32-55 | Rotation maps the screen onto itself one to one, undone by the inverse angle. |
| `Pixels.QuarterTurns` | badgevms/compositor/pixel_functions.h:32-55 | A quarter turn is clockwise, and the other angles are two and three of it. |
| `Pixels.RotateRectIsImage` | badgevms/compositor/pixel_functions.h:57-85 | A pixel is in a rectangle exactly when its rotation is in the rotated rectangle. |
| `Pixels.SourceExists` | badgevms/compositor/pixel_functions.c:161-188 | Every pixel that is read lies in the source rectangle and in the source. |
| `Pixels.SourceIndexTakes` | badgevms/compositor/pixel_functions.c:173-186 | A destination offset takes the one source row or column that has it when drawn at the scale, or the last one when it lies past that. |
| `Pixels.TakesInOrder` | badgevms/compositor/pixel_functions.c:173-186 | A later offset never takes an earlier row or column. |
| `Pixels.UnscaledCopies` | badgevms/compositor/pixel_functions.c:161-197 | At scale 1 and equal sizes every offset takes the source pixel at the same offset. |
| `Pixels.ConvertKeepsChannels` | badgevms/compositor/pixel_functions.c:130-158 | Of a 32-bit format the top bits of the bytes it names red, green and blue reach these channels. |
| `Pixels.ConvertSixteenBits` | badgevms/compositor/pixel_functions.c:130-158 | A 16-bit pixel is kept, or has red and blue exchanged. |
| `Pixels.Framebuffer.BlitRectRotated` | badgevms/compositor/pixel_functions.c:161-197 | Exactly the pixels of the rotated destination rectangle on the screen change; the array entry that an offset is rotated to gets the colour of the source pixel whose row and column have that offset at the scale. |
| `Pids.PidRing.constructor` | badgevms/task.c:881-945 | After start-up every id but 0 is free, none is live and none is lost. |
| `Pids.PidRing.Allocate` | badgevms/task.c:94-109 | The id at the head becomes live, in 1..127 and not live before; failure means that at least 126 ids are live. |
| `Pids.PidRing.Free` | badgevms/task.c:111-124 | The id is no longer live; a negative one changes nothing. An id is lost exactly when the tail entry holds one, it is that one, and no other is ever lost. |
| `Pids.PidRing.FreeIds` | badgevms/task.c:94-124 | In every state an id is live, or in the ring, or the one lost, and only one of these; all live ids are in 1..127. |
| `Pids.LosesExactly` | badgevms/task.c:111-124 | A release loses an id exactly when the tail entry still has one. |
| `Pids.PidRing.FirstReleaseLoses` | badgevms/task.c:80-124 | The first release loses id 127 exactly when not all ids had been handed out; until then 127 is live exactly when all are. |
| `Pids.LaterReleaseLoses` | badgevms/task.c:80-124 | A run in which no id is lost while all are handed out and released, and then one is. |
| `Processes.ProcessManager.constructor` | badgevms/task.c:881-945 | At the start there is the kernel task, with no reference counted on its structure. |
| `Processes.ProcessManager.ThreadInit` | badgevms/task.c:171-194 | A structure never used before, with one reference, unless there is no memory. |
| `Processes.SpawnedHolds` | badgevms/task.c:269-287 | After a spawn every reference count is again the number of tasks on the structure. |
| `Processes.AbandonedHolds` | badgevms/task.c:764-785 | A spawn that fails drops the reference it took: every count is that of the tasks, and a structure of its own is gone. |
| `Processes.ProcessManager.SpawnAs` | badgevms/task.c:680-797 | A spawn that fails gives its id back and its reference; one that succeeds enters the table. |
| `Processes.ProcessManager.Spawn` | badgevms/task.c:680-797 | Keeps ids, table and reference counts consistent on every path; the task starts exactly when there is an id, a known kind and no shortage; an id is never free while the table has it. The new entry is a child of the task that asked, and the only one. |
| `Processes.SpawnEnters` | badgevms/task.c:680-797 | A started task is in the table as a child of the one that asked for it: a thread on the structure of that one, a process on a structure that no other task has. |
| `Processes.ProcessManager.Orphans` | badgevms/task.c:652-658 | The children named for deletion are all children but one with id 127; they are all children exactly when 127 is not among them. |
| `Processes.ProcessManager.Reap` | badgevms/task.c:607-678 | The task leaves the table, its id goes back, its reference is dropped; a task that is gone already changes nothing. |
| `Processes.ReapedHolds` | badgevms/task.c:607-678 | After a reap every reference count is the number of unreaped tasks on the structure; the count was 1 exactly when the task was the last. |
| `Processes.TornDownWithTheLastTask` | badgevms/task.c:196-267 | A structure is torn down with the last task that uses it, and not before. |
| `Processes.TornDownOnce` | badgevms/task.c:196-267 | In every reachable state a structure ever made has been torn down exactly when no task points at it, and never twice. |
| `Processes.KernelStays` | badgevms/task.c:52-59 | In every reachable state the structure of the kernel is there exactly as long as no thread has been spawned from the kernel task, or one such thread is left. |
| `Processes.KernelThreadTakesTheKernel` | badgevms/task.c:196-287 | A thread of the kernel task takes the structure of the kernel with it exactly when it is the last one. |
| `Processes.FailedKernelThreadTakesTheKernel` | badgevms/task.c:764-785 | A thread spawn from the kernel task that fails late does so exactly when the kernel task has no thread. |
| `Processes.FailedThreadLeavesTheParent` | badgevms/task.c:764-785 | A thread spawn that fails leaves any other parent as it was. |
| `Processes.LastPidLost` | badgevms/task.c:652-658 | Once the ring has lost id 127 no task has it, and every child of a dead task is named. |
| `Processes.LastChildIsMissed` | badgevms/task.c:607-678 | A run in which a task dies whose child 127 is not named. |
| `Systems.System.Spawn` | badgevms/task.c:680-797 | A task enters the process table and memory in one step: a process with an empty heap of its own, a thread on the heap of its parent; a spawn that fails leaves memory as it was. |
| `Systems.System.Reap` | badgevms/task.c:607-678 | A task leaves both; with the last task of a structure its heap goes, and its pages go back. |
| `Systems.ReapLinked` | badgevms/task.c:196-267 | The reference count is gone exactly with the last task on a structure, and then no task is left that memory could map with that heap: tearing it down is allowed exactly when it is done. |
| `Systems.System.Run` | badgevms/task.c:196-797 | Runs of spawns, reaps, breaks, switches and window operations in any order: none aborts, each deed has its effect on both tables, and they stay linked. |
| `Systems.GoesWithTheLastTask` | badgevms/task.c:196-267 | In every run the heap of a process goes exactly when the last task on it is reaped, and exactly its pages go back then. |
| `Systems.EveryHeapHasATask` | badgevms/task.c:196-267 | Nothing leaks: in every reachable state every heap but that of the kernel has a task that is there. |
| `Systems.AllGivenBack` | badgevms/memory.c:299-330 | In a reachable state without tasks and windows the pages in use are the metadata page and the heap of the kernel. |
| `Paths.DirectoryHasBadComponent` | badgevms/pathfuncs.c:46-58 | True exactly when some component of the directory is empty. |
| `Paths.IsAllDots` | badgevms/pathfuncs.c:64-71 | True exactly for a string of dots. |
| `Paths.ParsedExactly` | badgevms/pathfuncs.c:74-175 | Parsing answers a path exactly when it is good and its text was parsed, or its text with empty brackets for no directory: parsing inverts printing. |
| `Paths.ParsePath` | badgevms/pathfuncs.c:74-175 | The loops of the parser compute the specified result, with the right error for every bad input. |
| `Paths.DeviceFaults` | badgevms/pathfuncs.c:74-110 | Exactly which texts are empty, have no device, an empty one, or a wrong character in it. |
| `Paths.RestFaults` | badgevms/pathfuncs.c:110-175 | Exactly which texts behind a device have directories that are not closed, or a wrong character in them. |
| `Paths.PathToUnix` | badgevms/pathfuncs.c:177-223 | The buffer holds the Unix form, and no write passes its end. |
| `Paths.UnixFits` | badgevms/pathfuncs.c:177-223 | The Unix form and its end marker take at most three bytes more than the text. |
| `Paths.UnixIsInjective` | badgevms/pathfuncs.c:177-223 | Different good paths have different Unix forms. |
| `Paths.PathConcat` | badgevms/pathfuncs.c:488-628 | Succeeds exactly when the base is a directory and the rest can be appended; the result is the text of the joined path. |
| `Paths.JoinedNames` | badgevms/pathfuncs.c:488-628 | The components of the directory of a joined path are those of the base, followed by those appended. |
| `Paths.ConcatDirectories` | badgevms/pathfuncs.c:585-594 | Directories and a file appended to a directory come behind it, with a dot between. |
| `Paths.CutAndJoin` | badgevms/pathfuncs.c:488-628 | A good path cut at any dot of its directory and joined again is the path. |
| `Paths.JoinedIsGood` | badgevms/pathfuncs.c:488-628 | The joined path is a good one exactly when what was appended is good by itself. |
| `Paths.ConcatOfParts` | badgevms/pathfuncs.c:358-400 | Taking a path with a file apart and joining it again gives it back exactly when it has no empty brackets. |
| `Paths.CheckSegments` | badgevms/deploy_protocol.c:202-264 | True exactly when some segment of the result is "." or "..". |
| `Paths.VmsToPosix` | badgevms/deploy_protocol.c:202-264 | Answers the specified conversion exactly when there is a device, the result fits and has no dot segment. |
| `Paths.ConversionsAgree` | badgevms/deploy_protocol.c:202-264 | On every path that parses the two conversions agree up to one slash at the end, exactly when it is not a file behind empty brackets. |
| `Paths.ParsedConverts` | badgevms/deploy_protocol.c:202-264 | On a path that parses, the conversion of the deploy protocol fails for lack of room only. |
| `LogicalNames.ParseString` | badgevms/logical_names.c:240-320 | The loop over the characters computes the specified components. |
| `LogicalNames.PathParses` | badgevms/logical_names.c:240-320 | A path text with at most 25 directories is taken apart into exactly the device, directories and file it was made of. |
| `LogicalNames.PathOverruns` | badgevms/logical_names.c:240-320 | With more than 25 directories the parser runs past its array. |
| `LogicalNames.Serialize` | badgevms/logical_names.c:147-212 | The computed length is just right, every write is inside, and the buffer holds the specified text. |
| `LogicalNames.SerializeGivesBack` | badgevms/logical_names.c:147-212 | Printing the components of a path gives its text back. |
| `LogicalNames.StringAlongChain` | badgevms/logical_names.c:327-360 | resolve_string follows a chain from any place and depth to its end, or answers nothing when the depth runs out first. |
| `LogicalNames.ChainResolves` | badgevms/logical_names.c:394-479 | A chain of bare names resolves to its end with at most 14 hops, or 15 with a terminal last one; otherwise the name stays as it was. |
| `LogicalNames.CycleReturnsInput` | badgevms/logical_names.c:394-479 | A name on a cycle, or on a way into one, resolves to itself. |
| `LogicalNames.ListIsIndexed` | badgevms/logical_names.c:394-479 | A list of n bare targets reports count n, and index i gives target i. |
| `LogicalNames.PathResolvesToItself` | badgevms/logical_names.c:394-479 | A path of at most 25 directories in which nothing is a name comes back unchanged through parse, resolve and print. |
| `LogicalPaths.PathThroughName` | badgevms/logical_names.c:414-457 | A path whose device is a name, with its colon or without, in which nothing else is one: it resolves to the device of the target at the index, the directories of the target before its own, the file of the target if it has one, with the number of targets. |
| `LogicalPaths.RouteResolves` | badgevms/logical_names.c:394-479 | Any path resolves along its whole route of devices, up to 14 names: directories that later targets add are in front, the last target with a file gives the file, every directory and file that is a name is replaced by what it stands for, and the count is the length of the first list. |
| `LogicalPaths.NameForPath` | badgevms/logical_names.c:394-414 | A bare name for a list of paths gives the path at the index, with the number of them. |
| `LogicalPaths.NameThenName` | badgevms/logical_names.c:394-457 | Of a list behind a bare name the first path is taken whatever the index, and its length is the count. |
| `LogicalPaths.DeviceForDevice` | badgevms/logical_names.c:362-457 | A device that is a name for another device is replaced by it, and the rest of the path stays. |
| `LogicalPaths.BadPathStays` | badgevms/logical_names.c:240-320 | A text with a second colon, or with directories that are not closed, is a plain string and resolves to itself. |
| `LogicalNames.SetStandsForTargets` | badgevms/logical_names.c:487-556 | A name that has been set stands for its targets - one, or the list by index - whatever it stood for before. |
| `LogicalNames.DeletedStandsForItself` | badgevms/logical_names.c:568-570 | A name that has been deleted stands for itself. |
| `LogicalNames.SetAndDelete` | badgevms/logical_names.c:487-587 | A name is set to a list, resolved, deleted and resolved again through the table: it stands for the targets of the list by index, and then for itself. |
| `LogicalNames.NameTable.Set` | badgevms/logical_names.c:487-556 | Sets nothing exactly when the list is white space; otherwise the name stands for the targets found in the list. |
| `TargetLists.Split` | badgevms/logical_names.c:502-543 | The loops over the list find the specified targets, every index inside. |
| `TargetLists.TargetsAreFound` | badgevms/logical_names.c:502-543 | The targets of any list: white space is taken off in front of an element; a blank element gives none, and the next one gets the comma between them. |
| `TargetLists.NothingIsFound` | badgevms/logical_names.c:545-555 | No target is found exactly in a text of white space. |
| `TargetLists.FoundIsMeant` | badgevms/logical_names.c:502-543 | The targets are the elements that are not blank, without the white space around them, exactly when no element but the last is blank and white space follows none. |
| `TargetLists.ListsThatGoWrong` | badgevms/logical_names.c:502-543 | One list of each kind that gives other targets. |
| `Deploy.CrcInPieces` | badgevms/deploy_protocol.c:293-432 | A checksum taken over pieces of any length is the checksum of the whole. |
| `Deploy.ResponseRoundTrip` | badgevms/deploy_protocol.c:147-167 | A host that reads a response, whatever follows it, gets the status and the payload that were sent. |
| `Deploy.ResponseLayout` | badgevms/deploy_protocol.c:147-167 | Where magic, status, length, payload and checksum are in a response, and what the checksum covers. |
| `Deploy.LittleEndian` | badgevms/deploy_protocol.c:147-167 | Numbers on the wire have their lowest byte first. |
| `Deploy.Server.Rx` | badgevms/deploy_protocol.c:110-117 | Exactly the next n bytes, or a wait when they never come. |
| `Deploy.Server.RxTimeout` | badgevms/deploy_protocol.c:127-141 | Exactly the next n bytes when each comes in time; otherwise a failure. |
| `Deploy.Server.SendResponse` | badgevms/deploy_protocol.c:147-167 | One response frame is written, with its checksum. |
| `Deploy.Server.ScanForMagic` | badgevms/deploy_protocol.c:175-187 | Stops right after the first magic in the bytes to come; waits exactly when there is none. |
| `Deploy.Server.ReceiveData` | badgevms/deploy_protocol.c:372-400 | When all data comes in time, the checksum covers all of it, and the file holds exactly the data unless a write failed. |
| `Deploy.Server.HandlePutStreamed` | badgevms/deploy_protocol.c:293-432 | Every way a PUT can end, with its status, what is left of the file that its path names, and one response. After WRITE the file is there exactly when it could be given its size; then it has that size, and the checksum was right. |
| `Deploy.Server.PutGuarantee` | badgevms/deploy_protocol.c:293-432 | OK: the checksum of the whole frame was right and the file holds exactly the declared data. BAD_FRAME: no file. WRITE: no file exactly when it could not be given its size, else one of the declared length after a right frame. A right frame whose data comes in time is refused for reasons of the file system only, and gets OK when that is faultless. No file that the path does not name changes. |
| `Deploy.Server.PutVerdict` | badgevms/deploy_protocol.c:402-431 | Without faults the status is OK exactly when the checksum is right and the data came in time, and BAD_FRAME otherwise. |
| `Deploy.Server.OneOutcome` | badgevms/deploy_protocol.c:621-694 | When the disk and the heap never fail, the answer to a request other than LIST and the files after it are determined by the bytes of the frame and the files before. |
| `Deploy.Server.FileStaysThrough` | badgevms/deploy_protocol.c:621-702 | A file that no frame of a stretch of a run puts or deletes, under whatever spelling, is what it was. |
| `Deploy.Server.PutThenGet` | badgevms/deploy_protocol.c:293-518 | In every run without faults, what a PUT put in a file is what a later GET of that file gets, under whatever spellings, if the frames between put other files only and delete nothing above it. |
| `Deploy.Server.DecodePath` | badgevms/deploy_protocol.c:437-463 | A path exactly when the payload is a length and that many bytes that convert; otherwise one response, BAD_FRAME for a payload that is too short and BAD_PATH for the rest. |
| `Deploy.PathErrorExactly` | badgevms/deploy_protocol.c:437-463 | The error is BAD_FRAME exactly when the length of the path is missing, or is one a path can have and says more than there is. |
| `Deploy.Server.HandleGet` | badgevms/deploy_protocol.c:465-518 | The answer is the content of the file that the path names, or an error; without faults it is the content exactly when there is such a file of at most 2 MiB. Files do not change. |
| `Deploy.Fetched` | badgevms/deploy_protocol.c:465-518 | Without faults: OK with the content exactly when the file exists and is no longer than 2 MiB, FOPEN exactly when it does not exist. |
| `Deploy.Server.HandleList` | badgevms/deploy_protocol.c:520-571 | The answer has the lines that come first and fit, whole lines only; without faults every directory that exists is listed. |
| `Deploy.ListingIsPrefix` | badgevms/deploy_protocol.c:520-571 | A listing is the longest run of whole lines from the first that fits. |
| `Deploy.Server.HandleDelete` | badgevms/deploy_protocol.c:577-617 | OK means that nothing is left at or below what the path names, and without faults that is the answer; nothing elsewhere changes. What is at or below a path is said by DeletedOrNot. |
| `Deploy.Server.ProcessOneFrame` | badgevms/deploy_protocol.c:621-694 | A frame whose bytes all come is answered exactly once, on every path, with the answer its command and checksum call for. |
| `Deploy.Server.Listen` | badgevms/deploy_protocol.c:696-702 | A whole run: each answered frame starts right after the first magic behind the one before, has the outcome its bytes call for, and gets one response, in order; the run ends only where there is no magic or no whole frame any more. |
| `Deploy.HostReadsAll` | badgevms/deploy_protocol.c:147-167 | A host that reads the responses of a run gets exactly the answers that were given, in order. |
| `FileNames.NormalExactly` | badgevms/deploy_protocol.c:247-261 | Two POSIX paths lead to one device and the same names exactly when their normal forms - one slash before each name, none at the end - are equal. |
| `FileNames.NormalStays` | badgevms/deploy_protocol.c:247-261 | The normal form leads where the path leads, and is its own normal form. |
| `FileNames.DifferentFiles` | badgevms/pathfuncs.c:177-223 | Paths to a file lead to one file exactly when they are the same path. |
| `FileNames.ConversionsNameOneFile` | badgevms/deploy_protocol.c:202-264 | Both conversions of a path that parses lead to the same file or directory, with empty brackets or a slash at the end too. |
| `FileNames.TextLeadsTo` | badgevms/deploy_protocol.c:202-264 | A good path leads to its device, and there along the components of its directory to its file. |
| `Spellings.RequestsNameOneFile` | badgevms/deploy_protocol.c:202-264 | Two requests name one file exactly when the normal forms of their POSIX paths agree, on a disk that takes no two names for one. |
| `Spellings.DifferentPathsNameDifferentFiles` | badgevms/deploy_protocol.c:202-264 | There, requests that spell paths to a file as they print name one file exactly when the paths are equal. |
| `Spellings.TextNames` | badgevms/deploy_protocol.c:202-264 | A request that spells a path as it prints names its device and, as the disk takes them, the components of its directory and its file. |
| `Spellings.BracketsNameTheFile` | badgevms/deploy_protocol.c:202-264 | Every file without a directory has a second spelling, with empty brackets. |
| `Spellings.DottedDirectoryIsAbove` | badgevms/deploy_protocol.c:577-600 | A directory spelled with a dot at its end is above its files as without. |
| `Spellings.PutTwice` | badgevms/deploy_protocol.c:293-518 | PUT SD0:f, PUT SD0:[]f, GET SD0:f, and so for every file without a directory: the GET gets the second data. |
| `Spellings.DeleteAbove` | badgevms/deploy_protocol.c:577-617 | PUT SD0:[a]f, DELETE SD0:[a.], GET SD0:[a]f, and so for every file in a directory: the file is gone. |
| `Spellings.DeletedOrNot` | badgevms/deploy_protocol.c:577-617 | After PUT of a file, DELETE of any path and GET of the file: FOPEN when the path is on the same device and its components and file are the first ones of the file, and the data otherwise. |
| `Spellings.PutDeleteGet` | badgevms/deploy_protocol.c:577-617 | The same as a run of the listener over the three requests. |
| `Sessions.FrameIsNext` | badgevms/deploy_protocol.c:175-187 | The listener finds a whole frame where it lies, and all of it. |
| `Sessions.OneRequest` | badgevms/deploy_protocol.c:621-694 | Without faults the answer to a whole request, and the files after it, are those of a plain store of files. |
| `Sessions.RunIsSession` | badgevms/deploy_protocol.c:696-702 | A run of the listener over whole requests gives each its one answer, in order, and leaves the files of the store. |
| `Sessions.Serve` | badgevms/deploy_protocol.c:621-702 | A host that sends requests and reads what is written reads exactly the answers of the store. |

## Left out

- BuddyPool.Pool.Allocate: one pool per allocator, as both allocators of the kernel have; the loop over pools, the overflow of `size_t` in rounding up, and free_pages as an unsigned word are not modelled.
- BuddyPool.Pool.constructor: takes the numbers of pages; where the metadata lies and how many pages it needs is not computed, and a pool is required to have more pages than waste.
- BuddyPool.Pool.Deallocate: requires the address of a live block when it is in the pool; freeing twice is not modelled.
- BitOps.GetOrder: 32-bit sizes, as on the target; the 64-bit forms, trailing zeroes and population count are not modelled.
- Memory.Memory.Sbrk: whole pages only; increments that are no multiple of a page are not modelled.
- Memory.Memory.FramebufferAllocate: what happens after the read through a null pointer is not modelled, so windows without pixels are not part of a run.
- Memory.Memory.Run: each step is taken as a whole; preemption inside a kernel call, cache synchronisation, the register format of the MMU and what the pages contain are not modelled. A step is taken when the rest of the kernel would ask for it: a structure is destroyed once no task uses it, as `Systems.System.Run` has it, and the kernel's break stays below the framebuffers.
- Memory.Memory.RemapTask: a task on the kernel's thread structure appears here only; the other steps are for tasks of processes, as for the others the system stops at the first switch.
- Windows.WindowStack.RenderWalk: scales are real numbers and, with the PPA, above 0; decorations and fonts are not drawn, and no two windows share the array of their visible rectangles.
- Windows.WindowStack.CalculateVisibleStrips: window sizes are not negative.
- Windows.Play: a window is not pushed while it is in the ring, since each is pushed once, when it is made.
- PpaSplit.SplitUntilFine: scales are real numbers; rounding of floats is not modelled.
- Pixels.Framebuffer.BlitRectRotated: scales are real numbers; the PPA itself is hardware.
- Systems.System.Run: tasks are reaped when they are not mapped in; threads of the kernel task are not part of it, nor is what they do to the kernel's structure.
- Processes.ProcessManager.Spawn: the parent is alive when Zeus serves it; that a thread's structure exists is required, as that of a dead one has been freed; queues, priorities and the start of the task itself are not modelled, and the reference count changes in one step instead of a compare-and-swap loop.
- Processes.ProcessManager.Reap: that Hades gets to every task (its queue has 16 places) and that parents are told of a child's end is liveness, and not modelled; a structure's files and resources stand and fall with it.
- TargetLists.Split: memory for the targets is there; where it runs out the original keeps those found so far.
- LogicalNames.ParseString: strings are values, and which buffer a string points into is kept beside it; the byte that the source overwrites and does not put back when it looks a name up without its colon is not modelled. A "]" without a "[", and more than 25 directories, have no result here.
- LogicalNames.ListIsIndexed: lists whose targets are names again are not stated.
- LogicalPaths.RouteResolves: targets that are names themselves, names that stand for a path on themselves, and more than 25 directories along the way are not covered.
- Paths.PathConcat: memory is always there; creating and removing directories along a path, and joining of two directories only, are not modelled.
- Deploy.Server.HandlePutStreamed: creating the directories of the path is not modelled; opening, growing and writing the file may fail at any point, removing it does not. A run in which something fails - also the opening of a directory, or of a path through a file - is not one without faults.
- FileNames.NormalExactly: that the file system skips repeated slashes and those at the end is taken from how the code builds and checks paths; a disk may also take different names for one, as FAT does for letter case: `fold` of the server stands for that, name by name. Short names, dots and spaces at the end of names, and mount points are not modelled.
- Deploy.Server.HandleGet: whether the disk and the heap fail is left open, or ruled out by a flag of the server; why they do is not modelled.
- Deploy.Server.HandleList: takes the lines of the directory; their text is not modelled.
- Deploy.Server.HandleDelete: the order of removal is left open; any part may be gone when something fails.
- The checksum is any function folded over bytes; the ROM routine itself is not part of this model.
- Applications, drivers, the HTTP client, updates, notifications and the wrapped C library: thin layers or input and output only.

Nothing was executed; every statement here is one that Dafny proves of the model.
