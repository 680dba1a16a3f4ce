# Verified models of the Scudo allocator's core

This project models, in Dafny, the parts of the Scudo fork whose correctness spans
many functions or whole runs, and proves the properties its comments, debug checks
and callers rely on.  `dafny verify dfyconfig.toml` checks everything.

## What is modelled

**Page release** (`release.h`, the release half of `primary64.h`).
`BlockGrid` relates pages to the grid of equally sized blocks; `PackedCounters` is
`RegionPageMap`, words of packed counters proved against a plain array; `PageMarks`
and `PageRelease` are `PageReleaseContext` and `releaseFreeMemoryToOS`; `PageRanges`
is `FreePagesRangeTracker`; `PrimaryRelease` is `markFreeBlocks` and the release step
built on it, `ReleaseRecorder` says where the ranges lie in memory, and `GroupChoice` is
the decision which groups take part.  A ghost field `marked` holds the set of blocks
marked free so far.  Every marking method adds exactly its blocks to that set and keeps every packed counter equal
to the number of marked blocks on its page, or at the all-counted value on a page whose
blocks are all marked; so the range path and the block-by-block path decide the same.
The ranges handed to the recorder are the maximal runs of the pages so decided.

**Primary free list** (`primary64.h`, `allocator_common.h`, `list.h`, `local_cache.h`).
`BatchClassNodes`, `BatchClassRegion` and `BatchCache` model class 0, whose list nodes
live inside the free blocks they record: node storage is a map from block to contents,
and a block handed out may be overwritten with anything.  `GroupSort`, `GroupLists`,
`GroupMerge` and `RegionFreeList` model the other classes' lists of groups, built in
class-0 blocks, with groups pulled out and merged back.  `ConservedBlocks` is one size
class as one thread sees it; `PrimaryAllocator` is the whole: any number of size classes
whose lists are built in the blocks of one batch class, and any number of threads, each
with a cache of batch-class blocks and chunks of every class.  Its invariant says where
every block is: a carved class-0 block is on the batch class's own list, in one thread's
cache, or a node of one other list; a carved block of another class is on its list, in one
thread's chunks, or in a user's hands.  `RegionMapping` is the arithmetic by which a
region grows, refill by refill, and `Shuffling` the order new blocks are pushed in.  `AllocatorRuns` is any run of calls of any threads.
`RegionRelease` joins this to page release: the groups pulled out of a list are fit for
marking, the memory given back is exactly that of the pages no block in use touches, and,
whatever other threads do meanwhile, no byte of it belongs to a block that a user holds, a
thread has cached or the rest of the list records.
`LinkedLists` shows that the pointer surgery of `list.h` does what the models' sequences
say, `TransferBatches` the same for a batch's array and count.

**Shared arena** (`shared_arena_linux.cpp`, `shared_arena.h`).
`ArenaModel` is the bookkeeping: pages are free, outstanding, stranded, or above the
bump offset.  `FreeBlockList` and `FreeBlockLinks` are the coalescing list and its
headers in memory, `ArenaAddresses` the address arithmetic and the header placement,
`LogRing` the ring shared with the kernel, `SharedArena` store and retrieve as they
rewrite memory, `ArenaLog` and `SharedArenaPool` the agreement of all cores' books with
the replayed logs, `ArenaLocks` the order in which two arenas' spin locks are taken.
`ArenaSteps` lets the calls of any number of threads interleave, one change of a list, log
or lock word a step, and proves that every such run is a run of the whole calls that
`SharedArena` and `SharedArenaPool` model.

**Locks** (`linux.cpp`, `mutex.h`, `condition_variable_linux.cpp`, and their use in
`popBlocksWithCV`).  `HybridMutex` and `PopulateProtocol` are state machines over any
number of threads with one atomic access a step; their main lemmas speak of every
state of every run.

**Quarantine, secondary cache, size classes**: `Quarantine`, `SecondaryCache`,
`SizeClassMap`.

## Findings

Four promises do not hold of the code as it stands; each has a lemma with an input or
family of inputs that shows it, and contracts that say exactly when the promise is kept.

- A page touched by no block in use can be kept (primary64.h:1660-1690).  When the region
  ends inside a page and the last group of the list neither ends with the region nor is an
  entirely free group in which the region's last block starts, `markFreeBlocks` marks no
  pretend blocks behind the region, so that last page never counts as full
  (`PrimaryRelease.LastPageKeptThoughUnused`).  This is the only case: the addresses that
  `PrimaryRelease.ReleaseGroups` returns cover a page of the region if and only if no block
  in use touches it and it is not that page.  It takes a region whose last block ends
  behind the group it starts in (`PrimaryRelease.NothingWithheld`).  The configurations in
  allocator_config.h never stop carving there, because they map 2^18 bytes at a time
  (`RegionMapping.NeverEndsAcross`, `RegionMapping.MapsInSteps`) or use powers of two, so
  with them release is exact for every page (`RegionRelease.ReleaseToOSMaybe`).  A custom
  configuration that maps a page at a time does: after 64 refills the 4112-byte class is in
  the state shown (`RegionMapping.StopsAcrossGroups`).
- With pages of 64 KiB, groups of blocks of 1600 to 4095 bytes are never taken out for a
  page release unless it is forced, however many of their blocks are free: such blocks
  count as small, and `100 - 1U - BlockSize / 16U` wraps (primary64.h:1514-1516).  A group
  whose allocated bytes are all free passes the density test if and only if its blocks
  are smaller than 1600 bytes (`GroupChoice.DenseIffNoWrap`); above that no group is worth
  releasing (`GroupChoice.NeverWorth`).  With pages up to 16 KiB no class is affected.
- `SharedArena::retrieve` gives up after it has taken pages when the header does not fit
  in front of the aligned block, and does not give the pages back
  (shared_arena_linux.cpp:1133-1141).  For an alignment that divides the page it does so
  if and only if pages could be taken and
  `(NeededSize - Size) % Alignment > NeededSize - Size - HeadersSize`, which the caller can
  compute beforehand but does not check: it only compares the alignment with a page
  (secondary.h:935).  `SharedArena.Arena.Retrieve` states the equivalence,
  `ArenaAddresses.PlaceableIff` that the address of the pages plays no part in it,
  `ArenaAddresses.MegabyteWithoutRoom` gives an input, and
  `ArenaAddresses.ExactFitIsNotPlaceable` a family of them.  Pages lost this way are the
  `stranded` ranges of the arena's invariant.
- `MapAllocatorCache::store` computes `Time - Interval * 1000000` in unsigned 64 bits
  (secondary.h:392-395).  Until the system has been up for one interval this wraps, and
  the pages of every cached block are released, the new one's included.
  `SecondaryCache.MapAllocatorCache.ReleasedAtOnce` is an instance;
  `SecondaryCache.MapAllocatorCache.Store` says what becomes of each entry, and
  `SecondaryCache.MapAllocatorCache.ReleasedByStore` that its pages are released if and only
  if it has not been used for the interval or the system has not been up for it (the 32-bit
  interval stays within that lemma's bounds).

## Modelling choices

- Integers are unbounded; a 16-, 32- or 64-bit word that can wrap is reduced explicitly.
  Shifts and masks by powers of two are divisions, products and remainders.
- Addresses are naturals; the arena uses 4096-byte pages, as `kArenaHeaderSize` does, and the
  64-bit base address.  Page release takes any page size below 2^64.
- Atomic accesses are sequentially consistent steps.  The condition variable's counter is
  taken not to come round to the same 32-bit value during one wait.
- In `PopulateProtocol` the lock `FLLock` is a mutex with an owner; that a `HybridMutex` is
  one is what module `HybridMutex` proves.
- Random numbers are parameters (`draws`), and so is how far the log's consumer gets between
  two steps (`first`, `second`).
- Whether a release that is not forced is worth an attempt at all, which adaptive
  thresholds decide (primary64.h:1377-1447), is a parameter (`worthwhile`).
- While a release holds a region's mapping lock, a call that would have to carve blocks of
  that class waits; all other calls of other threads are parameters of the release
  (`before`, `after`), so what it ensures holds at every moment.
- A free list's methods take the caller's cache of batch-class blocks, as the source's do.
  What other threads' caches and other lists hold is that cache's `elsewhere`, which
  `PrimaryAllocator` brings up to date for all threads after every call.  Class 0 is never
  exhausted: the source aborts when it is.
- Whether the system maps more memory for a region is a parameter (`remaps`).
- The bounds `SecondaryCache.IsRequest` puts on a request are those of the front end
  (combined.h:379).  Without them the word tests of `MapAllocatorCache::retrieve`
  (secondary.h:435-447) would let a size near 2^64 pass, which
  `SecondaryCache.HugeSizeSuits` shows; such a size never gets there.
- In `ArenaSteps` the log rings are numbered by the arenas whose locks guard them.
- The arena works with its free list enabled and the kernel log active.  Retrieve and
  store take the log of any core, since processes may run anywhere.
- `store` is called with a range that is outstanding, or with one its own guard refuses.
- The secondary cache has no quarantine and no memory tagging, and its clock does not run
  backwards.

## Model

| member | source | states |
|---|---|---|
| `PackedCounters.FieldAdd` | release.h:284-293 | adding N to one packed field without overflowing it changes no other field and carries nothing beyond it |
| `PackedCounters.FieldOr` | release.h:306-312 | OR-ing the mask into one field makes it all ones and changes no other field |
| `PackedCounters.CounterBitsFit` | release.h:240-255 | for every MaxValue that fits a word the chosen counter width is a power of two, tiles the word exactly and can hold MaxValue |
| `PackedCounters.Layout.SlotsDistinct` | release.h:265-272 | two counters never share a word and a field |
| `PackedCounters.Layout.Rewrite` | release.h:280-281 | a word that changes in one field replaces exactly one counter of the plain array |
| `PackedCounters.ChooseLayout` | release.h:240-257 | the mask, packing ratio and words per region that reset computes form a sound layout whose mask is at least MaxValue |
| `PackedCounters.RegionPageMap.Reset` | release.h:232-259 | after reset the map stands for an array of zeros, or has no buffer |
| `PackedCounters.RegionPageMap.Get` | release.h:265-272 | get reads the plain array and never exceeds CounterMask |
| `PackedCounters.RegionPageMap.Inc` | release.h:274-282 | inc adds one to one counter of the plain array and leaves every other counter alone |
| `PackedCounters.RegionPageMap.IncN` | release.h:284-293 | incN adds N to one counter of the plain array and leaves every other counter alone |
| `PackedCounters.RegionPageMap.SetAsAllCounted` | release.h:306-312 | one counter becomes CounterMask, the others stay |
| `PackedCounters.RegionPageMap.IncRange` | release.h:295-299 | exactly the counters of the clipped range go up by one |
| `PackedCounters.RegionPageMap.SetAsAllCountedRange` | release.h:313-318 | exactly the counters of the clipped range become CounterMask |
| `PackedCounters.RegionPageMap.UpdateAsAllCountedIf` | release.h:320-329 | true iff the counter is CounterMask or the given count; then, and only then, it becomes CounterMask |
| `BlockGrid.TouchesIff` | release.h:675-677 | the blocks touching a page are those from the one its first byte lies in to the last that starts before its end |
| `BlockGrid.TouchedPages` | release.h:609-610 | a block touches exactly the pages from its first to its last byte |
| `BlockGrid.BlocksPerPageCorrect` | release.h:397-429 | every page meets at most FullPagesBlockCountMax grid blocks, and exactly that many if SameBlockCountPerPage |
| `BlockGrid.WalkStep` | release.h:668-701 | one step of the slow path counts the page's blocks exactly and leaves the boundary at the first block of the next page, from any starting page |
| `PageMarks.CounterDecides` | release.h:662-664 | a counter that is right for the marked blocks equals the page's block count or the mask iff every block on the page is marked |
| `PageMarks.CounterAdd` | release.h:284-293 | counting newly marked blocks neither overflows the counter nor meets an all-counted page |
| `PageRelease.MarkBlock` | release.h:596-612 | marking one new block adds one to the pages it touches and keeps every counter right |
| `PageRelease.MarkInterval` | release.h:460-546 | the three updates of range marking give every page of the range the right counter for the blocks they stand for |
| `PageRelease.RangeOnPage` | release.h:497-543 | page by page, the plan of range marking yields right counters, never overflows and never increments an all-counted page |
| `PageRelease.RangeMarked` | release.h:497-543 | the three updates made one after the other leave all rows right for the enlarged set of marked blocks |
| `PageRelease.ClassifyPages` | release.h:401-429 | the constructor's branches compute the block-count bound and whether it is the same for all pages |
| `PageRelease.PageReleaseContext.constructor` | release.h:397-441 | a fresh context covers the pages of its window and has nothing marked |
| `PageRelease.PageReleaseContext.EnsurePageMapAllocated` | release.h:448-454 | succeeds iff a map was there or a buffer can be had, and keeps what was marked |
| `PageRelease.PageReleaseContext.MarkInPage` | release.h:594-602 | a block in a size that divides the page is marked by one increment |
| `PageRelease.PageReleaseContext.MarkAcrossPages` | release.h:603-612 | a block of any other size is marked on every page it touches |
| `PageRelease.PageReleaseContext.MarkTrailing` | release.h:557-590 | the pretend blocks behind the region are marked, and nothing else |
| `PageRelease.PageReleaseContext.MarkFreeBlocksInRegion` | release.h:549-616 | the set of marked blocks grows by exactly the list's blocks, and the pretend blocks if asked; every counter stays right |
| `PageRelease.PageReleaseContext.MarkRangeAsAllCounted` | release.h:460-546 | the set of marked blocks grows by exactly the blocks starting in [From, To), and the pretend ones if the region's last block is among them: the same set as visiting each |
| `PageRelease.DecidePage` | release.h:662-665 | the decision on a page is whether all its blocks are marked |
| `PageRelease.DecideRegionSameCount` | release.h:655-667 | the fast path decides every page of the region so |
| `PageRelease.DecideRegionWalking` | release.h:668-706 | the slow path decides every page of the region the same way, from any release offset |
| `PageRelease.ReleaseFreeMemoryToOS` | release.h:639-709 | the released ranges are the maximal runs of pages, not in a skipped region, whose blocks are all marked |
| `PageRanges.RunsAreMaximal` | release.h:356-394 | pages next to a range are not to be released |
| `PageRanges.RunsAreUnique` | release.h:356-394 | the decisions determine the ranges: ascending, disjoint, maximal |
| `PageRanges.FreePagesRangeTracker.ProcessNextPage` | release.h:361-371 | one more decision is taken in, the recorded ranges staying the maximal runs before the open one |
| `PageRanges.FreePagesRangeTracker.SkipPages` | release.h:373-376 | counts as N pages not to be released |
| `PageRanges.FreePagesRangeTracker.Finish` | release.h:378-389 | the recorded ranges are exactly the maximal runs of all decisions |
| `FreeListTypes.CountByShapeExact` | primary64.h:1487-1488 | the block count computed from the number of batches and the front batch is the real one when only the front batch is partial |
| `TransferBatches.TransferBatch.SetFromArray` | allocator_common.h:22-26 | the batch holds the first N pointers of the array |
| `TransferBatches.TransferBatch.AppendFromArray` | allocator_common.h:27-32 | N pointers of the array follow those held |
| `TransferBatches.TransferBatch.AppendFromTransferBatch` | allocator_common.h:33-41 | the last N pointers of the other batch move to the end of this one |
| `TransferBatches.TransferBatch.Add` | allocator_common.h:44-47 | one pointer is appended |
| `TransferBatches.TransferBatch.MoveToArray` | allocator_common.h:48-51 | all pointers leave for the array, whose rest is untouched |
| `TransferBatches.TransferBatch.MoveNToArray` | allocator_common.h:53-57 | the last N pointers leave for the array, in order |
| `TransferBatches.TransferBatch.GetCount` | allocator_common.h:58-59 | getCount is the number of pointers held |
| `TransferBatches.TransferBatch.Get` | allocator_common.h:60-63 | get reads the I-th pointer held |
| `PrimaryRelease.ContainedBlocks` | primary64.h:1665-1667 | MaxContainedBlocks is the number of blocks starting in the group or one more |
| `PrimaryRelease.FreeBlocksInside` | primary64.h:1669-1670 | a group's free blocks all start in its used part, and NumBlocks counts them |
| `PrimaryRelease.RangePathIsExact` | primary64.h:1672-1682 | the range path is taken only if every block starting in the group is free, and then marks exactly the group's free blocks |
| `PrimaryRelease.TrailingFromLast` | primary64.h:1660-1661 | only the last group can mark the pretend blocks |
| `PrimaryRelease.GroupInWindow` | primary64.h:1630-1646 | each group lies in the window of pages the context was made for |
| `PrimaryRelease.ChooseMarking` | primary64.h:1652-1672 | which branch is taken, for which range, with which last-block flag |
| `PrimaryRelease.MarkGroup` | primary64.h:1652-1691 | either branch adds exactly the group's marks |
| `PrimaryRelease.MarkFreeBlocks` | primary64.h:1620-1697 | the marks of all groups end up in one context over the window from the first group to the last one's end |
| `PrimaryRelease.AllMarksAre` | primary64.h:1652-1691 | all marks together are the free blocks of the groups, and the pretend blocks iff the last group marks them |
| `PrimaryRelease.ReleasedExactly` | primary64.h:1620-1697 | a page of the region is free by its marks iff no block outside the groups' free blocks touches it and, where the region ends inside it, the pretend blocks were marked |
| `PrimaryRelease.ExactUnlessWithheld` | primary64.h:1660-1690 | the marks decide every page of the region exactly, but for the page the region ends inside when the last group neither ends with the region nor takes the range path to its end |
| `PrimaryRelease.LastPageKeptThoughUnused` | primary64.h:1660-1690 | a concrete region whose last page no block in use touches and that is not released |
| `PrimaryRelease.NothingWithheld` | primary64.h:1660-1690 | if the region's last block ends in the group it starts in, the pages to release are exactly those that no block in use touches |
| `PrimaryRelease.ReleaseGroups` | primary64.h:1315-1329 | the addresses handed to the system are ascending, disjoint and maximal ranges of pages, and a page of the region is among them iff no block in use touches it and it is not the withheld last page |
| `ReleaseRecorder.GivenBackIff` | release.h:31-35 | with the recorder's base and offset, the addresses given back contain a page iff the page is in one of the ranges |
| `ReleaseRecorder.UntouchedIsSpared` | release.h:31-35 | a block that touches no page of the ranges has no byte among the addresses given back |
| `PrimaryRelease.UnusedInWindow` | primary64.h:1630-1646 | a page of the region that no block in use touches lies in the window from the first group to the last one's end |
| `PrimaryRelease.ReleaseRegion` | release.h:549-709 | marking a free list, deciding and recording, in one: for any block size and region the ranges handed to the system are maximal and cover a page iff no block in use touches it |
| `BatchClassNodes.NotFreeNotANode` | primary64.h:652-685 | a block that is not free holds no node of the list |
| `BatchClassNodes.WriteOutside` | primary64.h:673-674 | overwriting a block that is not free leaves the list intact |
| `BatchClassNodes.PushFrontKeeps` | primary64.h:732-742 | a fresh block becomes a batch recording itself in front of the others |
| `BatchClassNodes.FirstBatchKeeps` | primary64.h:712-724 | the first batch records itself and the group, which needs two slots |
| `BatchClassNodes.AppendKeeps` | primary64.h:745-747 | blocks appended to the front batch keep the list and are counted once |
| `BatchClassNodes.PopKeeps` | primary64.h:986-1012 | the front batch leaves with all it records, the last one taking the group along |
| `BatchClassRegion.BatchClass.Write` | primary64.h:673-674 | the holder of a block that is not free may write anything into it |
| `BatchClassRegion.BatchClass.Push` | primary64.h:648-749 | the recorded addresses become exactly the old free blocks and the pushed ones, without duplicates; every batch records itself, the last one the group; no other block is written |
| `BatchClassRegion.BatchClass.Pop` | primary64.h:949-1018 | the whole front batch, or the lone group, leaves; no popped address is still free or still a node |
| `BatchClassRegion.BatchClass.Populate` | primary64.h:1082-1125 | new blocks are carved and pushed and some popped; the counters still tell how many are off the list |
| `BatchCache.Cache.Refill` | local_cache.h:169-175 | the chunks are filled from the list or from new blocks; every carved block stays in one place |
| `BatchCache.Cache.Get` | local_cache.h:40-58 | a block is handed out that no one else holds |
| `BatchCache.Cache.Put` | local_cache.h:60-76 | a node's block comes back, draining first when the cache is full |
| `BatchCache.Cache.Drain` | local_cache.h:177-184 | half of the chunks, at most all, go back to the list and the rest moves down |
| `BatchCache.Cache.Recycle` | primary64.h:1779-1785 | nodes pushed past the cache return to the class and are accounted for |
| `GroupSort.InsertDown` | primary64.h:296-302 | one insertion: blocks of greater groups move up by one and the block lands behind all others of its group |
| `GroupSort.SortByGroup` | primary64.h:289-304 | the array is permuted into group order and SameGroup is true iff all blocks were of one group |
| `GroupSort.OneMore` | primary64.h:294-295 | comparing with the last of the sorted part decides whether all blocks so far share a group |
| `GroupLists.GroupHoldsItsOwn` | primary64.h:751-766 | in a sorted list every block is in the one group it belongs to, so the multiset of all blocks determines what each group holds and which groups exist |
| `GroupLists.Checkpoint` | primary64.h:1491-1492 | a new checkpoint changes no block, node or group |
| `GroupMerge.MergeBatches` | primary64.h:1752-1776 | the merged batches hold the blocks of both sides, only the first is partial, and at most one emptied batch is left over |
| `GroupMerge.PutNonFull` | primary64.h:1755-1775 | a partial batch joins batches of which only the front is partial |
| `GroupMerge.MergeGroups` | primary64.h:1739-1776 | the merged group's multiset of blocks is the sum of both sides; the other group and an emptied batch are exactly the nodes set free |
| `RegionFreeList.InsertBlocks` | primary64.h:789-810 | the group gains exactly the blocks, and takes from class 0 exactly the nodes it gains |
| `RegionFreeList.FreeList.SeekGroup` | primary64.h:819-832 | walks to the group of a base, creating it in its sorted place if missing |
| `RegionFreeList.FreeList.CreateGroup` | primary64.h:773-787 | a new group is made of two blocks of class 0 |
| `RegionFreeList.FreeList.PushSegment` | primary64.h:850 | one run of blocks of one group is added to it; no group appears or goes |
| `RegionFreeList.FreeList.PushBlocksImpl` | primary64.h:767-872 | the list stays strictly sorted with only front batches partial and gains exactly the pushed multiset; PushedBlocks counts it |
| `RegionFreeList.FreeList.PushBlocks` | primary64.h:273-312 | the same for blocks in any order, sorted first when the region holds several groups |
| `RegionFreeList.FreeList.PopBlocksImpl` | primary64.h:949-1018 | the last blocks of the front batch, as many as asked for, leave the list; emptied nodes go back to class 0; nothing is popped iff the list is empty |
| `RegionFreeList.FreeList.CollectGroupsToRelease` | primary64.h:1449-1618 | exactly the groups worth it, in plain arithmetic, are taken out, in order, with the bytes they hold as checkpoint; the others stay, in order, with a checkpoint that never exceeds what they hold; no block or node is lost |
| `GroupChoice.TakenIffWorth` | primary64.h:1486-1547 | the groups taken are those worth it, each with what it holds as its checkpoint |
| `GroupChoice.WorthOfLarge` | primary64.h:1499-1507 | of blocks of a sixteenth of a page or more, a group is worth it iff it has gained at least as many bytes as whole pages hold a block |
| `GroupChoice.WorthOfSmall` | primary64.h:1499-1547 | of smaller blocks below 1600 bytes, iff it has gained so much, its free bytes reach the block size's share of its allocated ones, and it is full or has gained the further pages; of larger small blocks, never |
| `GroupChoice.TakenAreChosen` | primary64.h:1449-1618 | both, over a whole list, in plain arithmetic over its groups; the others stay |
| `GroupChoice.FullGroupGoes` | primary64.h:1519-1527 | a wholly allocated group with as many free blocks as it has room for goes once it has gained a page's worth |
| `GroupChoice.DenseIffNoWrap` | primary64.h:1507-1517 | a group of small blocks whose allocated bytes are all free passes the density test iff the blocks are smaller than 1600 bytes |
| `GroupChoice.NeverWorth` | primary64.h:1507-1517 | small blocks of 1600 bytes or more, as pages above 25600 bytes allow them: no group is ever worth releasing |
| `RegionFreeList.FreeList.TakeAllGroups` | primary64.h:1288-1290 | a forced release takes the whole list out and leaves it empty |
| `RegionFreeList.FreeList.CountIs` | primary64.h:1487-1488 | (Batches.size() - 1) * MaxCachedPerBatch + front count is the group's real block count |
| `RegionFreeList.FreeList.MergeGroupsToReleaseBack` | primary64.h:1699-1833 | both sorted lists become one strictly sorted list with the blocks of both, whatever was pushed or popped in between, and exactly the emptied nodes return to class 0 |
| `RegionFreeList.FreeList.MergeFront` | primary64.h:1739-1796 | two groups of one base become one, leaving one or two emptied nodes |
| `RegionFreeList.FreeList.InsertFront` | primary64.h:1798-1813 | a group whose base is missing goes in before the first greater one |
| `RegionFreeList.FreeList.AppendRest` | primary64.h:1724-1728 | what is left is appended |
| `RegionFreeList.FreeList.Stash` | primary64.h:1778-1792 | emptied nodes wait in eight slots, which are flushed when they would overflow |
| `Shuffling.EveryOrder` | common.h:110-117 | every order of the blocks can come out of the shuffle |
| `Shuffling.OneDrawEach` | common.h:110-117 | of different blocks, each order comes from one sequence of draws only: the shuffle is as even as its random numbers |
| `ConservedBlocks.Shuffle` | common.h:110-117 | its part of the array becomes what those draws make of it, a permutation, and no other element changes |
| `RegionMapping.RefillKeepsInv` | primary64.h:1043-1075 | a refill that can map what it needs carves at least one block, at most MaxNumBatches caches of them, and stays within what is mapped |
| `RegionMapping.StuckIff` | primary64.h:1046-1066 | a refill fails iff a full cache does not fit into what is mapped and the system does not map or every number of increments that would do exceeds the region |
| `RegionMapping.MapsFewest` | primary64.h:1049-1053 | what is mapped grows by the fewest increments that make room for a full cache |
| `RegionMapping.CarvesMost` | primary64.h:1070-1074 | as many blocks are carved as fit, up to MaxNumBatches caches |
| `RegionMapping.NeverEndsAcross` | primary64.h:1043-1075 | over any number of refills: if two blocks and a full cache fit into what is mapped at a time and that divides the group size, the last block carved never ends behind the group it starts in |
| `RegionMapping.JustTooLargeInStep` | primary64.h:1043-1075 | the one class that exceeds this, by 32 bytes, is carved one block and then two at a time |
| `RegionMapping.MapsInSteps` | allocator_config.h:57-162 | the configurations that map 2^18 bytes at a time are such, for all their class and group sizes |
| `RegionMapping.StopsAcrossGroups` | primary64.h:1043-1075 | mapping a page at a time, 64 refills of the 4112-byte class stop at a block that ends behind its group |
| `ConservedBlocks.SizeClass.PushAscending` | primary64.h:1089-1106 | new blocks are pushed run by run of one group, each run shuffled |
| `ConservedBlocks.SizeClass.Populate` | primary64.h:1020-1125 | every block carved is on the list, popped or was there before; taking the push out of PushedBlocks keeps the counters' meaning |
| `ConservedBlocks.SizeClass.Refill` | primary64.h:1046-1074 | the chunks are filled from the list or from as many new blocks as the mapping arithmetic says; they stay empty iff the list was empty and more memory was needed that the region or the system did not give |
| `ConservedBlocks.SizeClass.Allocate` | local_cache.h:40-58 | the thread's newest chunk if it has any, else a block from a refill; it is carved and no one else's; every carved block stays in exactly one place; no block is had iff chunks and list are empty and no memory could be mapped |
| `ConservedBlocks.SizeClass.Deallocate` | local_cache.h:60-76 | a live block goes on top of the chunks; iff they are full, the oldest half goes to the list first |
| `ConservedBlocks.SizeClass.Drain` | local_cache.h:177-184 | the oldest half of the chunks goes to the free list and the rest moves down, in order |
| `PrimaryAllocator.Allocator.constructor` | primary64.h:129-151 | an allocator in which nothing is carved meets the invariant |
| `PrimaryAllocator.Allocator.Allocate` | primary64.h:218-271 | whatever thread and class: the block is the thread's newest chunk if it has any, and one no user held; there is none iff chunks and list are empty and no memory could be mapped; the invariant of all classes, caches and lists over the one batch class is kept; other classes and other threads' chunks stay as they are |
| `PrimaryAllocator.Allocator.Deallocate` | primary64.h:273-312 | the same for a block given back, on whatever thread: it goes on top of the thread's chunks |
| `PrimaryAllocator.Allocator.Reuse` | local_cache.h:40-76 | a block given back is the next one its thread gets |
| `PrimaryAllocator.Allocator.Drain` | local_cache.h:177-184 | the oldest half of a thread's chunks goes and everything stays accounted for |
| `PrimaryAllocator.Allocator.DrainCache` | local_cache.h:177-184 | so for its cache of batch-class blocks |
| `PrimaryAllocator.Allocator.DrainThread` | local_cache.h:85-96 | draining the batch class last leaves the thread with no block of any class; no user's block is touched |
| `PrimaryAllocator.Allocator.CollectGroups` | primary64.h:1288-1298 | pulling groups out moves no block and no node; all groups go if the release is forced, else exactly those worth it, in plain arithmetic |
| `PrimaryAllocator.Allocator.MergeGroups` | primary64.h:1368-1372 | from any state in which groups are out, merging them back leaves every block in one place and the emptied nodes with the batch class |
| `PrimaryAllocator.Allocator.LiveIsNowhereElse` | primary64.h:170-192 | a live block is carved, not on its list, and in no thread's chunks |
| `PrimaryAllocator.Allocator.FreeBytes` | primary64.h:1261-1264 | AllocatedUser - (PoppedBlocks - PushedBlocks) * BlockSize is the number of bytes on the free list, and the difference counts the blocks that all threads have cached and users hold |
| `PrimaryAllocator.Allocator.AllReleased` | primary64.h:170-192 | once everything has come back and all threads have drained, the list holds every carved block and the counters agree |
| `PrimaryAllocator.Allocator.BatchClassReleased` | primary64.h:194-215 | with no class-0 block cached, the class-0 blocks on the batch class's list and those all other lists are made of add up to the carved ones, and PoppedBlocks - PushedBlocks counts the latter |
| `AllocatorRuns.Run1` | local_cache.h:40-76 | one call does what it should to the users' blocks and the threads' chunks, waits only for a locked region, fails only for want of memory, and leaves other classes and threads alone |
| `AllocatorRuns.RunAll` | primary64.h:1304-1308 | any sequence of calls is made one by one, each doing so; the invariant is kept, the groups that are out are left alone and nothing is carved in a region whose lock is held |
| `AllocatorRuns.UsersOfRun` | local_cache.h:40-76 | a run without a call on a class leaves its users and chunks as they were |
| `AllocatorRuns.HeldOnce` | local_cache.h:40-58 | after any run no block is in the users' hands twice |
| `RegionRelease.ReleasedGroupsFit` | primary64.h:1620-1697 | groups pulled out of a class's list are aligned, in the region and in order, and their pointers are distinct block boundaries of it: all that marking assumes |
| `RegionRelease.ReleasedIsNotInUse` | primary64.h:1305-1308 | a block recorded in a group that is out is neither live nor cached by any thread nor on the rest of the list |
| `RegionRelease.MemoryIsSafe` | primary64.h:1304-1308 | the same holds in every later state in which those groups are still out |
| `RegionRelease.RunBeside` | primary64.h:1304-1308 | whatever calls other threads make while groups are out, all of them are made, and none is handed a block that reaches into memory given back |
| `RegionRelease.ReleaseCollected` | primary64.h:1304-1372 | with any calls of other threads before and after the pages are given back: the memory is exactly that of the freed pages, no byte of it is live or cached, and the groups are merged back |
| `RegionRelease.ReleasePages` | primary64.h:1310-1329 | no byte of the memory given back while groups are out belongs to a block that is live, cached by any thread or on the rest of the list, and it is all the unused pages but for a withheld last one |
| `RegionRelease.ReleaseToOSMaybe` | primary64.h:1248-1375 | which groups are taken, in plain arithmetic; that the addresses given back cover exactly the pages these free, all the unused ones under the shipped configurations; and that no byte of them belongs to a live or cached block, whatever calls other threads make meanwhile |
| `LinkedLists.InsertKeeps` | list.h:286-298 | turning the neighbours towards a node written with its links inserts it |
| `LinkedLists.RemoveKeeps` | list.h:326-345 | turning the neighbours towards each other removes the node between them |
| `LinkedLists.NeighboursPointBack` | list.h:326-345 | the neighbours of a listed node point back at it and only an end lacks one: what insert and remove check |
| `LinkedLists.SinglyLinkedList.PushBack` | list.h:197-205 | the sequence gains the node at its end; no node outside the list changes |
| `LinkedLists.SinglyLinkedList.PushFront` | list.h:207-213 | the sequence gains the node at its front |
| `LinkedLists.SinglyLinkedList.PopFront` | list.h:215-221 | the sequence loses its first node |
| `LinkedLists.SinglyLinkedList.Insert` | list.h:224-233 | the node goes in behind the given one |
| `LinkedLists.SinglyLinkedList.Extract` | list.h:235-244 | the node behind the given one leaves |
| `LinkedLists.SinglyLinkedList.AppendBack` | list.h:246-258 | the other list's nodes follow and that list is empty |
| `LinkedLists.DoublyLinkedList.PushFront` | list.h:272-283 | the sequence gains the node at its front, linked both ways |
| `LinkedLists.DoublyLinkedList.Insert` | list.h:286-298 | the node goes in before the given one; the check of the predecessor's link, asserted in the body, holds |
| `LinkedLists.DoublyLinkedList.PushBack` | list.h:300-311 | the sequence gains the node at its end |
| `LinkedLists.DoublyLinkedList.PopFront` | list.h:313-321 | the sequence loses its first node |
| `LinkedLists.DoublyLinkedList.Remove` | list.h:326-345 | exactly the node leaves; the checks of both neighbours' links and of the ends, asserted in the body, hold |
| `ArenaModel.PagesPartitioned` | shared_arena_linux.cpp:884-1190 | every page below the bump offset is in exactly one of: the free list, an outstanding range, a stranded range; no page above it is in any |
| `ArenaModel.GappedIsCanonical` | shared_arena_linux.cpp:981-1003 | a list without touching neighbours is determined by the pages it covers |
| `ArenaModel.GivesIsDeterministic` | shared_arena_linux.cpp:941-1003 | giving a range back has one possible result |
| `ArenaModel.TakenIsFresh` | shared_arena_linux.cpp:1053-1131 | the pages taken overlap nothing outstanding or stranded and were free or above the bump offset |
| `ArenaModel.TakeKeepsInv` | shared_arena_linux.cpp:1029-1190 | handing pages out, or stranding them, keeps the arena's invariant |
| `ArenaModel.GiveKeepsInv` | shared_arena_linux.cpp:884-1018 | giving pages back keeps the arena's invariant |
| `ArenaModel.HandThenReturn` | shared_arena_linux.cpp:884-1190 | retrieve and store of one range restore a list that had a fit; pages from above the bump offset join the list |
| `FreeBlockList.CoalescedGives` | shared_arena_linux.cpp:941-1003 | inserting in address order and merging with both neighbours where they touch yields the gapped list of exactly the old pages and the new ones |
| `FreeBlockLinks.LinkedLooksValid` | shared_arena_linux.cpp:502-513 | every header reached in a linked list passes the corruption check, so the resets are not reached |
| `FreeBlockLinks.InsertingLinks` | shared_arena_linux.cpp:963-979 | writing the header and turning both neighbours links the block in |
| `FreeBlockLinks.JoiningLinks` | shared_arena_linux.cpp:982-1003 | absorbing the next block relinks around it and clears its magic |
| `FreeBlockLinks.UnlinkingLinks` | shared_arena_linux.cpp:1093-1102 | an exact fit leaves the list linked without it |
| `FreeBlockLinks.RelinkingUndoes` | shared_arena_linux.cpp:1149-1158 | the rollback from the unlinked header alone restores every header as it was |
| `FreeBlockLinks.ShrinkingLinks` | shared_arena_linux.cpp:1105-1110 | cutting the tail off a longer block keeps the list |
| `FreeBlockLinks.WriteElsewhere` | shared_arena.h:119-133 | writing pages outside every free block leaves the list alone |
| `ArenaAddresses.PageOffInvertsPageAddr` | shared_arena.h:332-337 | the two conversions are inverse, and page addresses are aligned |
| `ArenaAddresses.PagesInArena` | shared_arena_linux.cpp:744-745 | an arena's pages lie behind its header and within its share of the address space |
| `ArenaAddresses.BytesApart` | shared_arena_linux.cpp:744-745 | ranges that share no page of one arena, or lie in two, share no byte |
| `ArenaAddresses.HeadersApart` | shared_arena_linux.cpp:744-745 | no range shares a byte with the header of any arena |
| `ArenaAddresses.HandedOutIsStorable` | shared_arena_linux.cpp:885-899 | what retrieve hands out passes the guard of store and names the same pages |
| `ArenaAddresses.PlaceableIff` | shared_arena_linux.cpp:1133-1138 | for an alignment that divides the page, wherever the pages are, the header fits iff (NeededSize - Size) % Alignment <= NeededSize - Size - HeadersSize |
| `ArenaAddresses.MegabyteWithoutRoom` | shared_arena_linux.cpp:1133-1141 | a request of 80 bytes less than a megabyte aligned to 32, with 80 bytes of headers, takes 256 pages and has no room for its header |
| `ArenaAddresses.AlignedHeadersArePlaceable` | shared_arena_linux.cpp:1133-1138 | placement cannot fail when the alignment divides the header size and the base |
| `ArenaAddresses.ExactFitIsNotPlaceable` | shared_arena_linux.cpp:1133-1141 | it always fails for a request that fills its pages when the alignment does not divide the header size |
| `ArenaAddresses.PlacementFacts` | shared_arena_linux.cpp:1133-1138 | the block ends within the pages, is aligned, and no computation wraps; no more than an alignment is wasted behind it |
| `LogRing.WrappedDistance` | shared_arena_linux.cpp:570 | a distance below 2^32 survives the wrap of both counters |
| `LogRing.WrappedSlot` | shared_arena_linux.cpp:586 | the masked index of a wrapped counter is the true one's |
| `LogRing.SlotsDiffer` | shared_arena_linux.cpp:586 | a slot is reused only after a whole round |
| `LogRing.Ring.constructor` | shared_arena_linux.cpp:598-652 | a fresh ring is empty and holds 256 entries |
| `LogRing.Ring.Consume` | shared_arena_linux.cpp:564-595 | the consumer takes entries in append order, each as it was written |
| `LogRing.Ring.ConsumerRuns` | shared_arena_linux.cpp:571-576 | the consumer may advance Head any number of times up to Tail without disturbing anything |
| `LogRing.Ring.Reserve` | shared_arena_linux.cpp:568-582 | Head is reread only while the ring looks full, at most twice; there is room iff fewer than a ring of entries are unread by then, else one drop is counted |
| `LogRing.Ring.Append` | shared_arena_linux.cpp:545-596 | one entry is appended iff its size is a positive number of pages and there is room, else the ring is as before |
| `SharedArena.Arena.UserWrite` | shared_arena.h:119-133 | the owner of outstanding pages may write anything there |
| `SharedArena.Arena.FindPlace` | shared_arena_linux.cpp:941-961 | the walk finds the neighbours in address order; the corruption branch is not taken |
| `SharedArena.Arena.LinkIn` | shared_arena_linux.cpp:963-979 | the header is written and linked, and FreeCount goes up |
| `SharedArena.Arena.Absorb` | shared_arena_linux.cpp:981-1003 | a touching successor is merged and FreeCount goes down |
| `SharedArena.Arena.InsertAndMerge` | shared_arena_linux.cpp:941-1003 | after the two merges the list covers exactly the given pages in addition and no two blocks touch |
| `SharedArena.Arena.Store` | shared_arena_linux.cpp:884-1018 | the invariant is kept; success returns the range, logs one Free entry and counts it; a refusal changes nothing and means the guard failed or the ring is full |
| `SharedArena.Arena.FindBestFit` | shared_arena_linux.cpp:1053-1087 | the first block of least sufficient size, or none iff none is large enough |
| `SharedArena.Arena.TakeFromBlock` | shared_arena_linux.cpp:1089-1112 | the block gives up its last pages: unlinked if exact, else shrunk |
| `SharedArena.Arena.TakePages` | shared_arena_linux.cpp:1053-1131 | pages come from the best fit, else above the bump offset, else the arena is unchanged |
| `SharedArena.Arena.Relink` | shared_arena_linux.cpp:1149-1158 | list, head and headers are exactly what they were before the unlink |
| `SharedArena.Arena.PutBack` | shared_arena_linux.cpp:1148-1165 | all three ways of taking pages are undone |
| `SharedArena.Arena.LogTaken` | shared_arena_linux.cpp:1143-1173 | either the entry is logged and counted or everything is as before |
| `SharedArena.Arena.PlaceAndLog` | shared_arena_linux.cpp:1133-1190 | the placement check strands the pages exactly when the header does not fit |
| `SharedArena.Arena.Retrieve` | shared_arena_linux.cpp:1029-1190 | the invariant is kept; success hands out fresh pages, in bytes behind the arena's header and within its share, with an aligned block behind its header, and logs one Alloc entry; otherwise nothing changes, except that pages are stranded iff they could be taken and the request has no room for its header |
| `ArenaLog.LogHandedOut` | shared_arena_linux.cpp:1146-1147 | handing a range out and logging it keep the replay equal to the outstanding pages |
| `ArenaLog.LogGivenBack` | shared_arena_linux.cpp:913-915 | so do giving it back and logging that, in whichever ring |
| `ArenaLog.LogOther` | shared_arena_linux.cpp:587-588 | entries of other cores do not affect a core's replay |
| `SharedArenaPool.PageIsRoutedHome` | shared_arena_linux.cpp:1252-1261 | every page of an arena is routed to that arena |
| `SharedArenaPool.OwnerInRange` | shared_arena.h:404-410 | an address that passes isArenaAddr has an owner |
| `SharedArenaPool.Pool.Allocate` | shared_arena_linux.cpp:1029-1190 | on any core, with any ring: success iff pages can be taken, the header has room and the ring has room for the entry; all invariants hold and replaying all rings' entries of a core yields its outstanding pages |
| `SharedArenaPool.Pool.Release` | shared_arena_linux.cpp:884-1018 | the same for a free, also one logged to another core's ring: success iff the guard accepts the range and the ring has room |
| `SharedArenaPool.Pool.OutstandingIsAccepted` | shared_arena_linux.cpp:885-899 | an outstanding block is accepted by store's guard, which names the same pages |
| `SharedArenaPool.Pool.BlocksApart` | shared_arena_linux.cpp:744-745 | no two outstanding blocks, of whichever cores, share a byte, and none lies on an arena's header |
| `SharedArenaPool.Pool.AllocateAndRelease` | shared_arena_linux.cpp:884-1190 | a block just handed out goes back to its arena, which is then as before, unless the ring is full |
| `SharedArenaPool.Pool.KernelConsumes` | shared_arena_linux.cpp:571-576 | the kernel's reading changes none of this |
| `ArenaLocks.StepKeepsInv` | shared_arena_linux.cpp:903-934 | a lock word is 1 exactly while one thread holds it, whatever step is taken |
| `ArenaLocks.MutualExclusion` | shared_arena_linux.cpp:518-533 | over every run, at most one thread holds an arena's lock |
| `ArenaLocks.NoDeadlock` | shared_arena_linux.cpp:903-911 | taking two locks in core order never deadlocks: while a thread is busy some thread can progress |
| `ArenaLocks.TakeAndFree` | shared_arena_linux.cpp:903-911 | a thread alone takes its lock and gives it back |
| `ArenaSteps.PlaceOfIsPlace` | shared_arena_linux.cpp:941-961 | the walk that stops at the first higher address finds the block's place in address order |
| `ArenaSteps.FillingReturns` | shared_arena_linux.cpp:963-1003 | the three changes of store's list amount to one return of the pages |
| `ArenaSteps.LogGiveStep` | shared_arena_linux.cpp:913-925 | from the moment store's entry is in the ring the arena counts as having the pages back |
| `ArenaSteps.FinishTakeStep` | shared_arena_linux.cpp:1133-1165 | a retrieve counts from the moment its entry is in the ring; a full ring undoes it and a failed placement strands the pages |
| `ArenaSteps.StepRefines` | shared_arena_linux.cpp:884-1190 | every step of every thread keeps the invariant and is one whole call or none, with a store's log append and list changes under two locks interleaved with other threads' calls |
| `ArenaSteps.RunOfCalls` | shared_arena_linux.cpp:884-1190 | so every run is a run of whole calls made one after the other |
| `ArenaSteps.LogsAgree` | shared_arena_linux.cpp:913-915 | in every state of every run, also in the middle of calls, replaying all rings' entries of a core yields its outstanding pages, and an unlocked arena is in order |
| `ArenaSteps.SomeoneMoves` | shared_arena_linux.cpp:903-934 | while any thread is in a call, some thread that is can take a step |
| `ArenaSteps.RetrieveAndStore` | shared_arena_linux.cpp:884-1190 | a run in which one thread retrieves two pages and stores them again: the log has both entries, the list the pages |
| `HybridMutex.StepKeepsInv` | linux.cpp:114-140 | the mutex invariant is kept by every atomic step of every thread |
| `HybridMutex.MutualExclusion` | linux.cpp:114-140 | over every run and any number of threads at most one holds the mutex, and its word is then Locked or Sleeping |
| `HybridMutex.NoLostWakeup` | linux.cpp:119-140 | while a thread sleeps, the word is Sleeping under an owner, or an unlocker is between its fetch_sub and its wake, or a woken thread has not redone its exchange |
| `HybridMutex.SomeoneIsAwake` | linux.cpp:119-140 | while a thread sleeps, another is awake and has a step |
| `HybridMutex.TriesBeforeSleeping` | mutex.h:27-43 | in every state of every run a thread has tried at most 1 + NumberOfTries times in its call of lock, and exactly so often if it is in lockSlow |
| `HybridMutex.TryTakesFreeMutex` | linux.cpp:114-124 | over every run a compare-exchange takes a free mutex and leaves it Locked; it fails only while another thread owns it |
| `HybridMutex.SleepingMeansContended` | linux.cpp:119-132 | the word is Sleeping only if a thread that had given up trying, or had waited, has exchanged since it last was anything else |
| `HybridMutex.SleepsUnderOwner` | linux.cpp:127-131 | a waiter falls asleep iff the word is still Sleeping, and then there is an owner |
| `HybridMutex.UncontendedIsFast` | mutex.h:27-43 | in a run whose calls do not overlap, no try fails, no one waits or is woken and the word is never Sleeping |
| `HybridMutex.EveryoneCanStep` | linux.cpp:114-140 | no thread is ever stuck |
| `HybridMutex.LockAndUnlock` | linux.cpp:114-140 | a thread alone takes the mutex at its first try and gives it back in one step |
| `PopulateProtocol.StepKeepsInv` | primary64.h:874-947 | the protocol's invariant is kept by every step |
| `PopulateProtocol.OnePopulater` | primary64.h:880-913 | over every run at most one thread populates the region, and the flag is then set |
| `PopulateProtocol.WaitsOnlyIfEmpty` | primary64.h:926-945 | over every run a thread waits only on an empty list that another is filling; one that looks for blocks leaves exactly when there are some, with fewer left |
| `PopulateProtocol.ListChangesUnderLock` | primary64.h:874-947 | over every run the list changes only in the hands of the lock's owner or while no one has it, and only pushing or populating adds blocks |
| `PopulateProtocol.SleeperIsAwaited` | primary64.h:931-939 | while a thread sleeps on the condition variable the flag is set by a thread that will notify, or that thread is on its way to the wake |
| `PopulateProtocol.WakeReachesAll` | condition_variable_linux.cpp:24-37 | the wake is never skipped while someone sleeps, and leaves no one asleep |
| `PopulateProtocol.SomeoneCanStep` | primary64.h:874-947 | while a thread sleeps another can step |
| `PopulateProtocol.FillAlone` | primary64.h:874-947 | a run in which a thread alone finds the list empty, fills it, notifies and leaves with the flag clear |
| `Quarantine.MergeKeeps` | quarantine.h:43-58 | merging two batches loses no pointer and no byte, keeps their order and leaves an empty batch |
| `Quarantine.QuarantineCache.Enqueue` | quarantine.h:75-86 | the pointer goes to the end, into a new batch iff there is none or the last is full; Size grows by the bytes and the batch |
| `Quarantine.QuarantineCache.DequeueBatch` | quarantine.h:99-106 | the oldest batch leaves with its bytes |
| `Quarantine.QuarantineCache.Transfer` | quarantine.h:88-92 | the other cache's batches follow, in order, and that cache is empty |
| `Quarantine.QuarantineCache.MergeBatches` | quarantine.h:108-128 | pointer order and total bytes over both caches are kept and no two neighbours can be merged any more |
| `Quarantine.GlobalQuarantine.Put` | quarantine.h:201-205 | the chunk stays in the thread's cache, and nothing else changes, iff that stays within its limit; else that cache is drained as below |
| `Quarantine.GlobalQuarantine.Drain` | quarantine.h:207-217 | all chunks stand in order in the global cache, unless they exceed its limit and no one is recycling: then the oldest batches are recycled, no more than bring the size within the lower limit |
| `Quarantine.GlobalQuarantine.DrainAndRecycle` | quarantine.h:219-226 | everything held is recycled |
| `Quarantine.GlobalQuarantine.Recycle` | quarantine.h:256-286 | the batches, merged iff they outweigh their chunks, are recycled from the oldest on, each chunk once: as few batches as bring the size within the limit |
| `Quarantine.GlobalQuarantine.Extract` | quarantine.h:277-280 | the fewest oldest batches that bring the size within the limit leave, in order |
| `Quarantine.GlobalQuarantine.DoRecycle` | quarantine.h:288-306 | every chunk of every batch is recycled once and every batch freed once |
| `SecondaryCache.PartitionRemove` | secondary.h:569-574 | moving an entry from the LRU to the available list keeps both a partition of the entries |
| `SecondaryCache.PartitionInsert` | secondary.h:561-567 | so does taking the first available entry into use |
| `SecondaryCache.SuitsMeansFits` | secondary.h:433-447 | below the front end's limits the word tests pass iff header and aligned request fit the block with no more than the allowed waste |
| `SecondaryCache.WordsDoNotWrap` | secondary.h:433-463 | and then all the words computed on the way are what they would be without wrapping |
| `SecondaryCache.MapAllocatorCache.SetMaxEntriesCount` | secondary.h:522-529 | a negative limit is refused, one below 2^32 is clipped to the array, a multiple of 2^32 turns the cache off |
| `SecondaryCache.MapAllocatorCache.Remove` | secondary.h:569-574 | one entry's mapping leaves the cache and its slot becomes available |
| `SecondaryCache.MapAllocatorCache.Insert` | secondary.h:561-567 | the block becomes the most recent entry |
| `SecondaryCache.MapAllocatorCache.ReleaseOlderThan` | secondary.h:592-613 | exactly the entries with a time up to T are released, also on the early return; no unreleased entry with time <= T remains |
| `SecondaryCache.MapAllocatorCache.Evict` | secondary.h:376-381 | the least recent entries are unmapped, once each, until there is room, and no more |
| `SecondaryCache.MapAllocatorCache.InsertEvicting` | secondary.h:336-388 | the first locked section of store: the block becomes the most recent entry, the least recent ones are unmapped to make room, and the others stay as they are |
| `SecondaryCache.MapAllocatorCache.Store` | secondary.h:303-396 | the stored mapping is the most recent entry; every mapping is cached or unmapped exactly once; each entry kept is released by the release time or else unchanged |
| `SecondaryCache.MapAllocatorCache.ReleasedByStore` | secondary.h:392-395 | store releases an entry's pages iff it has not been used for the interval or the system has not been up for the interval |
| `SecondaryCache.MapAllocatorCache.ReleasedAtOnce` | secondary.h:392-395 | one second after boot with a five-second interval, the pages of the block just stored are released |
| `SecondaryCache.MapAllocatorCache.FindFit` | secondary.h:432-466 | none found iff none suits; the one found wastes less than all suitable ones before it, and least of all unless it was close enough to stop |
| `SecondaryCache.MapAllocatorCache.Retrieve` | secondary.h:398-507 | a block is found iff one fits; it wastes less than those before it, and least of all unless it or none wastes little; it leaves the cache, the others stay; where header and block lie and how many bytes in front are released is exact |
| `SizeClassMap.NextSize` | size_class_map.h:80-87 | the size of the next class is larger by the step of its power of two |
| `SizeClassMap.StrictlyIncreasing` | size_class_map.h:80-87 | sizes strictly increase with the class, for all parameters |
| `SizeClassMap.ScaledLog2Position` | size_class_map.h:18-23 | scaledLog2 finds the last class size not above the argument |
| `SizeClassMap.ClassFits` | size_class_map.h:95-103 | the class found is large enough and the one before too small |
| `SizeClassMap.ClassIsLeast` | size_class_map.h:95-103 | a class is large enough iff it is not below the one getClassIdBySize finds |
| `SizeClassMap.ClassRoundTrip` | size_class_map.h:80-103 | getClassIdBySize inverts getSizeByClassId on every class |
| `SizeClassMap.LargestSize` | size_class_map.h:73-87 | the largest class has MaxSize |

## Left out

- Mapping, unmapping, `madvise`, shared-memory setup, fork handling, per-cpu lookup and
  environment flags: calls into the system.  The kernel appears as the log's consumer, the
  futex, and memory that comes with arbitrary contents.
- Memory tagging, GWP-ASan hooks, the stack depot, statistics and error reports.
- `primary32.h`: nearly the same free-list algorithms under one lock.
- `TableSizeClassMap`: a table filled from the configuration; only the arithmetic map is modelled.
- The adaptive thresholds that time a release: `hasChanceToReleasePages` and the updates of `TryReleaseThreshold`.
- Store in the secondary cache and drain in the quarantine take their lock twice; both are one step here.  Each locked section keeps the invariant on its own (`InsertEvicting` and `ReleaseOlderThan`, `Transfer` and `Recycle`), but what a call ensures as a whole is not stated for other threads' calls in between.
- The bench-only modes of the arena (no kernel, free list disabled), its `reset`, and the memory-pressure check of the pool.
- The secondary cache's quarantine array, `empty`, `disableMemoryTagging` and the release interval option.
- C++ memory-order weakness: atomics are sequentially consistent steps.
- The arena's walk and header writes inside one lock are steps of `SharedArena` only: `ArenaSteps` takes each change of the list as one step.
- The primary's operations are atomic in `PrimaryAllocator`: interleaving inside one, under its locks, is not modelled, except that other threads may use the list while groups are out for a page release.
- `popBlocksWithCV` and the list it pops from are separate models: `PopulateProtocol` counts blocks, `RegionFreeList` says which they are.
- PopulateProtocol.WakeReachesAll: the 32-bit counter of the condition variable is a natural number, so a counter that comes round to the same value during one wait is not covered.
- SharedArena.Arena.Store: a range that is neither outstanding nor refused by the guard is outside the model, because the source does not check it.
- SharedArenaPool.Pool.Allocate: the arena of a core that failed to initialise is not modelled, so every core has an arena.
- RegionFreeList.FreeList.PushBlocks: the position of a block inside its group's batches is not stated, only which group holds it and how the batches are filled.
- SecondaryCache.MapAllocatorCache.Store: with a limit of no entries the source's eviction loop would take from an empty list; its caller checks `canCache` first, and so does the model.
