# Memory Pool System: models and proofs

This project models six cores of the Memory Pool System in Dafny and proves what they promise.

**Coalescing blocks** (`Ranges`, `RangeLists`, `EmergencyList`, `Cbs`, `CbsRuns`, `CbsLosses`, `FastFind`, `SplayTree`).
Free memory is kept as isolated ranges in a tree of blocks and, when a block cannot be allocated, on two lists threaded
through the free memory itself.  The lists are nodes in an array of words, so that what the structure writes, and where,
is part of the model.  Over every run, whatever allocations fail, the three structures together denote one set of
isolated ranges, and every answer is that of a reference on sets of ranges.  `FastFind` shows that the sizes cached in
tree nodes prune a search exactly, and `SplayTree` that splaying, with its lazy updates, keeps the order of the blocks
and those sizes.

**Virtual memory arena** (`Intervals`, `PageTable`, `VmArena`, `Arena`, `ZoneSearch`).  The descriptors of pages are
themselves in pages that are mapped as needed, and a descriptor can straddle two of them.  Descriptors of allocated and
spare pages are always readable, through failures half way and lazily reset bits; the accounts balance and the limits
are kept over every run.  `ZoneSearch` is the search for free pages in given zones, with addresses that wrap round.

**Bit tables** (`BitTable`, `BitSearch`, `BitSet`).  Operations that act a word at a time equal their bit-by-bit
meaning.  The skipping search for a run of reset bits finds the right run without testing any bit twice, and searching
downwards is searching the mirror image upwards.

**Allocation buffers** (`Buffer`).  The reserve and commit protocol as atomic steps interleaved in any order with
flips, and the same operations as methods of a class, proved to be those steps.

**Location dependencies** (`LocationDependency`).  Staleness is asked without a lock, with flips between the loads.

**Dylan objects** (`DylanFormat`, `DylanObjects`, `DylanScan`).  Skipping and scanning agree about where objects end,
and forwarding and padding leave regions walkable.

Foreign calls are nondeterministic: a block or a mapping may be refused at any time, a pool grants any suitable region
or none, a fix may change any reference to any other, and other threads may flip between any two loads.

## Where the code and its documentation differ

- `CBSInsert` of memory that overlaps free memory is documented to fail and change nothing.  With emergency lists in use
  the scan may already have unlinked an adjacent range, which is then lost.  `CBS.Insert` says exactly when nothing is
  lost, and `CbsLosses.FailedFreeLoses` is an example.  The scan can also stop at two neighbours and miss an overlapping
  grain (`Ranges.Hidden`).  If no block overlaps either, `CBSInsert` returns `ResOK`, and the grain is then held twice.
  An assertion in the flush of the lists notices only if no block is refused, for the range or before the flush comes to
  the grain; but the lists exist because blocks are refused.  `CBS.Insert` says exactly when all this happens, and
  `CbsLosses.OverlapMissed` is an example.
- `CBSDelete` without inline use is documented to change nothing if it lacks memory for a fragment.  The range is
  removed and the smaller fragment is lost, exactly if the range is inside a free one and a block is refused: see
  `CBS.Delete` and `CbsLosses.SplitLoses`.
- `sparePagesPurge` asserts that only the last page of the page table can have no descriptor to look at.  That needs
  room for two descriptors (less a byte) on a page; the stated assumption is only that one fits.  `VMChunk.Purge` says
  exactly when the assertion holds, and in `PurgeAssertionFails` it does not.  Without the assertion the purge is right
  for every size.
- `dylan_wrapper_check` means to check that the bits left over in the last pattern word are zero.  If the number of
  fields is a multiple of the word width it demands that the whole word be zero: `LastPatternCheckMeans`.
- `dylan_scan1` asserts that it never meets the stretchy formats, which `dylan_skip` handles.  Where the code after the
  assertion would end the scan is where skipping ends.

## Model

| member | source | states |
|---|---|---|
| Ranges.CoverDeterminesRanges | mps/code/cbs.c:110-138 | free memory can be held as isolated ranges in only one way, so the three structures denote one set |
| Ranges.CoveredRunIsInOneRange | mps/code/cbs.c:909-935 | a run of free addresses always lies inside a single isolated range, so deletion needs to look at one range only |
| Ranges.MeetsIsSharing | mps/code/cbs.c:471-512 | a range to be freed overlaps some isolated range exactly if it shares an address with free memory |
| Ranges.CoalescedIsIsolated | mps/code/cbs.c:514-562 | freeing a range that is not free keeps the ranges isolated and adds exactly its addresses |
| Ranges.CarvedIsIsolated | mps/code/cbs.c:938-990 | allocating part of one range keeps the ranges isolated and removes exactly its addresses |
| Ranges.CarvedEnds | mps/code/cbs.c:1322-1369 | allocating the low end of a range leaves exactly what is above it, the high end what is below, and all of it nothing |
| Ranges.CoalesceInTwoSteps | mps/code/cbs.c:839-890 | coalescing first with the emergency ranges and then with the tree is coalescing with both together |
| Ranges.NothingLostIff | mps/code/cbs.c:571-684 | what a failed free leaves out is nothing exactly if the scans stop before dropping a neighbour; `CBS.Insert` has this as its failure clause |
| Ranges.HiddenMerge | mps/code/cbs.c:634-684 | where the scans miss an overlap, what they extend the range to adjoins no block, and every range still listed is apart from it or is a grain missed, inside it |
| RangeLists.ScanFromMeaning | mps/code/cbs.c:571-684 | a bounded scan of an ordered list absorbs exactly the adjacent ranges, or stops at an overlap |
| RangeLists.FirstScan | mps/code/cbs.c:590-632 | the scan of the block list absorbs all its neighbours of the range: at most two |
| RangeLists.SecondScan | mps/code/cbs.c:634-684 | the scan of the grain list, with what is left of two coalescences, still absorbs all that are adjacent |
| Ranges.SecondMerge | mps/code/cbs.c:571-684 | the two scans together merge the range with every adjacent emergency range |
| EmergencyLists.ChainUnlink | mps/code/cbs.c:571-684 | taking out a node leaves a chain of the other nodes, though only the word before it changes |
| EmergencyLists.ChainLink | mps/code/cbs.c:692-765 | putting in a node gives a chain of all of them, ascending still |
| EmergencyLists.ChainFrame | mps/code/cbs.c:36-80 | a chain is not disturbed by any change outside the ranges it holds |
| EmergencyLists.EmergencyList.Coalesce | mps/code/cbs.c:571-684 | absorbs adjacent ranges in place, writing only to words of ranges it still holds or of those absorbed |
| EmergencyLists.EmergencyList.Add | mps/code/cbs.c:692-765 | adds a range apart from all others at its place in address order, writing only to free memory |
| EmergencyLists.EmergencyList.Take | mps/code/cbs.c:995-1087 | takes off the one range that holds what is wanted, or fails with nothing changed |
| EmergencyLists.EmergencyList.Pop | mps/code/cbs.c:770-831 | takes off the first range and leaves the rest chained |
| EmergencyLists.EmergencyList.FirstFit | mps/code/cbs.c:1395-1440 | the lowest range of at least a size, if below one already found |
| EmergencyLists.EmergencyList.LastFit | mps/code/cbs.c:1478-1530 | the highest range of at least a size, if above one already found |
| EmergencyLists.EmergencyList.LargestFit | mps/code/cbs.c:1565-1615 | the largest range of a list, if at least a size |
| CoalescingBlocks.CBS.BlockGrow | mps/code/cbs.c:407-427 | after a block has grown, the client has been told of exactly the blocks of at least the minimum size, at their true sizes |
| CoalescingBlocks.CBS.BlockShrink | mps/code/cbs.c:385-405 | the same after a block has shrunk |
| CoalescingBlocks.CBS.BlockNew | mps/code/cbs.c:429-469 | a new block is in the tree and known to the client if large enough, or allocation fails and nothing changes |
| CoalescingBlocks.CBS.BlockDelete | mps/code/cbs.c:358-383 | a block leaves the tree and is emptied and, if it was known, the client is told |
| CoalescingBlocks.CBS.TreeNeighbours | mps/code/cbs.c:481-512 | finds the neighbours of a key, failing exactly if the key falls inside a block |
| CoalescingBlocks.CBS.InsertIntoTree | mps/code/cbs.c:471-562 | coalesces with the tree; fails exactly on overlap, and lacks memory exactly if a block is refused, which is asked for only if no block is adjacent; of two merged blocks the larger survives |
| CoalescingBlocks.CBS.CoalesceWithEmergencyLists | mps/code/cbs.c:571-684 | removes from the lists exactly the adjacent ranges and extends the range over them, or fails on overlap |
| CoalescingBlocks.CBS.AddToEmergencyLists | mps/code/cbs.c:692-765 | puts the range on one of the lists, even around grains that the scans have missed; the branch for neither size is never reached |
| CoalescingBlocks.CBS.FlushEmergencyLists | mps/code/cbs.c:770-831 | moves emergency ranges to the tree; the free ranges stay the same whichever allocation fails; the assertion in it fails only at a range that the tree overlaps, and if it holds and no block is refused the lists end empty |
| CoalescingBlocks.CBS.Insert | mps/code/cbs.c:839-890 | fails exactly if the range overlaps free memory, unless that is only grains which the scans miss; on failure exactly what had been dropped is lost, nothing just if the scans stop short; on success all structures together hold the coalesced set, all of it in the tree unless a block is refused; for a missed overlap it says what is returned and then held twice, and that the assertion in the flush holds just if a block is refused |
| CbsLosses.OverlapMissed | mps/code/cbs.c:571-684 | from given blocks and a given grain, freeing a range over the grain succeeds, and the grain is held twice |
| CbsLosses.FailedFreeLoses | mps/code/cbs.c:571-684 | from given blocks, a free that fails leaves a block no longer free |
| CbsLosses.SplitLoses | mps/code/cbs.c:938-990 | from a given block, an allocation from its middle loses the smaller end exactly if a block is refused |
| CoalescingBlocks.CBS.DeleteFromTree | mps/code/cbs.c:909-990 | carves the range out of the one block holding it; on a split the larger fragment keeps the block; lacks memory exactly if both ends are left, a block is refused and free memory may not be used |
| CoalescingBlocks.CBS.FragmentSizes | mps/code/cbs.c:952-985 | the two fragments of a split are the smaller and the larger, the left one counting as the larger on a tie |
| CoalescingBlocks.CBS.DeleteFromList | mps/code/cbs.c:995-1087 | carves the range out of an emergency range and keeps what is left of it |
| CoalescingBlocks.CBS.Delete | mps/code/cbs.c:1095-1126 | fails exactly if not all of the range is free, and then nothing changes, not even a word of memory; lacks memory exactly if both ends of the range holding it are left, a block is refused and free memory may not be used, and then loses the smaller end; otherwise exactly its addresses go, and if no block is refused all that is free is in the tree |
| CoalescingBlocks.CBS.FindDeleteRange | mps/code/cbs.c:1322-1369 | of a range just found LOW takes the part of the size at its base, HIGH the part at its limit, ENTIRE all of it and NONE nothing; the deletion never fails and never needs memory |
| CoalescingBlocks.CBS.FindFirst | mps/code/cbs.c:1374-1452 | finds the lowest adequate range over all three structures, failing exactly if there is none; LOW takes the part of the size at its base and HIGH the part at its limit; the lists end empty unless a block is refused |
| CoalescingBlocks.CBS.FindLast | mps/code/cbs.c:1457-1540 | the same for the highest adequate range |
| CoalescingBlocks.CBS.FindLargest | mps/code/cbs.c:1545-1625 | finds a range of the greatest size over all three structures, and takes all of it or nothing |
| CoalescingBlocks.CBS.SetMinSize | mps/code/cbs.c:1256-1302 | after the minimum size changes the client knows exactly the blocks of at least the new size |
| CoalescingBlocks.CBS.TwoStages | mps/code/cbs.c:839-890 | freeing against the lists and then the tree succeeds, fails and merges as freeing against all at once |
| CbsRuns.RunsKeepIsolation | mps/code/cbs.c:110-138 | over every run the free ranges stay pairwise disjoint and non-adjacent |
| CbsRuns.StepKeepsIsolation | mps/code/cbs.c:839-1126 | each rightly answered operation keeps isolation; freeing adds exactly its addresses, allocating takes exactly those answered |
| CbsRuns.TakenIsIsolated | mps/code/cbs.c:1095-1126 | taking a range leaves isolated ranges and does not depend on how the range holding it was found |
| CbsRuns.OneRangeOnly | mps/code/cbs.c:1095-1126 | only one range can hold what is to be allocated, wherever each is kept |
| CbsRuns.FindLeaves | mps/code/cbs.c:1322-1369 | after a find that takes the low end of the range found exactly the part above it is left, after one that takes the high end the part below |
| CbsRuns.LowIsLowestRun | mps/code/cbs.c:1374-1452 | finding first and taking the low end takes the lowest run of free addresses of the size, failing exactly if there is no such run |
| CbsRuns.HighIsHighestRun | mps/code/cbs.c:1457-1540 | finding last and taking the high end takes the highest |
| CbsRuns.Run | mps/code/cbs.c:839-1625 | over every run of a client that frees and writes only what is not free, whatever block allocations fail, the tree and lists together hold the reference set, every answer is right for it, and what the client has written is still there until it frees it |
| CbsRuns.WriteWord | mps/code/cbs.c:36-80 | what the client writes to a word that is not free disturbs neither list |
| CbsRuns.StillKept | mps/code/cbs.c:36-80 | an operation that changes only free memory leaves alone what the client has written and not freed |
| FastFind.UpdateNode | mps/code/cbs.c:235-265 | recomputing a node from its children makes its maximum exact for its subtree |
| FastFind.RotateLeft | mps/code/splay.c:177-200 | a rotation keeps the address order and makes the old root exact, whatever the caches of both nodes and of the path below |
| FastFind.RotateRight | mps/code/splay.c:209-232 | the mirror image of the left rotation |
| FastFind.TestTreeIsExact | mps/code/cbs.c:214-231 | a subtree passes the test exactly if it has a block of the size |
| FastFind.FindFirstIsFirst | mps/code/cbs.c:196-231 | the pruned descent finds the first adequate block in address order, or none if there is none |
| FastFind.FindLastIsLast | mps/code/cbs.c:196-231 | the pruned descent to the right finds the last |
| FastFind.DescentFindsLowest | mps/code/cbs.c:1374-1410 | in a tree ordered by address the descent finds the lowest adequate block, failing exactly if there is none |
| FastFind.DescentFindsHighest | mps/code/cbs.c:1457-1495 | the other descent finds the highest |
| FastFind.RootSizeFindsLargest | mps/code/cbs.c:1545-1580 | looking for a block of the size cached at the root finds a largest one |
| SplayTrees.SplayTurnLess | mps/code/splay.c:367-405 | one turn of the splay, the path leading left: exactly two steps down the path, or at most one where it ends, and neither side more than one node longer; the order of the whole is kept and only the caches on the path are out of date |
| SplayTrees.SplayTurnGreater | mps/code/splay.c:407-444 | the mirror image |
| SplayTrees.AssembleLeft | mps/code/splay.c:254-285 | joining the left tree to the top updates its spine from the end up, which makes every cache in it exact |
| SplayTrees.AssembleRight | mps/code/splay.c:288-318 | the same for the right tree |
| SplayTrees.SplaySplay | mps/code/splay.c:336-476 | brings the last node of the search path to the top, in at most half as many turns as the path has steps, and one more; the order stays, and caches out of date only on the path are exact afterwards, unless the node was the root already |
| SplayTrees.DescendByKey | mps/code/cbs.c:169-192 | a search by address succeeds exactly if a block holds the key, and otherwise ends at a neighbour of it |
| SplayTrees.SplayTree.SplayTreeSearch | mps/code/splay.c:578-590 | finds the block holding a key, failing exactly if there is none |
| SplayTrees.SplayTree.SplayTreeInsert | mps/code/splay.c:484-527 | fails exactly if a block holds the new base; otherwise the new block is at its place in the order and every cache is exact |
| SplayTrees.SplayTree.SplayTreeDelete | mps/code/splay.c:536-569 | takes out exactly the block holding the key, failing if there is none |
| SplayTrees.SplayTree.SplayTreePredecessor | mps/code/splay.c:600-629 | brings the last block below the key to the top |
| SplayTrees.SplayTree.SplayTreeSuccessor | mps/code/splay.c:637-666 | brings the first block above the key to the top |
| SplayTrees.SplayTree.SplayTreeNeighbours | mps/code/splay.c:677-709 | the blocks next below and next above a key, failing exactly if a block holds it |
| SplayTrees.ResizedOffPath | mps/code/cbs.c:385-427 | when a block changes its bounds, the only caches that become wrong are on the path to it by its new base |
| SplayTrees.SplayTree.SplayNodeRefresh | mps/code/splay.c:982-996 | splaying at the changed node and updating it alone makes every cache exact again |
| SplayTrees.SplayTree.Resize | mps/code/cbs.c:385-427 | a block that grows or shrinks within the gap around it leaves a valid tree, with that block changed |
| SplayTrees.FirstPath | mps/code/splay.c:808-837 | the comparison leads to the first adequate block, and its two assertions hold at every node of the path |
| SplayTrees.LastPath | mps/code/splay.c:839-868 | the same for the last adequate block |
| SplayTrees.SplayTree.SplayFindFirst | mps/code/splay.c:883-914 | the lowest adequate block, failing exactly if there is none, with the order kept and every cache exact |
| SplayTrees.SplayTree.SplayFindLast | mps/code/splay.c:919-949 | the highest adequate block likewise |
| SplayTrees.SplayTree.FindLargest | mps/code/cbs.c:1564-1580 | a search by the size cached at the root finds a largest block |
| SplayTrees.FirstAgrees | mps/code/cbs.c:1395-1402 | a splay tree and a set with the same blocks find the same first block |
| SplayTrees.LastAgrees | mps/code/cbs.c:1478-1485 | and the same last block |
| SplayTrees.NeighboursAreUnique | mps/code/splay.c:677-709 | a search for neighbours has one right answer, which both the splay tree and the set of blocks give |
| PageTables.PageTable.constructor | mps/code/arenavm.c:120-155 | descriptors laid end to end in table pages: none spans more than two, and order is kept |
| PageTables.PageTable.TablePageBaseIndex | mps/code/arenavm.c:547-558 | the descriptors below the index are exactly those that end before the table page |
| PageTables.PageTable.TablePageWholeBaseIndex | mps/code/arenavm.c:561-569 | the descriptors from the index on are exactly those that start on the table page or later |
| PageTables.PageTable.TablePageLimitIndex | mps/code/arenavm.c:572-581 | the descriptors below the index are exactly those that start on the table page or earlier |
| PageTables.PageTable.TablePageWholeLimitIndex | mps/code/arenavm.c:583-590 | the descriptors below the index are exactly those that end on the table page or earlier |
| PageTables.PageTable.TablePagesUsed | mps/code/arenavm.c:622-640 | the table pages of a range of pages run from that of the first byte to that of the last byte |
| PageTables.PageTable.TouchedBy | mps/code/arenavm.c:622-640 | every table page used by a range of pages holds part of the descriptor of one of them |
| PageTables.PageTable.StartsOn | mps/code/arenavm.c:1398-1425 | a descriptor starts on every table page but the last, and one is wholly on it if two descriptors (less a byte) fit on a page |
| PageTables.PageTable.EndPage | mps/code/arenavm.c:602-619 | where the end of the table falls, whether or not it fills its pages |
| VmArenas.Accounts.Map | mps/code/arenavm.c:200-222 | fails for the commit limit exactly if it would be exceeded, without asking for memory, and otherwise exactly if the memory is refused; counts what it maps |
| VmArenas.VMChunk.MapPages | mps/code/arenavm.c:200-222 | maps pages none of which is mapped, and counts them; fails exactly if the commit limit would be exceeded or the memory is refused, and then nothing changes |
| VmArenas.VMChunk.UnmapPages | mps/code/arenavm.c:225-240 | unmaps pages all of which are mapped |
| VmArenas.VMChunk.MapTable | mps/code/arenavm.c:200-222 | the same for pages of the page table |
| VmArenas.VMChunk.UnmapTable | mps/code/arenavm.c:225-240 | unmaps a page of the page table that is mapped |
| VmArenas.VMChunk.EnsureTableMapped | mps/code/arenavm.c:642-712 | maps exactly the table pages needed, initialising exactly the descriptors thereby made whole, and on failure half way leaves every allocated or spare descriptor intact; succeeds if they are mapped already, and fails for the commit limit only if it does not allow them all |
| VmArenas.VMChunk.NewDescs | mps/code/arenavm.c:669-698 | the indices chosen bound exactly the descriptors made whole by mapping a run of table pages |
| VmArenas.VMChunk.MapTablePages | mps/code/arenavm.c:669-706 | mapping a run never touches a descriptor that was already whole |
| VmArenas.VMChunk.PageIsMapped | mps/code/arenavm.c:1062-1086 | reads a descriptor only if it is wholly mapped, and says exactly whether the page is spare |
| VmArenas.VMChunk.MarkPages | mps/code/arenavm.c:1109-1184 | allocates a run of free and spare pages, or undoes what it had got to; fails for the commit limit only if it does not allow the run and its table pages |
| VmArenas.VMChunk.MarkAllocated | mps/code/arenavm.c:1109-1184 | if no memory is refused it succeeds exactly if what would then be committed is within the limit, and always if every page is spare; on success the holdings grow by exactly the run, and exactly it and its table pages are added to what is committed; on failure the holdings are as before |
| VmArenas.VMChunk.WouldCommitAtLeast | mps/code/arenavm.c:1109-1184 | what would be committed is at least what is not spare, the run and its table pages, and no more if there is no spare page outside the run |
| VmArenas.VMChunk.UndoMark | mps/code/arenavm.c:1157-1180 | after a mapping failure no page stays half allocated, and exactly the bits of the table pages for the run are reset, so that the next purge looks at them |
| VmArenas.VMChunk.OpenTablePages | mps/code/arenavm.c:1170-1179 | resetting noSparePages bits keeps the purge able to examine each of them |
| VmArenas.VMChunk.FreePages | mps/code/arenavm.c:1481-1496 | the holdings shrink by exactly the run, and exactly its pages become spare, and stay mapped |
| VmArenas.VMChunk.UnmapSpareRanges | mps/code/arenavm.c:1310-1355 | every spare page of a range becomes free, and no other page changes |
| VmArenas.VMChunk.TablePageInUse | mps/code/arenavm.c:602-619 | true exactly if a descriptor even partly on the table page is of an allocated page |
| VmArenas.VMChunk.UnmapUnused | mps/code/arenavm.c:721-745 | a table page stays mapped exactly if it is in use, so no part of an allocated or spare descriptor is lost |
| VmArenas.VMChunk.PurgeLimit | mps/code/arenavm.c:1398-1418 | the descriptors looked at for one table page are readable, and meet those looked at before and after |
| VmArenas.VMChunk.PurgeRun | mps/code/arenavm.c:1389-1431 | purges a run of reset bits, after which exactly those of its table pages that are in use are mapped; the assertion in it holds exactly if the run is examinable |
| VmArenas.VMChunk.PurgedBits | mps/code/arenavm.c:1389-1431 | setting the bits of a purged run is right: no spare page has a descriptor there |
| VmArenas.VMChunk.Purge | mps/code/arenavm.c:1371-1439 | leaves no spare page in the chunk, changes no holding, and unmaps exactly the table pages with a reset bit that are not in use; the assertion in it holds exactly if every maximal run of reset bits is examinable |
| VmArenas.VMChunk.NextExaminable | mps/code/arenavm.c:1371-1439 | purging one run affects no other: the runs up to its end are examinable exactly if those before it are and it was |
| VmArenas.VMChunk.RoomForTwo | mps/code/arenavm.c:1398-1425 | if two descriptors (less a byte) fit on a page, every run is examinable |
| VmArenas.PurgeAssertionFails | mps/code/arenavm.c:1398-1425 | for 8 byte descriptors in 10 byte pages, allocating page 1, which succeeds if three pages may be committed and none is refused, freeing it and then purging makes the assertion fail |
| Arenas.TotalsChange | mps/code/arenavm.c:200-240 | changing one chunk changes the totals over all chunks by as much |
| Arenas.NetShrinks | mps/code/arenavm.c:1371-1439 | what is committed and not spare does not grow if nothing else is held and no more table pages are mapped |
| Arenas.VMArena.Purge | mps/code/arenavm.c:1371-1439 | afterwards nothing is spare, and at least what was spare is no longer committed; says for which chunks the assertion holds |
| Arenas.VMArena.AllocPages | mps/code/arenavm.c:1197-1281 | the early check fails exactly if the commit limit does not allow the size even with all spare pages used; otherwise, if the policy finds pages and no mapping is refused, it succeeds if the limit allows what is committed and not spare, the run and its table pages, and exactly then if nothing is spare; it always succeeds on a run all of spare pages; the accounts stay balanced |
| Arenas.VMArena.CannotFit | mps/code/arenavm.c:1222-1230 | what the early check refuses could not have been allocated, by purging or on spare pages |
| Arenas.VMArena.LeastMeans | mps/code/arenavm.c:1243-1262 | what the run needs after a purge is no more than before one, and as much if there is no spare page outside the run, which is when no purge is tried |
| Arenas.VMArena.LeastShrinks | mps/code/arenavm.c:1246-1252 | purging does not increase what the run needs |
| Arenas.VMArena.WithinMost | mps/code/arenavm.c:1197-1281 | what has to be committed is never more than the overhead, the pages held, the run and all the pages of the page tables |
| Arenas.VMArena.FreePages | mps/code/arenavm.c:1444-1502 | the freed pages are no longer held; within the spare commit limit they stay committed as spare, and nothing else changes, and beyond it nothing stays spare |
| Arenas.VMArena.SetSpareCommitLimit | mps/code/arena.c:550-563 | the new limit is kept: if more than it is spare, by purging, and else nothing changes |
| Arenas.VMArena.SetCommitLimit | mps/code/arena.c:578-606 | succeeds exactly if the limit is at least what is committed and not spare, and purges just if it is less than what is committed |
| Arenas.VMArena.Rebalanced | mps/code/arenavm.c:200-240 | an operation on one chunk keeps committed and spareCommitted equal to the sums over chunks |
| Arenas.Run | mps/code/arenavm.c:1197-1502 | over every run of a client, whatever mappings fail: accounts balance, limits are kept, the pages held are exactly those given out and not freed, and no operation fails unless the policy found no pages, a mapping was refused, or the commit limit was too low for what was held |
| ZoneSearches.Zoning.NextStripe | mps/code/arenavm.c:836-848 | aligning up gives the end of a stripe, or zero by wrapping round at the end of the address space |
| ZoneSearches.Zoning.StripeEndPage | mps/code/arenavm.c:762-785 | stripe ends are page boundaries, so every area searched is page-aligned |
| ZoneSearches.Zoning.WholePage | mps/code/arenavm.c:793-806 | a page is wholly in the zone of its first address |
| ZoneSearches.NextStripe | mps/code/arenavm.c:838-874 | the step to the next stripe, with its tests for wrapping round, passes only pages of one zone |
| ZoneSearches.MemberArea | mps/code/arenavm.c:836-853 | the area found is a maximal run of pages in the zones, and the loop ends despite wrapping round |
| ZoneSearches.FindFreeInArea | mps/code/arenavm.c:774-799 | finds the highest or the lowest run of free pages inside an area, as asked, or there is none |
| ZoneSearches.FindFreeInChunk | mps/code/arenavm.c:826-881 | finds a usable run exactly if there is one: in the first maximal area of pages in the zones that has any, the highest or the lowest there, as asked |
| ZoneSearches.FindFreeInZones | mps/code/arenavm.c:811-885 | succeeds exactly if some chunk has a run of free pages above its tables and in the zones; the run is in the first chunk that has any, and there in the first area, the highest or the lowest as asked |
| BitTables.Mask | mps/code/bt.c:37-44 | the mask has exactly the bits from base up to limit |
| BitTables.RangeIsCovered | mps/code/bt.c:80-116 | the actions on a range act on each of its bits once, in order, and on no other |
| BitTables.HighIsReverse | mps/code/bt.c:124-162 | the downward actions are the upward ones backwards |
| BitTables.FillRange | mps/code/bt.c:290-303 | BTSetRange and BTResRange give every bit of the range the value and leave every other bit |
| BitTables.CopyRange | mps/code/bt.c:906-963 | BTCopyRange and BTCopyInvertRange copy exactly the range and leave every other bit |
| BitTables.IsFilledRange | mps/code/bt.c:312-360 | BTIsSetRange and BTIsResRange are the bit-by-bit tests |
| BitTables.RangesSame | mps/code/bt.c:870-898 | true exactly if the tables agree on every bit of the range |
| BitTables.FindSetBit | mps/code/bt.c:437-457 | the binary chop finds the lowest set bit of part of a word, failing exactly if there is none |
| BitTables.FindSetBitHigh | mps/code/bt.c:546-567 | the mirrored chop finds the highest |
| BitTables.Find | mps/code/bt.c:395-502 | BTFindSet and BTFindRes find the lowest bit of a range with the value, having looked at the bits up to it |
| BitTables.FindHigh | mps/code/bt.c:509-612 | BTFindSetHigh and BTFindResHigh find the highest, having looked at the bits down to it |
| BitSearches.FindResRange | mps/code/bt.c:617-694 | finds the lowest run of the least length, extended as far as allowed, failing exactly if there is none; no bit is tested twice |
| BitSearches.FindResRangeHigh | mps/code/bt.c:704-789 | finds the highest run likewise; no bit is tested twice |
| BitSearches.Tests.Bounded | mps/code/bt.c:636-693 | tests of distinct bits number at most the length of the search range |
| BitSearches.SearchMirrors | mps/code/btcv.c:33-138 | a range answers the downward search of the reflected table exactly if its reflection answers the upward search |
| BitSearches.LowRangeUnique | mps/code/bt.c:617-694 | the answer to a search is unique |
| BitSearches.MirrorLaw | mps/code/btcv.c:33-138 | the two searches find mirror images of the same range |
| BitSearches.NoRunMirrors | mps/code/btcv.c:33-138 | and fail together |
| BitSets.FindShortResRange | mps/code/bt.c:833-862 | the searches for a run of a length, on a table held as a set, are those of the table |
| BitSets.FindLongResRange | mps/code/bt.c:797-810 | the search for a run of at least a length likewise |
| BitSearches.FindShortResRange | mps/code/bt.c:833-846 | the lowest run of exactly the length |
| BitSearches.FindShortResRangeHigh | mps/code/bt.c:852-862 | the highest run of exactly the length |
| BitSearches.FindLongResRange | mps/code/bt.c:797-810 | the lowest run of at least the length, extended to a set bit or the end of the search |
| BitSearches.FindLongResRangeHigh | mps/code/bt.c:815-827 | the highest run of at least the length, extended downwards |
| Buffers.StepHolds | mps/code/buffer.c:40-134 | every atomic step of client and collector keeps the fields in order and the protocol invariant |
| Buffers.FillHolds | mps/code/buffer.c:688-752 | a fill allocates in place or attaches a new region; when it detaches there is really no room |
| Buffers.TripHolds | mps/code/buffer.c:801-860 | a trip fails exactly if a flip came between reservation and update |
| Buffers.StepAligned | mps/code/buffer.c:77-83 | every step keeps the fields aligned |
| Buffers.BufferIsConsistent | mps/code/buffer.c:40-134 | over every interleaving the whole consistency check holds |
| Buffers.CommitFailsIffHit | mps/code/buffer.c:760-860 | a commit that completes fails exactly if an effective flip fell between its reservation and its update of init |
| Buffers.CommittedAreScanned | mps/code/buffer.c:888-919 | every object committed ends at or below the scan limit until the buffer is detached, and below anything reserved later |
| Buffers.FailuresAreFlips | mps/code/buffer.c:836-850 | over every run failed commits number no more than effective flips |
| Buffers.RetryUnflips | mps/code/buffer.c:705-727 | after a failed commit the next reservation must go through fill, which unflips the buffer and can reuse the same place |
| Buffers.StepBalances | mps/code/buffer.c:312-358 | a step changes the totals by as much as it changes the extent of its buffer |
| Buffers.AccountsBalance | mps/code/global.c:133-138 | over every run of any buffers, filled less emptied less allocated is what the attached mutator buffers have, hence never negative |
| Buffers.LogStep | mps/code/buffer.c:40-134 | in the region a buffer was granted, what is below init is the objects committed since, and perhaps one whose commit is not complete |
| Buffers.StepCounts | mps/code/buffer.c:312-358 | what each step adds to each total, by the region granted and the objects committed in it |
| Buffers.DetachCounts | mps/code/buffer.c:312-358 | over every run, whatever detaches a mutator's buffer adds the objects committed since it was attached to what has been allocated, and the rest of the region to what has been emptied; any other buffer adds only the latter |
| Buffers.EachTotal | mps/code/global.c:133-138 | over every run of any buffers each total by itself is accounted for by what was granted and what was committed, and by what is still attached |
| Buffers.TotalsGrow | mps/code/global.c:133-141 | over every run of any buffers no total ever shrinks, so none becomes negative |
| Buffers.ScanLimitIsExact | mps/code/buffer.c:903-919 | what may be scanned is exactly the objects committed, and perhaps one about to be, but never one whose commit will fail |
| Buffers.TotalsWhenDetached | mps/code/global.c:133-138 | between times when no buffer is attached, what was filled is what was granted, what was allocated is what mutators committed, and what was emptied is the rest |
| Buffers.GrantedFillReserves | mps/code/buffer.c:729-752 | a fill that is granted a region has the whole of it, and reserves the first of it |
| Buffers.RefusedFillResets | mps/code/buffer.c:729-740 | a fill that is refused leaves the buffer detached and reset, with nothing reserved |
| Buffers.Buffer.constructor | mps/code/buffer.c:188-247 | a new buffer is a reset, idle one |
| Buffers.Buffer.SetUnflipped | mps/code/buffer.c:460-470 | unflipping restores the limit unless the buffer is logged |
| Buffers.Buffer.BufferDetach | mps/code/buffer.c:312-358 | detaching is the step of the protocol, with totals as `DetachCounts` says |
| Buffers.Buffer.BufferAttach | mps/code/buffer.c:634-678 | attaching a region, with what is allocated in it already, gives the state and totals of the protocol |
| Buffers.AttachBalances | mps/code/buffer.c:634-678 | attaching counts the whole region whatever it holds already; detaching at once has emptied all that was filled, and allocated nothing |
| Buffers.Buffer.BufferFill | mps/code/buffer.c:688-752 | filling is the step of the protocol |
| Buffers.Buffer.BufferReserve | mps/code/buffer.c:602-626 | reserving without interruption is the test followed by the bump or the fill |
| Buffers.Buffer.BufferCommit | mps/code/buffer.c:760-790 | committing without interruption is the update, the test and, if trapped, the trip |
| Buffers.Buffer.BufferTrip | mps/code/buffer.c:801-860 | tripping is the step of the protocol, and returns whether the commit succeeds |
| Buffers.Buffer.BufferFlip | mps/code/buffer.c:888-901 | flipping is the step of the protocol, at any point of it |
| LocationDependencies.SinceExtended | mps/code/ld.c:161-186 | one more flip adds its moved set to the movement since every earlier epoch |
| LocationDependencies.SinceGrows | mps/code/ld.c:161-186 | movement since an earlier epoch, or later on, includes what moved since a later one |
| LocationDependencies.Arena.LDAge | mps/code/ld.c:161-186 | each history entry is the movement since the epoch of its age, and the prehistory is all movement |
| LocationDependencies.Arena.HistoryIsNested | mps/code/global.c:200-210 | each history entry is within the next oldest, and the oldest within the prehistory |
| LocationDependencies.LD.LDReset | mps/code/ld.c:60-75 | flips during a reset only make the dependency cover more |
| LocationDependencies.LD.LDAdd | mps/code/ld.c:96-103 | the dependency covers the reference from the epoch it was added at |
| LocationDependencies.LD.LDIsStale | mps/code/ld.c:125-149 | with flips between any two loads, stale if anything added had moved before the call; alone, exact: by what moved since its epoch if the history goes back so far, and else by all that ever moved |
| LocationDependencies.LD.LDMerge | mps/code/ld.c:194-212 | the merged dependency covers everything added to either |
| LocationDependencies.MergeIsStale | mps/code/ld.c:194-212 | a merged dependency is stale whenever either part is |
| LocationDependencies.EntryIs | mps/code/global.c:200-210 | every slot of the history is determined by the movement there has been |
| LocationDependencies.LD.TestAgeFirst | mps/code/ld.c:115-146 | were the two loads the other way round, the answer with given flips between them |
| LocationDependencies.TestedFirstIsSafe | mps/code/ld.c:115-146 | that would be safe if the flips did not make the dependency older than the history |
| LocationDependencies.LoadOrderMatters | mps/code/ld.c:115-146 | and it would not be if they did: given movement and one flip between, a stale dependency seems not to be |
| DylanFormat.NonwordLengthIsEnough | mps/code/fmtdy.c:355-359 | the length is the least number of words with room for all the bits of the elements |
| DylanFormat.HeadersGiveLayout | mps/code/fmtdy.c:97-199 | reading the header words of a wrapper gives back the fields that they were made from, whatever the other fields are |
| DylanFormat.LastPatternCheckMeans | mps/code/fmtdy.c:193-196 | the check on the last pattern word means what its comment says exactly when that word is not full |
| DylanFormat.FullPatternIsRejected | mps/code/fmtdy.c:193-196 | a wrapper of 32 fields, the first traceable, is rejected though no bit is left over |
| DylanFormat.EmptyPatternIsRejected | mps/code/fmtdy.c:193-196 | every wrapper with a patterned fixed part of no fields is rejected |
| DylanFormat.NoBitsLeft | mps/code/fmtdy.c:322-345 | shifting a pattern to nothing means that no bit is left from there on |
| DylanObjects.Skip | mps/code/fmtdy.c:618-677 | skipping an object or a marker stops where its layout says it ends, or where the marker does |
| DylanObjects.VectorEnds | mps/code/fmtdy.c:650-672 | a variable part of words ends after them, and one of smaller elements after the least number of words with room for the elements and the bias; a stretchy one has a word more |
| DylanObjects.ObjectEnds | mps/code/fmtdy.c:618-677 | an object ends there, by the fields that the headers of its wrapper were made from |
| DylanObjects.Fwd | mps/code/fmtdy.c:700-715 | forwarding leaves a marker of the same extent that gives the new address: one word tagged 1, or one tagged 2 and the limit; and changes nothing else |
| DylanObjects.Pad | mps/code/fmtdy.c:718-729 | padding leaves a marker of exactly the gap that is not taken for a forwarded object |
| DylanObjects.ParseWithReplaced | mps/code/fmtdy.c:700-729 | replacing an object by another of the same extent leaves the region walkable, object by object |
| DylanObjects.FwdInRegion | mps/code/fmtdy.c:688-715 | forwarding an object leaves every other object of the region as it was |
| DylanObjects.FwdSome | mps/code/fmtdy.c:688-715 | forwarding any subset of objects leaves the region walkable to the same limit, and each gives its new address |
| DylanObjects.PadGap | mps/code/fmtdy.c:718-729 | padding a gap between two walkable parts makes one walkable region |
| DylanObjects.WrapperStays | mps/code/fmtdy.c:97-199 | a wrapper is not affected by changes that leave its words, and those of its own wrapper, alone |
| DylanScans.ScanContig | mps/code/fmtdy.c:208-228 | fixes exactly the words of a range that are tagged as references, and changes no other, and none that is to be left alone |
| DylanScans.PatternWord | mps/code/fmtdy.c:331-345 | the bits of a pattern word are those of its own fields |
| DylanScans.ScanPat | mps/code/fmtdy.c:314-352 | fixes exactly the references among the fixed fields whose pattern bit is set |
| DylanScans.RescannedIsObject | mps/code/fmtdy.c:362-507 | an object that has been scanned is still an object of the same extent and layout |
| DylanScans.ReferencesStay | mps/code/fmtdy.c:362-507 | and its references are where they were |
| DylanScans.ScanVariable | mps/code/fmtdy.c:443-503 | scans the variable part and ends where skipping ends, also after the assertion, which fails exactly on the stretchy formats |
| DylanScans.Scan1 | mps/code/fmtdy.c:362-507 | stops where skipping stops, having fixed exactly the references among the words that the headers say are traceable: the wrapper; of the fixed part none, all or those patterned, by its format; of the variable part all or none; fails exactly if a fix does, and otherwise meets the assertion exactly on a stretchy format |
| DylanScans.FieldsMean | mps/code/fmtdy.c:405-429 | the traceable fields are none if the format of the fixed part is 0, all if it is 1, and those whose pattern bit is set if it is 2 |
| DylanScans.ElementsMean | mps/code/fmtdy.c:443-503 | the traceable elements are those of a variable part of format 2 |
| DylanScans.Scan | mps/code/fmtdy.c:509-522 | scans a region, which may hold the wrappers of its objects, to exactly its limit, fixing exactly its references, and leaves it walkable; fails exactly if a fix does, and otherwise meets the assertion exactly if some object is stretchy |
| DylanScans.WrapperReferences | mps/code/fmtdy.c:97-199 | scanning a wrapper fixes no word that says how objects are laid out |

## Left out

- In `SplayTree` a tree is a value: the pointer reversal that walks back up a spine, and the links written on the way, are left out.
- The coalescing blocks of `Cbs` are a set, found by address; `SplayTrees.Keeps` relates a splay tree to it, and both answer alike.
- The splay tree of a structure without fast find, which updates no cache, and iteration over a tree.
- CBSInit's check of the alignment: addresses are counted in words of the size of a pointer, so every alignment is enough.
- CoalescingBlocks.CBS.Insert: what the assertion in the flush would stop is carried on with, as without assertions, and a result says whether it held.
- CoalescingBlocks.CBS.Delete: without inline use and without memory for a fragment it states the loss the code has, not the unchanged state the design promises.
- Null callbacks, meters, statistics, iteration and description of the structures: they do not affect what is free.
- CBSFinish, and the Find operations without inline use, which assert.
- VmArenas.VMChunk.Purge: an assertion of the source is returned as a result instead of stopping the purge, since it can fail for large descriptors.
- Chunk creation and extension of the arena: the chunks are fixed, and what they need for themselves is a constant.
- Sizes in the arena are counted in pages, and the check for wrap-round of the committed total is left out.
- Bit tables of a chunk are held as the sets of their set bits; a search makes a table of the set and searches that.
- Generation zone sets, blacklists and the order in which policies try zone sets: a policy gives a free run or none.
- Lightweight frames, so the protocol always attaches a region from its base, as fill does; buffer classes and segments; the per-pool copies of the totals.
- Wrap-round of the epoch, which the source asserts does not happen.
- BTCopyOffsetRange, BTCountResRange, creation and destruction of bit tables: they go a bit at a time or allocate.
- dylan_copy, weak scanning and dylan_class; wrappers are assumed to lie outside a region whose objects are forwarded or padded.
- DylanScans.Scan: the fix is assumed to leave the words of wrappers alone, those in the region too; `WrapperReferences` shows that only the class words are at stake.
- DylanScans.ScanVariable: what is looked at after the assertion on a stretchy format is left out, though not where the scan would end.
- DylanScans.Fix: what the collector decides about a reference is arbitrary, and a moved wrapper is one that says the same.
- Locks, threads, shields and the poll heuristics.
