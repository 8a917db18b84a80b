# Verified models of SQLite's page, tree and cache algorithms

This project models the algorithms of SQLite 3.26.0 that keep a database file together and proves what
they promise. The pager is a map from page numbers to contents, memory allocation succeeds, and a database
is well formed at the start unless a contract says otherwise. `dafny verify dfyconfig.toml` checks
everything.

| file | component |
|---|---|
| PointerMap.dfy | pointer-map arithmetic, map entries in bytes, `finalDbSize` |
| DbFile.dfy, Freelist.dfy | the freelist of trunks and leaves |
| PageGraph.dfy, AutoVacuum.dfy | page relocation, auto-vacuum commit, incremental vacuum |
| ScanGroups.dfy, Stat4.dfy, Stat4Exact.dfy | the STAT4 sample accumulator, and what its counts mean for sorted rows |
| BalancePacking.dfy, BalanceRewrite.dfy | packing arithmetic and page-rewrite schedule of `balance_nonroot` |
| BalanceTree.dfy, BalanceLoop.dfy, CellSizes.dfy | balancing as a transformation of B-trees, the `balance` loop, and the cell sizes it relies on |
| ProbeTable.dfy, Bitvec.dfy | sets of page numbers in three representations |
| PageBytes.dfy, Regions.dfy, PageLayout.dfy, PageSpace.dfy, MemPage.dfy | the space allocator inside a page |
| EditPage.dfy | rewriting a page in place with other cells |
| Backup.dfy | online backup |
| SharedCache.dfy | table locks and transactions of a shared cache |
| BtreeMutex.dfy | the order in which mutexes are taken |
| OverflowChain.dfy, OverflowStore.dfy | overflow payload, and its pages in the freelist |
| RenameEdit.dfy | token replacement in SQL text |
| Arith.dfy, ByteTypes.dfy | integer division, bytes |

Where the code works by changing state step by step, the model does so too: classes with the fields of the
original structures, loops with invariants. State that many steps share is described by values, and the
properties are proved as lemmas about these values.

## Results that a reader of the code may not expect

- Balancing a well-formed tree never reports corruption: five pages are always enough
  (`BalanceLoop.FivePagesEnough`), the greedy packing uses as few pages as possible
  (`BalancePacking.Pack`), and the root is pushed down at most once.
- `insertCell` asserts that no page ever gets more than three overflow cells. In a table it can get four: a
  leaf between two others can split so that five pages are needed, and the first of the four new dividers,
  with a negative key, can be longer than both old ones together (`CellSizes.FourOverflowCells`).
  `BalanceLoop.BalanceNonroot` gives the exact condition. The array has four slots, so nothing is lost.
- The free bytes of a page depend on its cells alone (`MemPageModel.FreeIsRest`), and an insertion succeeds
  exactly if the cell fits by its size: fragmentation never makes it fail.
- `allocateBtreePage` in mode LE reports corruption when no free page lies at or below the bound; its
  comment promises such a page only "if any exists" and does not mention the error. The header count has
  been lowered by then. `AllocateBtreePage` states the exact condition.
- When a backup's source shrinks below the pages already copied, the unsigned count of remaining pages wraps
  around and `sqlite3_backup_remaining` returns a negative number (`BackupModel.ShrinkDuringBackup`); both are
  right exactly if it has not shrunk (`BackupModel.RemainingIsRight`).
- A leaf that a deletion empties never stays in the tree: every page below the root that the loop leaves holds a
  cell (`BalanceLoop.BalanceAfterDelete`), on which the reading of pages relies.
- ANALYZE with STAT4 samples the most frequent values, although it keeps only mxSample samples and decides
  about each row when it passes: values of a column prefix that no sample has are no more frequent than the
  values for which each sample that is not periodic was kept (`Stat4Exact.MostFrequentKept`).

## Model

| member | source | states |
|---|---|---|
| PointerMap.PtrmapPageIsNeverPending | root/prj/0.1/sol/projects/sqlite/src/btree.c:947-959 | the map page computed for a page above 1 is a map page and never the pending-byte page |
| PointerMap.EntryInBounds | root/prj/0.1/sol/projects/sqlite/src/btree.c:971-1052 | the five bytes of the entry for every content page above 1 lie within the usable part of its map page, so the bounds check of the code never fires for them |
| PointerMap.PagesOfMapPage | root/prj/0.1/sol/projects/sqlite/src/btree.c:947-959 | a map page describes exactly the content pages that follow it up to the end of its group: all usableSize/5 of them, or one fewer if it had to give way to the pending-byte page |
| PointerMap.MapPageIsFilled | root/prj/0.1/sol/projects/sqlite/src/btree.c:947-959 | a map page is filled before the next group of pages begins: there is no room for one more entry, except for a single one where the map page had to give way to the pending-byte page |
| PointerMap.ContentCountClosedForm | root/prj/0.1/sol/projects/sqlite/src/btree.c:947-959 | counting content pages one by one gives the closed form that the size arithmetic relies on |
| PointerMap.PtrmapRefinesMap | root/prj/0.1/sol/projects/sqlite/src/btree.c:971-1052 | reading back a stored entry gives that entry, or corruption if its type is not one of 1..5, and reading the entry of any other content page gives what it gave before: the bytes refine a mathematical map |
| PointerMap.PtrmapRefuses | root/prj/0.1/sol/projects/sqlite/src/btree.c:971-1052 | page 0 and map pages have no entry to write, and nothing is read or written without the map page |
| PointerMap.EstimateIsExact | root/prj/0.1/sol/projects/sqlite/src/btree.c:3767-3772 | the rounded quotient in the size formula is exactly the number of map pages that disappear, for every usable size, pending page position and free count |
| PointerMap.SizeEstimateIsExact | root/prj/0.1/sol/projects/sqlite/src/btree.c:3767-3772 | pages up to the estimate hold exactly nFree fewer content pages than pages up to nOrig |
| PointerMap.DropTrailing | root/prj/0.1/sol/projects/sqlite/src/btree.c:3773-3775 | stops at the largest content page at or below its argument without losing a content page |
| PointerMap.FinalDbSize | root/prj/0.1/sol/projects/sqlite/src/btree.c:3762-3778 | pages 1..nFin hold exactly nFree fewer content pages than 1..nOrig, and nFin is neither a map page nor the pending page |
| Freelist.BtShared.AllocateBtreePage | root/prj/0.1/sol/projects/sqlite/src/btree.c:5795-6103 | removes exactly one page from the freelist, or appends the next allowed page past the end; EXACT returns the asked page if it is free; LE returns a page at or below nearby, and reports corruption exactly when there is none; any other call returns the first trunk if it has no leaves, otherwise its leaf closest to nearby, or its first leaf if there is no page to be near to; the list stays well formed, in range and duplicate-free |
| Freelist.BtShared.SearchTrunks | root/prj/0.1/sol/projects/sqlite/src/btree.c:5848-6035 | the walk over the trunks ends with the page that the mode asks for, or reports corruption when the list has no such page |
| Freelist.BtShared.TryTrunk | root/prj/0.1/sol/projects/sqlite/src/btree.c:5885-6034 | one trunk: it is taken itself, replaced by its first leaf, loses a leaf, or is passed over, and each case keeps the list |
| Freelist.BtShared.TakeLeaf | root/prj/0.1/sol/projects/sqlite/src/btree.c:5969-6031 | exactly the given leaf leaves the free pages; the list stays well formed and no other page changes |
| Freelist.BtShared.TakeTrunk | root/prj/0.1/sol/projects/sqlite/src/btree.c:5907-5966 | exactly the trunk leaves the free pages, also when its first leaf has to become a trunk for the others |
| Freelist.BtShared.AppendPage | root/prj/0.1/sol/projects/sqlite/src/btree.c:6036-6093 | the file grows by one page that is neither a map page nor the pending page, and by the map page before it if there is one |
| Freelist.BtShared.FreePage2 | root/prj/0.1/sol/projects/sqlite/src/btree.c:6117-6244 | the exact new list: the page is the last leaf of the first trunk if the list is not empty and that trunk has fewer than usableSize/4 - 8 leaves, and otherwise a new first trunk; it is recorded in the pointer map, and the call fails exactly for pages below 2 |
| Freelist.BtShared.PushLeaf | root/prj/0.1/sol/projects/sqlite/src/btree.c:6170-6216 | exactly the page is added to the free pages, as the last leaf of the first trunk |
| Freelist.BtShared.PushTrunk | root/prj/0.1/sol/projects/sqlite/src/btree.c:6219-6234 | exactly the page is added to the free pages, as the first trunk |
| Freelist.BtShared.HeaderCountBelowPageCount | root/prj/0.1/sol/projects/sqlite/src/btree.c:5813-5820 | the free count in the header is always below the page count, so the corruption test on it never fires |
| Freelist.BtShared.ListedOnce | root/prj/0.1/sol/projects/sqlite/src/btree.c:5885-6034 | two different places of the freelist, trunks or leaves, hold different pages, so a page taken from one place is nowhere else on the list |
| Freelist.BtShared.HeaderCountsPages | root/prj/0.1/sol/projects/sqlite/src/btree.c:5813-5820 | the free count in the header is the number of different pages on the list |
| Freelist.DropLeafRemovesOne | root/prj/0.1/sol/projects/sqlite/src/btree.c:6017-6020 | overwriting a leaf slot with the last leaf removes exactly that leaf |
| Freelist.FreePromote | root/prj/0.1/sol/projects/sqlite/src/btree.c:5930-5965 | replacing a trunk by its first leaf removes exactly the trunk from the free pages |
| PageGraph.MoveKeepsGraph | root/prj/0.1/sol/projects/sqlite/src/btree.c:3572-3644 | moving one page and redirecting the one pointer to it and the map entries of its children keeps the map the exact inverse of the pointers and the graph the same up to renaming |
| PageGraph.SameGraphTransitive | root/prj/0.1/sol/projects/sqlite/src/btree.c:3830-3877 | renamings of page graphs compose, so that single moves add up to a whole run |
| AutoVacuum.SetChildPtrmaps | root/prj/0.1/sol/projects/sqlite/src/btree.c:3466-3495 | afterwards the map names the page as the parent of everything it points to, and no other entry changes |
| AutoVacuum.ModifyPagePointer | root/prj/0.1/sol/projects/sqlite/src/btree.c:3511-3560 | the one pointer to iFrom becomes a pointer to iTo and nothing else changes; corruption exactly if there is no such pointer |
| AutoVacuum.RelocatePage | root/prj/0.1/sol/projects/sqlite/src/btree.c:3572-3644 | the page moves to the free slot, the one pointer to it and the map entries of its children follow; reports corruption exactly for pages below 3 |
| AutoVacuum.AllocateLow | root/prj/0.1/sol/projects/sqlite/src/btree.c:3728-3736 | the allocation loop of a step ends with a free page at or below nFin |
| AutoVacuum.MoveStep | root/prj/0.1/sol/projects/sqlite/src/btree.c:3706-3744 | the used page iLastPg moves to a free slot at or below nFin; graph and map stay exact |
| AutoVacuum.IncrVacuumStep | root/prj/0.1/sol/projects/sqlite/src/btree.c:3666-3755 | a step of the commit keeps graph, map and free slots in balance and leaves no used page at iLastPg; it ends the vacuum early exactly if the last page holds content and no page is free |
| AutoVacuum.SlotsMatch | root/prj/0.1/sol/projects/sqlite/src/btree.c:3853-3861 | there are exactly as many free slots at or below nFin as used pages above it |
| AutoVacuum.RootsBelow | root/prj/0.1/sol/projects/sqlite/src/btree.c:3688-3690 | root pages never lie above nFin, so a commit never meets one |
| AutoVacuum.VacuumLoop | root/prj/0.1/sol/projects/sqlite/src/btree.c:3859-3861 | over the whole loop the graph stays the same up to renaming, and at the end no used page lies above nFin |
| AutoVacuum.AutoVacuumCommit | root/prj/0.1/sol/projects/sqlite/src/btree.c:3830-3877 | a full commit: same trees and chains up to renaming, exact map, the file holds exactly the used pages, the freelist is empty; corruption exactly if the last page is a map page or the pending page |
| AutoVacuum.IncrVacuum | root/prj/0.1/sol/projects/sqlite/src/btree.c:3788-3819 | one incremental step frees one page, shrinks the file and keeps graph and map; done exactly if there is no free page |
| AutoVacuum.IncrStep | root/prj/0.1/sol/projects/sqlite/src/btree.c:3666-3755 | the last page is either a free page taken off the list or a used page moved away |
| AutoVacuum.PreviousContent | root/prj/0.1/sol/projects/sqlite/src/btree.c:3747-3752 | the new last page is the next content page below |
| Stat4.BetterTransitive | root/prj/0.1/sol/projects/sqlite/src/analyze.c:505-550 | the comparison of samples is transitive, so that keeping the better one is a consistent choice |
| Stat4.NotBetterTransitive | root/prj/0.1/sol/projects/sqlite/src/analyze.c:505-550 | not being better is transitive too: the comparison ranks all samples, with ties, so that a worst sample exists |
| Stat4.FindMin | root/prj/0.1/sol/projects/sqlite/src/analyze.c:631-643 | iMin is a sample that is not periodic and is better than no other such sample |
| Stat4.FindSharer | root/prj/0.1/sol/projects/sqlite/src/analyze.c:570-595 | finds a periodic sample that shares the open prefix, or the best of the other sharers, or none exactly if there is none |
| Stat4.SharerIsWorse | root/prj/0.1/sol/projects/sqlite/src/analyze.c:582-584 | a kept sample that shares the open prefix of a candidate was kept for a longer prefix and is worse than the candidate, as the code asserts |
| Stat4.NotPassedOver | root/prj/0.1/sol/projects/sqlite/src/analyze.c:581-593 | the best sharer has been the best sharer at all deeper levels at which it shared, so an upgraded sample has the counts of all columns from its own on: the assumption of the comparison always holds |
| Stat4.AlwaysOffered | root/prj/0.1/sol/projects/sqlite/src/analyze.c:657-665 | while a sample that is not periodic shares the prefix of a candidate, the candidate is better than the worst sample, so it is always offered |
| Stat4.Accum.constructor | root/prj/0.1/sol/projects/sqlite/src/analyze.c:399-480 | the empty accumulator; the sampling period is the least that leaves at most a third of mxSample periodic samples for the announced number of rows |
| Stat4.Accum.SampleInsert | root/prj/0.1/sol/projects/sqlite/src/analyze.c:552-644 | the exact outcome: nothing if a periodic sample shares the prefix, an upgrade of the best sharer, otherwise a new last sample in place of iMin if there is no room; whatever is dropped was not periodic and no better than any other such sample; afterwards iMin is the worst sample again, and all samples stay right and in order |
| Stat4.Accum.SamplePushPrevious | root/prj/0.1/sol/projects/sqlite/src/analyze.c:653-684 | the groups that the new row closes get their final sizes in every sample that still has them open, which changes neither the ranking of the samples nor iMin |
| Stat4.Accum.OfferBest | root/prj/0.1/sol/projects/sqlite/src/analyze.c:659-664 | one candidate is offered or not: afterwards the groups of one more level are represented or outranked, with iMin still the worst sample |
| Stat4.Accum.PushBest | root/prj/0.1/sol/projects/sqlite/src/analyze.c:657-665 | the candidates of the closed levels are offered with exact counts; every group that closes is represented by a sample or outranked by all of them, and no periodic sample is lost |
| Stat4.Accum.NextRow | root/prj/0.1/sol/projects/sqlite/src/analyze.c:745-773 | the counters of the current row are those of the scan so far, and its hash is the next number of the generator |
| Stat4.NextPrnOneToOne | root/prj/0.1/sol/projects/sqlite/src/analyze.c:773-773 | the generator of the tie-breakers is one-to-one on 32-bit numbers |
| Stat4.Accum.TakePeriodic | root/prj/0.1/sol/projects/sqlite/src/analyze.c:777-786 | the row is kept as a periodic sample exactly when the quota grows, there is always room for it, and no other periodic sample is added or lost |
| Stat4.Accum.UpdateBest | root/prj/0.1/sol/projects/sqlite/src/analyze.c:788-794 | the candidate of each level is a row of the open group of that level, and of the largest part of that group as divided by the next column |
| Stat4.Accum.StatPush | root/prj/0.1/sol/projects/sqlite/src/analyze.c:729-797 | one row: the invariant of the whole accumulator, with iMin the worst sample and every closed group represented or outranked |
| Stat4.InsertedKeeps | root/prj/0.1/sol/projects/sqlite/src/analyze.c:631-643 | an insertion never loses a periodic sample, and adds none but the one it is called for |
| Stat4.InsertedDropsWorst | root/prj/0.1/sol/projects/sqlite/src/analyze.c:552-610 | a sample that an insertion drops was the least desirable one |
| Stat4.SettledInserted | root/prj/0.1/sol/projects/sqlite/src/analyze.c:556-644 | a group that is represented by a sample, or outranked by all samples, stays so under every insertion, upgrade and eviction |
| Stat4.NotOffered | root/prj/0.1/sol/projects/sqlite/src/analyze.c:662-664 | a candidate that is not offered has a group no larger than those of all samples, and no sample of its group has been passed over |
| Stat4Exact.GroupMeaning | root/prj/0.1/sol/projects/sqlite/src/analyze.c:729-797 | for sorted rows the stretch between changes of column j is exactly the set of rows that share the first j+1 columns |
| Stat4Exact.SmallerGroups | root/prj/0.1/sol/projects/sqlite/src/analyze.c:752-763 | the number of groups before a row is the number of distinct smaller prefixes |
| Stat4Exact.KeptIsExact | root/prj/0.1/sol/projects/sqlite/src/analyze.c:556-797 | a kept sample's anEq, anLt and anDLt are the cardinalities of the sets of rows they stand for |
| Stat4Exact.SettledMeaning | root/prj/0.1/sol/projects/sqlite/src/analyze.c:552-797 | values that no sample has are at most as frequent as the values for which each sample that is not periodic was kept, and then there is no room for a further sample |
| Stat4Exact.Analyze | root/prj/0.1/sol/projects/sqlite/src/analyze.c:556-797 | for every sorted row stream, after the final flush every sample is exact, the samples strictly ascend in anLt of the last column and at most mxSample are kept; the rows kept as periodic samples are exactly the last ones of every `step` rows, where step is the least number that leaves no more than mxSample/3 of them, which is how many there are as soon as there are (mxSample/3) * (mxSample/3 + 1) rows; and the samples represent the most frequent values: what no sample has is no more frequent than what each of them was kept for |
| BalancePacking.ShrinkPage | root/prj/0.1/sol/projects/sqlite/src/btree.c:7560-7578 | cells move to the right neighbour until the page fits; sizes stay the signed prefix-sum differences, and a sixth page is reported as corruption |
| BalancePacking.GrowPage | root/prj/0.1/sol/projects/sqlite/src/btree.c:7579-7592 | cells move in from the right as long as they fit, also across boundaries that have temporarily crossed |
| BalancePacking.FirstPass | root/prj/0.1/sol/projects/sqlite/src/btree.c:7549-7599 | the greedy packing from the left, with exact sizes |
| BalancePacking.EvenOut | root/prj/0.1/sol/projects/sqlite/src/btree.c:7612-7641 | moving cells to the right neighbour keeps both pages non-empty and within the space; the boundary stops where ShiftCells says, and no other boundary moves |
| BalancePacking.ShiftCells | root/prj/0.1/sol/projects/sqlite/src/btree.c:7621-7634 | the boundary stops at the first place, from right to left, at which the right page has a cell and one cell more would give it more bytes than the left page has (two bytes more are allowed to the rightmost page); in bulk mode at the first place at which it has a cell |
| BalancePacking.SecondPass | root/prj/0.1/sol/projects/sqlite/src/btree.c:7612-7641 | the evened packing is good, or the emptied page is reported; every boundary has moved down from the greedy one as far as ShiftCells says |
| BalancePacking.GreedyDominates | root/prj/0.1/sol/projects/sqlite/src/btree.c:7558-7599 | page i of the greedy packing reaches at least as far as page i of any other packing |
| BalancePacking.GreedyIsShortest | root/prj/0.1/sol/projects/sqlite/src/btree.c:7558-7599 | no packing has fewer pages than the greedy one |
| BalancePacking.NeedsMorePages | root/prj/0.1/sol/projects/sqlite/src/btree.c:7561-7563 | when the greedy packing runs out of pages, no packing has as few pages |
| BalancePacking.Pack | root/prj/0.1/sol/projects/sqlite/src/btree.c:7532-7641 | slices and dividers partition all cells, every page is non-empty and fits, and no packing has fewer pages; the packing is the greedy one with its boundaries moved down; corruption is reported exactly if no packing into five pages exists (for table leaves, and whenever any two cells fit on a page) |
| BalanceRewrite.SafeDown | root/prj/0.1/sol/projects/sqlite/src/btree.c:7889-7906 | writing page i on the way down: no unwritten page still needs old cells of page i |
| BalanceRewrite.SafeUp | root/prj/0.1/sol/projects/sqlite/src/btree.c:7889-7906 | the same on the way up |
| BalanceRewrite.RewriteSiblings | root/prj/0.1/sol/projects/sqlite/src/btree.c:7867-7927 | every page is written exactly once, and from cells that are still intact, also when cells move more than one page |
| BTreeModel.GatherLeaves | root/prj/0.1/sol/projects/sqlite/src/btree.c:7442-7530 | the cells gathered from leaves and dividers are the entries of the siblings in order |
| BTreeModel.GatherNodes | root/prj/0.1/sol/projects/sqlite/src/btree.c:7442-7530 | interior siblings and their dividers have the items of the row of all their children |
| BTreeModel.LeavesStandFor | root/prj/0.1/sol/projects/sqlite/src/btree.c:7811-7862 | leaves dealt out anew with new dividers can stand for the old ones in any tree: same entries, and a searchable tree stays searchable |
| BTreeModel.NodePagesItems | root/prj/0.1/sol/projects/sqlite/src/btree.c:7811-7862 | interior pages dealt out anew have the same items |
| BTreeModel.TableLeavesItems | root/prj/0.1/sol/projects/sqlite/src/btree.c:7829-7839 | the dividers of table leaves are at least every key on their left and less than every key on their right |
| BalanceLoop.ChooseSiblings | root/prj/0.1/sol/projects/sqlite/src/btree.c:7332-7347 | the siblings that take part contain the page, its left neighbour if there is one, and outside bulk loading its right neighbour if there is one; three pages if the parent has as many, two in bulk mode |
| BalanceLoop.LoadCells | root/prj/0.1/sol/projects/sqlite/src/btree.c:7442-7530 | the cell array is the row of all cells, and the old pages are slices of it |
| BalanceLoop.FivePagesEnough | root/prj/0.1/sol/projects/sqlite/src/btree.c:7549-7600 | if one of the siblings has overflow cells, its cells and those of the others fit on two more pages for table leaves and on one more page otherwise; for three siblings that is at most five |
| BalanceLoop.DealOut | root/prj/0.1/sol/projects/sqlite/src/btree.c:7532-7641 | on a well-formed tree the packing never reports corruption, leaves no page empty and uses as few pages as possible, at most two more for table leaves and one more otherwise |
| BalanceLoop.PlanIsValid | root/prj/0.1/sol/projects/sqlite/src/btree.c:7867-7927 | the packing of the cells of old pages is a valid schedule for the rewrite loop |
| BalanceLoop.WritePages | root/prj/0.1/sol/projects/sqlite/src/btree.c:7867-7927 | the rewrite loop, run on the packing, writes every page once, from intact cells, and these are the slices that were dealt out |
| BalanceLoop.Redistribute | root/prj/0.1/sol/projects/sqlite/src/btree.c:7442-7927 | a group of siblings becomes as few pages as its cells need, at most five, that all fit, hold cells if any sibling did, lie at the same depth and can stand for the old group; the rewrite loop writes exactly these pages, each once and from intact cells |
| BalanceLoop.BalanceNonroot | root/prj/0.1/sol/projects/sqlite/src/btree.c:7262-7998 | the parent keeps its place in the tree, with as few new siblings as possible and all others as they were; of the dividers it gets, some overflow exactly if its cells cost more than there is room, and at most three, as the code asserts, exactly unless in a table four are inserted of which already the first does not fit beside the cells that the parent keeps; a root without cells gets at most three; a root that has lost its last cell takes over its only child exactly if the child fits on it; no page becomes empty |
| BalanceLoop.RewriteGroup | root/prj/0.1/sol/projects/sqlite/src/btree.c:7332-7956 | the siblings and the dividers between them are replaced by the rewritten ones, and the parent has exactly these children and cells besides those outside of the group |
| BalanceLoop.OverflowedIff | root/prj/0.1/sol/projects/sqlite/src/btree.c:6604-6622 | inserting dividers one by one leaves overflow cells exactly if they and the other cells cost more than there is room |
| BalanceLoop.InsertDividers | root/prj/0.1/sol/projects/sqlite/src/btree.c:7811-7862 | the new dividers are inserted one by one in their places, and the overflow cells are counted as the code does: the first that does not fit and all after it |
| CellSizes.FourOverflowCells | root/prj/0.1/sol/projects/sqlite/src/btree.c:6619-6622 | an input on which the assertion fails: however the rows of the three leaves are dealt out, a full parent gets four overflow cells |
| CellSizes.SiblingsAreReal | root/prj/0.1/sol/projects/sqlite/src/btree.c:7811-7862 | these leaves and dividers have real cell sizes, are in order, and only the middle leaf has a cell too many |
| CellSizes.RealCellsOk | root/prj/0.1/sol/projects/sqlite/src/btree.c:3145-3148 | with the limits of the code on local payload, every cell of every payload meets the size premise of the balancing results, for every usable size from 480 to 65536 |
| CellSizes.FreeIsRoomLeft | root/prj/0.1/sol/projects/sqlite/src/btree.c:1918-1963 | the free bytes of a page, as computed from its bytes, are what the balancing model calls its room less the cost of its cells, on page 1 behind the file header |
| CellSizes.FourDoNotFit | root/prj/0.1/sol/projects/sqlite/src/btree.c:3145-3148 | on the largest pages not even four of the largest index cells fit, so three is the best premise |
| BalanceLoop.BalanceQuick | root/prj/0.1/sol/projects/sqlite/src/btree.c:7037-7119 | the appended cell gets a page of its own, with the key before it as a divider in the parent; the other cells and pages stay; order and depth are kept |
| BalanceLoop.BalanceDeeper | root/prj/0.1/sol/projects/sqlite/src/btree.c:8023-8068 | the tree with the pushed-down root has the same items |
| BalanceLoop.BalanceStep | root/prj/0.1/sol/projects/sqlite/src/btree.c:8114-8186 | each round keeps what the loop keeps; it is the quick one exactly if a cell has been appended at the end of a table and the parent is not page 1, and otherwise rewrites the page with its siblings |
| BalanceLoop.Balance | root/prj/0.1/sol/projects/sqlite/src/btree.c:8080-8197 | every run succeeds, keeps the entries in order, the search order and one leaf depth, leaves no visited page with overflow cells, changes the depth by at most one and pushes the root down at most once; the pages visited are exactly those that need it, each with overflow cells or, below the root, with more than two thirds of its bytes free, and the loop stops at the first one that does not; then no page below the root is empty if only the modified one could be |
| BalanceLoop.BalanceAfterInsert | root/prj/0.1/sol/projects/sqlite/src/btree.c:8080-8197 | after an insertion the whole tree is sound, has the same entries and is searchable if it was; the visits end at a page that needs no work, and no page below the root is empty if none was |
| BalanceLoop.BalanceAfterDelete | root/prj/0.1/sol/projects/sqlite/src/btree.c:8700-8725 | after a deletion from any depth, with its second call of balance, likewise: also if the deletion has emptied the leaf, every page of the resulting tree but the root holds a cell, provided all other pages did |
| BalanceLoop.PopTo | root/prj/0.1/sol/projects/sqlite/src/btree.c:8716-8724 | walking the cursor up keeps the tree |
| ProbeTable.Probe | root/prj/0.1/sol/projects/sqlite/src/bitvec.c:196-217 | linear probing always meets the value or a free slot; the value is found exactly if it is in the table, and the free slot is a right place for it |
| ProbeTable.AbsentAt | root/prj/0.1/sol/projects/sqlite/src/bitvec.c:144-150 | meeting a free slot proves that the value is absent |
| ProbeTable.PlaceOk | root/prj/0.1/sol/projects/sqlite/src/bitvec.c:229-232 | the first free slot of a search keeps every value reachable, and the occupied slots grow by one |
| ProbeTable.Remove | root/prj/0.1/sol/projects/sqlite/src/bitvec.c:254-270 | the rebuilt table holds exactly the other values, all reachable |
| BitvecModel.BitmapUpdate | root/prj/0.1/sol/projects/sqlite/src/bitvec.c:184-187 | setting and clearing a bit of a byte adds and removes exactly that value |
| BitvecModel.DivisorOk | root/prj/0.1/sol/projects/sqlite/src/bitvec.c:220-221 | the divisor is positive and smaller than the size, and every bin is below NPTR |
| BitvecModel.Bitvec.constructor | root/prj/0.1/sol/projects/sqlite/src/bitvec.c:115-123 | the empty set |
| BitvecModel.Bitvec.Test | root/prj/0.1/sol/projects/sqlite/src/bitvec.c:130-155 | true exactly for the members, for all 32-bit arguments, 0 and too large ones included |
| BitvecModel.Bitvec.Set | root/prj/0.1/sol/projects/sqlite/src/bitvec.c:169-233 | adds exactly i, in all three representations; ends because sub-sets are smaller |
| BitvecModel.Bitvec.SetTable | root/prj/0.1/sol/projects/sqlite/src/bitvec.c:188-233 | nSet stays the number of occupied slots and at most NINT - 1; the table is split exactly if a new value would exceed that, or meets an occupied slot while nSet has reached MXHASH |
| BitvecModel.Bitvec.Split | root/prj/0.1/sol/projects/sqlite/src/bitvec.c:208-228 | the conversion from table to sub-sets loses no value |
| BitvecModel.Bitvec.Clear | root/prj/0.1/sol/projects/sqlite/src/bitvec.c:240-272 | removes exactly i |
| BitvecModel.Run | root/prj/0.1/sol/projects/sqlite/src/bitvec.c:115-272 | after any run of sets and clears, a test tells the members of the mathematical set |
| PageLayout.FragmentsAreLoose | root/prj/0.1/sol/projects/sqlite/src/btree.c:1379-1763 | the bytes of the content area in neither a cell nor a freeblock number exactly the fragment count |
| PageLayout.MergedApart | root/prj/0.1/sol/projects/sqlite/src/btree.c:1719-1741 | a coalesced freeblock touches no other cell, as no cell fits into the holes it swallows |
| PageLayout.FreedLayout | root/prj/0.1/sol/projects/sqlite/src/btree.c:1671-1763 | freeing a cell keeps the partition, the ascending freeblocks and the fragment bound; the fragments swallowed were there, and the free bytes grow by the size of the cell and its pointer |
| PageLayout.SlotReserved | root/prj/0.1/sol/projects/sqlite/src/btree.c:1532-1554 | room taken from a freeblock is apart from all cells and freeblocks; the fragments stay at most 60 |
| PageLayout.ReservedLayout | root/prj/0.1/sol/projects/sqlite/src/btree.c:6631-6647 | a cell put into reserved room keeps the partition |
| PageSpace.FindPlace | root/prj/0.1/sol/projects/sqlite/src/btree.c:1698-1709 | the walk over the freeblocks ends at the place for the freed bytes and never reports corruption on a well-formed page |
| PageSpace.Coalesce | root/prj/0.1/sol/projects/sqlite/src/btree.c:1689-1742 | computes the coalesced block and the swallowed fragments |
| PageSpace.FreeSpace | root/prj/0.1/sol/projects/sqlite/src/btree.c:1671-1763 | the bytes of the page describe the new layout and the other cells keep their bytes, as do the page type, the right child and everything before the header and behind the usable part; it never fails |
| PageSpace.PageFindSlot | root/prj/0.1/sol/projects/sqlite/src/btree.c:1520-1567 | finds the first freeblock with room unless the fragments forbid it or none is large enough |
| PageSpace.MoveCells | root/prj/0.1/sol/projects/sqlite/src/btree.c:1413-1455 | moving two stretches of cells and adding the offsets to the pointers keeps the bytes of every cell |
| PageSpace.MovedContent | root/prj/0.1/sol/projects/sqlite/src/btree.c:1437-1451 | each cell is found at its shifted address |
| PageSpace.Rebuild | root/prj/0.1/sol/projects/sqlite/src/btree.c:1457-1491 | packing all cells anew through a lazily copied scratch buffer keeps the bytes of every cell |
| PageSpace.DefragmentPage | root/prj/0.1/sol/projects/sqlite/src/btree.c:1379-1504 | both paths keep the sequence of cell byte strings, the free bytes, the page type, the right child and everything before the header and behind the usable part, leave no freeblock and at most nMaxFrag fragments, and never report corruption; cells are only moved up in two stretches exactly if there are one or two freeblocks and few enough fragments |
| PageSpace.AllocateSpace | root/prj/0.1/sol/projects/sqlite/src/btree.c:1581-1656 | with nFree >= nByte + 2 always returns a region apart from every cell and from the enlarged pointer array: from the first freeblock that can be used, otherwise from the gap, after defragmenting only if that is too small; otherwise no cell moves; page type, right child and everything before the header and behind the usable part stay |
| MemPageModel.InitFree | root/prj/0.1/sol/projects/sqlite/src/btree.c:1918-1963 | the free bytes recomputed from the page are those kept beside it |
| MemPageModel.MemPage.constructor | root/prj/0.1/sol/projects/sqlite/src/btree.c:1973-2001 | an empty page |
| MemPageModel.MemPage.InsertCell | root/prj/0.1/sol/projects/sqlite/src/btree.c:6583-6656 | inserts exactly the given bytes at the given place, or puts the cell on the overflow list exactly if it does not fit; page type, right child and everything before the header and behind the usable part stay |
| MemPageModel.MemPage.DropCell | root/prj/0.1/sol/projects/sqlite/src/btree.c:6528-6567 | removes exactly the given cell; page type, right child and everything before the header and behind the usable part stay |
| MemPageModel.FreeIsRest | root/prj/0.1/sol/projects/sqlite/src/btree.c:1918-1963 | the free bytes depend on the cells alone and not on where they lie |
| MemPageModel.RunPage | root/prj/0.1/sol/projects/sqlite/src/btree.c:1379-1763 | any run of insertions and deletions in which every cell fits by its size alone succeeds and leaves exactly the cells of the replayed list |
| EditPage.PutCell | root/prj/0.1/sol/projects/sqlite/src/btree.c:6813-6831 | the bytes of a cell in reserved room and its pointer in a slot: the layout is kept, and nothing else below the content area, no other cell and no freeblock changes |
| EditPage.PageInsertArray | root/prj/0.1/sol/projects/sqlite/src/btree.c:6800-6835 | cells are put into freeblocks or below the content area and their pointers into consecutive slots; it gives up only at a cell for which no freeblock can be used and which would reach below pBegin, and then all cells that were there are unharmed |
| EditPage.MergedLayout | root/prj/0.1/sol/projects/sqlite/src/btree.c:6862-6882 | two neighbouring cells may be freed as one region |
| EditPage.PageFreeArray | root/prj/0.1/sol/projects/sqlite/src/btree.c:6846-6889 | the bytes of exactly those cells of the range that are on the page join its free space; the other cells keep their bytes, and the count of freed cells is right |
| EditPage.RemoveCells | root/prj/0.1/sol/projects/sqlite/src/btree.c:6925-6933 | afterwards the page holds exactly the old cells that also belong to the new stretch, with their pointers in order |
| EditPage.RebuildPage | root/prj/0.1/sol/projects/sqlite/src/btree.c:6731-6773 | packs any cells that fit, also those that lie on the page itself, in order, and never reports corruption; page type, right child and everything behind the usable part stay |
| EditPage.EditPage | root/prj/0.1/sol/projects/sqlite/src/btree.c:6903-6995 | whatever the old and the new stretch of the cell array and wherever the overflow cells lie, the bytes of the page describe exactly cells iNew .. iNew + nNew - 1 in order and the free space that is left, which is what the caller computes from the packing; it never fails if these cells fit; if all of them were on the page, none moves; page type, right child and everything behind the usable part stay |
| BackupModel.BackupOnePage | root/prj/0.1/sol/projects/sqlite/src/backup.c:227-313 | exactly the bytes of the source page are copied, whatever the two page sizes, except to the destination's pending page; the first page, unless it is an update, gets the number of source pages in its header |
| BackupModel.MatchNext | root/prj/0.1/sol/projects/sqlite/src/backup.c:421-433 | copying the next page extends the copied part by one page |
| BackupModel.MatchWritten | root/prj/0.1/sol/projects/sqlite/src/backup.c:690-714 | after a source page is written and updated, everything before iNext still matches |
| BackupModel.WriteExtra | root/prj/0.1/sol/projects/sqlite/src/backup.c:536-551 | source pages hidden behind the destination's larger pending page are written at the end |
| BackupModel.FinishCopy | root/prj/0.1/sol/projects/sqlite/src/backup.c:446-575 | the destination equals the source outside the source's pending page and the header fields of its own, and has its size; the four bytes at 40 are, as a big-endian number, one more than the destination's schema cookie before the backup; in WAL mode bytes 18 and 19 are 2; the stamps of the commit are written; the copy of a source without pages is a new database |
| BackupModel.Backup.Step | root/prj/0.1/sol/projects/sqlite/src/backup.c:348-596 | keeps the match below iNext, which advances by the pages copied; done exactly when no page is left, and only with a complete copy, a new schema cookie and an in-header size that is the source's or the number of pages when page 1 was copied; busy leaves everything alone; read-only exactly if the page sizes differ and the destination is in WAL mode, or in memory with a page to copy; the stored and the reported count of remaining pages are right exactly if the source has not shrunk below iNext and, for the reported one, the count fits in an int |
| BackupModel.RemainingIsRight | root/prj/0.1/sol/projects/sqlite/src/backup.c:654-662 | the stored 32-bit count of remaining pages is right exactly if the source has not shrunk below the copied pages; so is the int that sqlite3_backup_remaining returns, as long as the count fits in it |
| BackupModel.RemainingWraps | root/prj/0.1/sol/projects/sqlite/src/backup.c:434-435 | with five pages left of a source of which nine had been copied the unsigned field holds 4294967292, and a caller of sqlite3_backup_remaining gets -4 |
| BackupModel.ShrinkDuringBackup | root/prj/0.1/sol/projects/sqlite/src/backup.c:348-662 | in every run that copies k pages of a longer source, lets it shrink to m <= k pages and steps again, the backup is done and reports m - k remaining pages, a negative number if m < k |
| BackupModel.Backup.SourceWrite | root/prj/0.1/sol/projects/sqlite/src/backup.c:690-717 | a write to the source keeps the match |
| BackupModel.Backup.Update | root/prj/0.1/sol/projects/sqlite/src/backup.c:690-714 | copies the page exactly if it was copied before; read-only exactly if it would have to be copied to a database in memory with another page size |
| BackupModel.Backup.SourceTruncate | root/prj/0.1/sol/projects/sqlite/src/backup.c:348-596 | a shrinking source keeps the match |
| BackupModel.Backup.SourceReplaced | root/prj/0.1/sol/projects/sqlite/src/backup.c:730-736 | a restart begins again at page 1 |
| BackupModel.Run | root/prj/0.1/sol/projects/sqlite/src/backup.c:227-736 | every interleaving of steps, writes, size changes and restarts keeps the match |
| BackupModel.RunThenCopyAll | root/prj/0.1/sol/projects/sqlite/src/backup.c:227-736 | after any interleaving, one call for all pages ends with a complete copy whose schema cookie differs from the destination's before |
| SharedCache.ShortcutIsExact | root/prj/0.1/sol/projects/sqlite/src/btree.c:302-324 | comparing the modes for inequality is the full conflict test |
| SharedCache.ExclusiveMeansAlone | root/prj/0.1/sol/projects/sqlite/src/btree.c:3345-3363 | in exclusive mode no other handle has a transaction |
| SharedCache.PendingMeansOthers | root/prj/0.1/sol/projects/sqlite/src/btree.c:431-446 | a pending writer waits for an open transaction of another handle |
| SharedCache.PendingStays | root/prj/0.1/sol/projects/sqlite/src/btree.c:431-446 | when a transaction ends, the pending flag stays set exactly if the transaction was not the writer's and another reader is still active |
| SharedCache.WhoCanBegin | root/prj/0.1/sol/projects/sqlite/src/btree.c:3335-3372 | a transaction is refused exactly if a writer is pending, another handle works exclusively, has a write lock on the schema table, or writes while this one is to write, or any other transaction is open while this one is to be exclusive |
| SharedCache.EndedOk | root/prj/0.1/sol/projects/sqlite/src/btree.c:411-449 | ending a transaction keeps the invariant |
| SharedCache.DowngradedOk | root/prj/0.1/sol/projects/sqlite/src/btree.c:455-467 | turning the writer's locks into read locks keeps the invariant |
| SharedCache.BegunOk | root/prj/0.1/sol/projects/sqlite/src/btree.c:3404-3440 | beginning or upgrading a transaction keeps the invariant |
| SharedCache.BtShared.Query | root/prj/0.1/sol/projects/sqlite/src/btree.c:275-326 | yes exactly if no lock conflicts and no other handle works exclusively; a refused write lock sets the pending flag |
| SharedCache.BtShared.SetLock | root/prj/0.1/sol/projects/sqlite/src/btree.c:347-398 | the lock is held afterwards, write locks are never weakened, other locks stay, and no other lock is added |
| SharedCache.BtShared.LockTable | root/prj/0.1/sol/projects/sqlite/src/btree.c:10038-10055 | takes the lock exactly if it can be granted, and no other; a refused write lock sets the pending flag |
| SharedCache.BtShared.BeginTrans | root/prj/0.1/sol/projects/sqlite/src/btree.c:3303-3457 | each refusal and the new state of a success |
| SharedCache.BtShared.ClearAllLocks | root/prj/0.1/sol/projects/sqlite/src/btree.c:411-449 | drops exactly the locks of the handle, and the pending flag when the last other transaction ends |
| SharedCache.BtShared.DowngradeAllLocks | root/prj/0.1/sol/projects/sqlite/src/btree.c:455-467 | all locks become read locks if the handle is the writer |
| SharedCache.BtShared.EndTransaction | root/prj/0.1/sol/projects/sqlite/src/btree.c:3936-3970 | the new state after commit or rollback |
| SharedCache.Run | root/prj/0.1/sol/projects/sqlite/src/btree.c:275-466 | in every reachable state: no conflicting locks, only the writer holds write locks, exclusive means alone, pending implies a writer, nTransaction counts open transactions |
| SharedCache.RunBesideWriter | root/prj/0.1/sol/projects/sqlite/src/btree.c:3303-3457 | from the moment at which a handle has begun to write until it ends its transaction, whatever the others do: if it writes exclusively, no call of another handle that begins a transaction succeeds, not even to read, and otherwise none that begins to write; afterwards every handle can read again |
| SharedCache.ReadBesideWriter | root/prj/0.1/sol/projects/sqlite/src/btree.c:3303-3457 | after a handle has begun to write, not exclusively, every other handle can begin to read |
| BtreeMutex.StepKeeps | root/prj/0.1/sol/projects/sqlite/src/btmutex.c:27-152 | every step of every connection keeps the invariant |
| BtreeMutex.LockedIffWanted | root/prj/0.1/sol/projects/sqlite/src/btmutex.c:71-152 | outside the protocol a handle is locked exactly if wantToLock is positive |
| BtreeMutex.HoldsOnlySmaller | root/prj/0.1/sol/projects/sqlite/src/btmutex.c:105-137 | a connection that blocks on a mutex holds only mutexes with smaller addresses |
| BtreeMutex.RunKeeps | root/prj/0.1/sol/projects/sqlite/src/btmutex.c:27-152 | the invariant holds after every interleaving |
| BtreeMutex.WantCounts | root/prj/0.1/sol/projects/sqlite/src/btmutex.c:72-152 | in every run, wantToLock of a handle is the number of its calls of sqlite3BtreeEnter minus that of its calls of sqlite3BtreeLeave |
| BtreeMutex.HeldUntilMatched | root/prj/0.1/sol/projects/sqlite/src/btmutex.c:72-152 | whenever a connection is not inside a call, it holds the mutex exactly if it has entered the tree more often than left it, that is until the Leave that matches the first Enter |
| BtreeMutex.HeldUpByAnother | root/prj/0.1/sol/projects/sqlite/src/btmutex.c:105-137 | a connection inside a call is held up only by a mutex that it wants, does not hold, and that another connection holds |
| BtreeMutex.WaitsForLarger | root/prj/0.1/sol/projects/sqlite/src/btmutex.c:105-137 | along a chain of waiting connections the awaited addresses grow |
| BtreeMutex.NoCycle | root/prj/0.1/sol/projects/sqlite/src/btmutex.c:105-137 | in no reachable state is there a cycle of waiting connections |
| BtreeMutex.SomeoneGoesOn | root/prj/0.1/sol/projects/sqlite/src/btmutex.c:105-137 | whoever waits depends on a connection that holds a mutex and can go on |
| OverflowChain.LocalSizeFills | root/prj/0.1/sol/projects/sqlite/src/btree.c:6399-6402 | the bytes that spill over fill whole pages, unless more than maxLocal bytes would have to stay on the page, in which case minLocal bytes stay |
| OverflowChain.GetOverflowPage | root/prj/0.1/sol/projects/sqlite/src/btree.c:4524-4579 | the pointer-map shortcut gives the page that the chain names, for every guess, also while a chain is being freed; the page itself is read exactly if the map does not confirm the guess |
| OverflowChain.FindStart | root/prj/0.1/sol/projects/sqlite/src/btree.c:4706-4733 | the walk starts at the cached page that holds the offset if it is known, and otherwise at the first page, with the offset that belongs to it; the cache stays as it was, or starts empty |
| OverflowChain.ChainLength | root/prj/0.1/sol/projects/sqlite/src/btree.c:6286-6290 | the number of pages is the rounded-up quotient that the code computes |
| OverflowChain.AccessPayload | root/prj/0.1/sol/projects/sqlite/src/btree.c:4642-4823 | returns exactly the asked slice whatever part of the cache is known; the cache stays right and afterwards knows every overflow page from which bytes have been read |
| OverflowChain.OverwritePayload | root/prj/0.1/sol/projects/sqlite/src/btree.c:4642-4823 | overwrites exactly the given slice of the payload, on the cell and along the chain, whatever part of the cache is known; other pages stay, the cache stays right and knows the pages written, and the pointer map stays exact |
| OverflowChain.OverwriteChain | root/prj/0.1/sol/projects/sqlite/src/btree.c:4698-4823 | the part of an overwrite on the overflow pages: exactly the given bytes of the chain change, the links stay, and the chain never ends too early |
| OverflowChain.StoresPatch | root/prj/0.1/sol/projects/sqlite/src/btree.c:4592-4612 | writing on one page of a chain changes exactly the corresponding bytes of the payload |
| OverflowChain.CacheIndex | root/prj/0.1/sol/projects/sqlite/src/btree.c:4728-4733 | jumping to a cached page reaches the right place of the payload |
| OverflowStore.NextContent | root/prj/0.1/sol/projects/sqlite/src/btree.c:6465-6470 | the page near which to allocate is the first one after the given page that is neither a pointer-map page nor the pending page; the search ends |
| OverflowStore.AddOverflowPage | root/prj/0.1/sol/projects/sqlite/src/btree.c:6461-6512 | one more page is allocated, linked behind the last one and recorded in the pointer map; from the freelist it is the page of the first trunk closest to the page after the last one (without auto-vacuum, to the last one); freelist, map and the part stored so far stay right |
| OverflowStore.TakenNext | root/prj/0.1/sol/projects/sqlite/src/btree.c:6473-6493 | an allocation takes a page that is in no use: one of the freelist, or one beyond the end of the file if the list is empty; the chain and all pages in use stay as they are |
| OverflowStore.FillInCell | root/prj/0.1/sol/projects/sqlite/src/btree.c:6338-6518 | the payload is split over the cell and a chain of allocated pages; these and the rest of the freelist are the old freelist and, only if it was too short, pages beyond the old end; no other page in use and no other map entry changes; in an auto-vacuum database the pointer map stays exact and records the new chain |
| OverflowStore.ClearCell | root/prj/0.1/sol/projects/sqlite/src/btree.c:6255-6320 | puts exactly the pages of the chain on the freelist, each once, which stays well formed, and leaves an exact pointer map in which they are free pages; other pages in use stay |
| OverflowStore.FreedExact | root/prj/0.1/sol/projects/sqlite/src/btree.c:6294-6318 | freeing a whole chain leaves no map entry that names one of its pages as predecessor |
| OverflowStore.RoundTrip | root/prj/0.1/sol/projects/sqlite/src/btree.c:4642-4823 | store, read any slice, overwrite any slice, read any slice, free: the slices are right, and the freelist gets back exactly the pages that were taken, those by which the file has grown included; with and without auto-vacuum, whatever the pointer-map shortcut guesses; the map is exact throughout and other pages in use and entries stay |
| RenameEdit.EscapeRoundTrip | root/prj/0.1/sol/projects/sqlite/src/alter.c:993-998 | undoubling the quotes of a quoted name gives the name |
| RenameEdit.TokenNext | root/prj/0.1/sol/projects/sqlite/src/alter.c:828-840 | takes the rightmost token off the list |
| RenameEdit.ReplaceToken | root/prj/0.1/sol/projects/sqlite/src/alter.c:1029-1037 | one replacement in the buffer, which stays terminated |
| RenameEdit.EditStep | root/prj/0.1/sol/projects/sqlite/src/alter.c:1014-1039 | replacing the rightmost token left extends the substituted part of the text |
| RenameEdit.RenameEditSql | root/prj/0.1/sol/projects/sqlite/src/alter.c:974-1051 | the edit equals the simultaneous substitution of all tokens for every order of the list, within nSql + nList * nQuot + 1 characters |
| RenameEdit.TokenReplaced | root/prj/0.1/sol/projects/sqlite/src/alter.c:993-1028 | every token is replaced by a form of the new name: by the bare name if the token is a bare identifier and the name need not be quoted, and otherwise by a quoted identifier that reads back as the name |

## Left out

- The pager, journals, WAL, file access and real mutex calls: pages are a map, locks are abstract.
- Allocation failure, secure delete, codecs and direct overflow reads: they add cases without harder
  properties.
- The parser and virtual machine parts of alter.c and analyze.c, and loading the statistics tables.
- Cell parsing and variable-length integers: cell sizes are recorded beside the page instead of being read
  from the cell header, and a cell of the balancing model carries its sizes on leaf and interior pages.
- The B-tree library headers, its C wrappers and the experiments: no bodies to model.
- Counters are unbounded where the original uses 32 or 64 bits, except where the width matters: page
  numbers in the pointer map, stored two-byte and four-byte fields, the linear congruential generator, bitvec
  arguments and the remaining-page count of a backup are bounded or wrap as in the code.
- BitvecModel.Bitvec.Set: the sum iSize + NPTR - 1 is computed without wrap-around, as it is with 64-bit
  sizes. Null handles and allocation failure are not modelled, and descending to a sub-set is a recursive
  call instead of a loop.
- BalanceLoop.BalanceNonroot: page numbers, pointer-map updates and the reuse of old pages are not part of the
  tree model; a page holds overflow cells when its cells cost more than it has room for.
- BalanceLoop.BalanceAfterDelete: starts after the cell has been dropped or replaced.
- BalancePacking.Pack: the exact condition for corruption is stated for table leaves and for pages on which
  any two cells fit, as at least three index or interior cells do on every real page
  (`CellSizes.RealCellsOk`).
- PageSpace.AllocateSpace: the page buffer is a sequence that is reassigned, not an array updated in place.
- AutoVacuum.AutoVacuumCommit: models a database in full auto-vacuum mode; root pages are never moved by a
  vacuum, and moving one when a table is dropped is left out.
- AutoVacuum.IncrVacuum: databases without auto-vacuum, for which the call does nothing, are left out.
- BackupModel.Backup.Step: the destination's page size is fixed, commit and file errors do not occur, and only
  backups between connections are modelled (not `sqlite3BtreeCopyFile`).
- SharedCache.BtShared.BeginTrans: read-only databases, busy handlers and savepoints are left out; a failed
  lock on the file is one outcome.
- BtreeMutex.StepKeeps: handles that are not sharable never take a mutex and are left out; the list of handles
  of a connection does not change during a run.
- OverflowStore.FillInCell: the pointer map is a map (`PointerMap.PtrmapRefinesMap` justifies this), and the
  entry of the first overflow page names no B-tree page until insertCell completes it.
- EditPage.EditPage: the page is not page 1, as in the code, and cell sizes are those of the cell array; that
  the cells of other pages are still intact when they are copied is `BalanceRewrite.RewriteSiblings`.
- RenameEdit.RenameEditSql: which characters belong to identifiers is a parameter.
- PointerMap.PtrmapRefinesMap: the page store is a map from page numbers to byte sequences.
- Freelist.BtShared.FreePage2: freeing a page that is free already, or above the page count, is excluded as
  the callers do.
