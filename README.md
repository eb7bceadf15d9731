# UltraDefrag core in Dafny

This project models the core of UltraDefrag, a disk defragmenter for Windows, and proves properties of the model.

The model covers two kinds of code. The first is the bookkeeping of volume space in the defragmentation library (udefrag) and its native helper library (zenwinx):
- free space held as an ordered list of cluster regions;
- the search for free regions;
- file fragment lists;
- file moves, analysis, optimisation and the cluster map;
- job control and the keyboard queue of the boot-time interface.

The second is the small self-contained parsers and encoders around it:
- the BootExecute registry editor;
- the debug logger;
- the GUI options file;
- the upgrade checker;
- the handbook's language redirector.

Each core source file has one module:

| module | source file |
|---|---|
| `Types` | shared entities: regions, blocks, file records and their flags, job types, status codes (udefrag-internals.h, udefrag.h, zenwinx.h) |
| `Regions` | src/dll/zenwinx/volume.c: the free-region list, adding and removing ranges, the bitmap scan |
| `Search` | trunk/src/dll/udefrag/search.c: free regions by position and by size, the order of the blocks tree, the slow path of `find_first_block` |
| `Fragments` | src/dll/udefrag/defrag.c: the fragment list of a file |
| `Defrag` | src/dll/udefrag/defrag.c: which files may be defragmented, the pass loop of `defragment`, the cut of `fine_defrag_routine` |
| `Move` | src/dll/udefrag/move.c: `can_move`, the chunked requests of `move_file_helper`, the block map after a move, the checks and outcome of `move_file`, the free space update |
| `Analyze` | src/dll/udefrag/analyze.c: the volume geometry checks, the file system name, the clusters moved at once, the file filters, the fragmented files list, the progress counters |
| `Optimize` | src/dll/udefrag/optimize.c: VCN advance, the moves of `cleanup_space`, allocated clusters after an LCN, the move-to-end test, the cut of sorted groups, the counters and results of `optimize` and `optimize_mft` |
| `OptimizeTrunk` | trunk/src/dll/udefrag/optimize.c: the free region threshold, the starting point and its advance, `opt_cc_routine`, the size exclusion and the tree walk of `optimize_routine`, the defaults and results of `optimize` and `optimize_mft` |
| `ClusterMap` | trunk/src/dll/udefrag/map.c: the cluster map cells and their colours |
| `Udefrag` | src/dll/udefrag/udefrag.c: the map colours of `deliver_progress_info`, the completion status of `start_job`, the result of `udefrag_start_job`, the time limit test, the error descriptions |
| `Keyboard`, `KeyboardTrunk` | src/dll/zenwinx/keyboard.c and trunk/src/dll/zenwinx/keyboard.c: the ring buffer of key events |
| `BootExCtrl` | src/bootexctrl/bootexctrl.c: registering and unregistering a boot-time command |
| `MultiSz` | the REG_MULTI_SZ walks shared by bootexctrl.c and reg.c |
| `ZenwinxReg` | src/dll/zenwinx/reg.c: the same edits in the native library |
| `Dbg` | src/dll/zenwinx/dbg.c: the debug log, its message endings and error descriptions |
| `WgxConfig` | trunk/src/dll/wgx/config.c: loading and saving the GUI options |
| `UpgradeSrc`, `UpgradeTrunk` | src/wxgui/upgrade.cpp and trunk/src/wxgui/upgrade.cpp: the version comparison of the upgrade checker |
| `Redirector` | trunk/doc/html/Scripts/redirector.js: the handbook's language redirect |
| `Scanf` | the subset of `sscanf`/`swscanf` that the version parsers use |

General conventions:
- A linked list of the source becomes a sequence in list order.
- ULONGLONG and LONGLONG become unbounded integers. The 32-bit wrap-around that matters (`%u` in the version parser, DWORD lengths in reg.c) is written out.
- Native API calls, registry access, file I/O, memory allocation and the Lua interpreter become parameters: the values they return, including their failures, are inputs of the model.
- A C object that functions update in place becomes a Dafny `class` with `modifies` clauses: the region list, the job, the keyboard queue and the log. Pure code becomes functions and lemmas.

Where the redirector's code and its comments suggest different behaviour, the model follows the code:
- A cookie's value is only the text between its first and second `=`.
- A pair without `=` yields "undefined".
- Names are compared without unescaping.
- The cookie is used without checking that it is a listed translation.
- Without a cookie, when neither browser language is defined, `toLowerCase` on `undefined` raises a TypeError. The page does not fall back to "en".

## Model

| member | source | states |
|---|---|---|
| Regions.FirstAbove | src/dll/zenwinx/volume.c:628-637 | the position where the list walk of winx_add_volume_region stops: every region before it starts at or below `lcn`, the one at it above `lcn` |
| Regions.AddRegion | src/dll/zenwinx/volume.c:626 | adding a range of length 0 returns the list unchanged |
| Regions.AddRegionPlace | src/dll/zenwinx/volume.c:628-637 | for a nonempty range the walk stops right after the last region of the leading run that starts at or below `lcn`, and the range is placed next to that region (`rprev`, or none) |
| Regions.FirstAboveSorted | src/dll/zenwinx/volume.c:628-637 | on a valid list the walk stops right after the last region whose lcn is at most `lcn` |
| Regions.AddBetween | src/dll/zenwinx/volume.c:663-669 | a range touching neither neighbour is inserted as a new region `(lcn, length)` between them |
| Regions.AddExtendsPredecessor | src/dll/zenwinx/volume.c:640-649 | a range starting exactly at the end of region `p` extends it by `length`; when it then reaches the next region, that region is absorbed and removed |
| Regions.AddLowersSuccessor | src/dll/zenwinx/volume.c:652-660 | a range ending exactly at region `n`'s lcn, with no region ending at its own start, sets that region's lcn to `lcn` and grows it by `length` |
| Regions.AddInsertsInOrder | src/dll/zenwinx/volume.c:628-669 | a range touching no region is inserted after the last region with lcn <= the new lcn, and the list stays valid (ascending, apart) |
| Regions.WidenOne | src/dll/zenwinx/volume.c:642 | growing one region so that it still keeps clear of its neighbours keeps the list valid and adds exactly the new clusters |
| Regions.MergeTwo | src/dll/zenwinx/volume.c:643-647 | replacing two neighbours by the region spanning both keeps the list valid and adds exactly the clusters of the gap |
| Regions.AddSpecMerge | src/dll/zenwinx/volume.c:640-649 | closing the gap between two regions keeps the list valid and adds exactly the range's clusters |
| Regions.AddSpecExtend | src/dll/zenwinx/volume.c:640-649 | extending the predecessor only keeps the list valid and adds exactly the range's clusters |
| Regions.AddSpecLower | src/dll/zenwinx/volume.c:652-660 | lowering the successor keeps the list valid and adds exactly the range's clusters |
| Regions.AddSpecInsert | src/dll/zenwinx/volume.c:663-669 | inserting a new region keeps the list valid and adds exactly the range's clusters |
| Regions.AddRegionSpec | src/dll/zenwinx/volume.c:620-671 | adding a range that shares no cluster with the list keeps it valid (nonempty, ascending, neither overlapping nor touching), and afterwards a cluster is free iff it was free or lies in the range |
| Regions.Cut | src/dll/zenwinx/volume.c:692-739 | one region with the range subtracted: itself when apart, nothing when inside, its left or right part when it crosses one end, both parts when it holds the range; never more than two pieces |
| Regions.CutSpec | src/dll/zenwinx/volume.c:692-739 | the pieces subtraction leaves of one region: valid, inside the region, and holding exactly its clusters outside the range (removed when inside, trimmed to `lcn - r.lcn` on the left, only the tail past `lcn + length` on the right, split in two when it contains the range) |
| Regions.CutAllAppend | src/dll/zenwinx/volume.c:688-744 | cutting a range out of two consecutive parts of the list is cutting it out of each part |
| Regions.CutAllBeyond | src/dll/zenwinx/volume.c:691 | regions starting at or after `lcn + length` are left as they are |
| Regions.CutAllBounds | src/dll/zenwinx/volume.c:692-740 | the regions left by the cut lie within the span of the original list |
| Regions.CutAllValid | src/dll/zenwinx/volume.c:692-740 | cutting a range out of a valid list leaves a valid list |
| Regions.CutAllCovers | src/dll/zenwinx/volume.c:692-740 | after the cut a cluster is free iff it was free and lies outside `[lcn, lcn + length)` |
| Regions.SubRegionSpec | src/dll/zenwinx/volume.c:680-745 | winx_sub_volume_region keeps a valid list valid and removes exactly the clusters of the range, so no remaining region intersects it |
| Regions.SubRegionKeepsSuffix | src/dll/zenwinx/volume.c:691 | regions starting at or after `lcn + length` come out untouched and in place |
| Regions.InsideSumBound | src/dll/zenwinx/volume.c:700 | the regions removed whole before region `k` add up to no more than the part of the range before that region's end, so `remaining_clusters` never goes below 0 |
| Regions.RegionList.constructor | src/dll/zenwinx/volume.c:487 | a new region list is empty |
| Regions.RegionList.Add | src/dll/zenwinx/volume.c:620-671 | the in-place edit leaves the list AddRegion describes |
| Regions.RegionList.Sub | src/dll/zenwinx/volume.c:680-745 | the in-place walk, with its early stops, leaves the list SubRegion describes |
| Regions.RegionList.CutRegion | src/dll/zenwinx/volume.c:692-740 | one step of the walk maps the region at the cursor to its cut pieces and returns the next cursor and the clusters removed whole |
| Regions.RegionList.CutInside | src/dll/zenwinx/volume.c:694-713 | a region ending inside the range is removed whole (its length is returned) or trimmed to `lcn - r.lcn` |
| Regions.RegionList.CutCrossing | src/dll/zenwinx/volume.c:715-739 | a region sticking out right of the range is removed or trimmed on the left, and its part past the range is put back through winx_add_volume_region |
| Regions.SubWalkDone | src/dll/zenwinx/volume.c:688-691 | stopping at the list end, at a region at or beyond the range, or when `remaining_clusters` reaches 0 gives the whole result |
| Regions.SubAdvance | src/dll/zenwinx/volume.c:688-744 | one step of the walk appends the cut pieces of the region and adds its length to the removed clusters exactly when it lies inside the range |
| Regions.AddBetweenLists | src/dll/zenwinx/volume.c:725 | putting back a piece that fits strictly between the walked part and the rest inserts it between them |
| Regions.SubPrefix | src/dll/zenwinx/volume.c:688-744 | what the walk has produced before region `k` is valid and ends before region `k` starts |
| Regions.SubPrefixLeft | src/dll/zenwinx/volume.c:712 | after trimming a region to its part left of `lcn`, the list produced so far is valid and ends at `lcn` |
| Regions.SubCutsRight | src/dll/zenwinx/volume.c:721-725 | removing a region that crosses the right end and adding its tail back puts the tail where the region was |
| Regions.CutRight | src/dll/zenwinx/volume.c:721-722 | a region that starts in the range and ends beyond it keeps only `[lcn + length, end)` |
| Regions.SubSplits | src/dll/zenwinx/volume.c:734-737 | a region containing the whole range becomes its left part followed by its right part |
| Regions.ScanBitmap | src/dll/zenwinx/volume.c:543-596 | the bitmap scan (true = in use) yields a valid list, so one region per maximal run of clear bits in ascending order, and a cluster is covered iff its bit is clear, including a run reaching the end |
| Regions.Place | src/dll/zenwinx/volume.c:628-669 | the list after the walk: merged with both neighbours, the predecessor grown, the successor lowered, or the region inserted |
| Regions.CutAll | src/dll/zenwinx/volume.c:688-744 | each region with the range cut out of it |
| Regions.SubRegion | src/dll/zenwinx/volume.c:680-745 | a zero length leaves the list, otherwise every region is cut |
| Search.FindFirstFreeRegion | trunk/src/dll/udefrag/search.c:50-73 | the result is the first region in list order with `lcn >= min_lcn` and `length >= min_length`, or None once the list ends or the termination router stops the walk; `max_length` is the largest length among the visited regions at or after `min_lcn` (0 when there is none) |
| Search.FindLastFreeRegion | trunk/src/dll/udefrag/search.c:83-107 | the walk goes from the tail and stops at the first region below `min_lcn` or on termination; the result is the highest region of at least `min_length` clusters, every region passed over is shorter, and `max_length` is the largest length among them |
| Search.FindLargestFreeRegion | trunk/src/dll/udefrag/search.c:160-180 | the result is the first region of maximal length; it is None iff the router stops the walk or no region is nonempty, so an empty list gives None |
| Search.BlocksCompare | trunk/src/dll/udefrag/search.c:197-209 | -1, 0 or 1 exactly when the first block's lcn is below, equal to or above the second's |
| Search.BlocksCompareOrder | trunk/src/dll/udefrag/search.c:197-209 | the comparison is antisymmetric, transitive and reflexive, so it orders the blocks tree |
| Search.Movable | trunk/src/dll/udefrag/search.c:426-430 | the movability test is can_move_entirely when partially movable files are skipped, else can_move; a movable file is movable by can_move, and the test only adds flags other than "not locked" |
| Search.ScanFiles | trunk/src/dll/udefrag/search.c:424-445 | one pass over every block of every movable file picks the nonempty block with the least `lcn >= min_lcn` below `total_clusters`, the first one met among equals, never the first block of a FAT directory |
| Search.ScanBlocks | trunk/src/dll/udefrag/search.c:432-442 | the block walk of one movable file keeps the least candidate met so far |
| Search.SmallestNext | trunk/src/dll/udefrag/search.c:425-445 | a file that is not movable, or whose blocks are all walked, leaves the choice as it was for the next file |
| Search.SmallestLeast | trunk/src/dll/udefrag/search.c:424-446 | after the last file, the choice so far is the least candidate of the whole list, or None |
| Search.SmallestStep | trunk/src/dll/udefrag/search.c:433-440 | a candidate below the current `lcn` replaces the choice; any other block leaves it |
| Search.UnlockedSame | trunk/src/dll/udefrag/search.c:426-430 | the movability tests leave the number of files not flagged locked as it was |
| Search.UnlockedLock | trunk/src/dll/udefrag/search.c:447 | a file newly found locked lowers the number of unlocked files by one |
| Search.FindFirstBlock | trunk/src/dll/udefrag/search.c:421-457 | the slow path returns the least movable candidate block of the last round, whose file is not locked, and sets `*min_lcn = lcn + 1`; with no candidate or on termination the file is None and `*min_lcn` is unchanged; rounds repeat only while files are found locked, so the loop ends |
| Search.LockTest | trunk/src/dll/udefrag/search.c:447 | a movable file found locked gets the locked flag it did not have; one found unlocked stays movable with the answer cached; its map stays |
| Search.Round | trunk/src/dll/udefrag/search.c:424-447 | one round: the least candidate block, then the lock test of its file; a locked file leaves fewer unlocked files |
| Search.Unlocked | trunk/src/dll/udefrag/search.c:426-430 | the number of files without UD_FILE_LOCKED |
| Fragments.Runs | src/dll/udefrag/defrag.c:193-212 | the block map cut where a block is not contiguous with the one before it: no more runs than blocks, none empty, at least one for a nonempty map |
| Fragments.RunsSnoc | src/dll/udefrag/defrag.c:199-209 | a block contiguous with the last one (`lcn == prev.lcn + prev.length`) extends the last run, any other block starts a run of its own |
| Fragments.RunsFlatten | src/dll/udefrag/defrag.c:193-212 | the runs put back together are the block map: nothing is lost or reordered |
| Fragments.RunsLast | src/dll/udefrag/defrag.c:211 | the last block of the last run is the last block of the map |
| Fragments.ExtendShape | src/dll/udefrag/defrag.c:199-200 | extending the last run with a contiguous block keeps every run contiguous and maximal |
| Fragments.NewRunShape | src/dll/udefrag/defrag.c:201-209 | starting a run at a block that breaks contiguity keeps every run contiguous and maximal |
| Fragments.RunsShape | src/dll/udefrag/defrag.c:193-212 | the runs are the maximal contiguous pieces of the map |
| Fragments.MergeSum | src/dll/udefrag/defrag.c:200-214 | the fragments emitted for the runs hold as many clusters as the runs |
| Fragments.MergeShape | src/dll/udefrag/defrag.c:202-214 | no more fragments than runs, and no fragment of length 0 |
| Fragments.FragmentsSpec | src/dll/udefrag/defrag.c:188-217 | the fragment lengths sum to the total of the block lengths, no fragment is empty, and there are no more fragments than blocks |
| Fragments.BuildFragmentsList | src/dll/udefrag/defrag.c:188-217 | the walk returns the fragment of each run of nonzero length, taking the run's first vcn and lcn and its total length, in order |
| Fragments.MergeSnoc | src/dll/udefrag/defrag.c:202-205 | closing a run emits its fragment exactly when its length is nonzero |
| Fragments.ProgressStart | src/dll/udefrag/defrag.c:194-197 | the first block starts the current run with its vcn, lcn and length |
| Fragments.ProgressJoin | src/dll/udefrag/defrag.c:199-200 | a contiguous block adds its length to the current run |
| Fragments.ProgressBreak | src/dll/udefrag/defrag.c:201-209 | a block that breaks the run emits the current run if nonempty and starts a new one |
| Fragments.ProgressDone | src/dll/udefrag/defrag.c:214 | emitting the last run, if nonempty, completes the fragment list |
| Fragments.CompletedPrefix | src/dll/udefrag/defrag.c:193-212 | what the walk has emitted so far is a prefix of the final fragment list |
| Fragments.Merge | src/dll/udefrag/defrag.c:202-214 | one fragment per run of nonzero length |
| Fragments.Fragments | src/dll/udefrag/defrag.c:188-217 | the file's blocks grouped into runs and merged into fragments |
| Defrag.CanDefragment | src/dll/udefrag/defrag.c:137-161 | a file can be defragmented iff can_move accepts it, it has more than one block, at least 2 fragments and is fragmented, it is not the MFT, not a FAT directory, and in an MFT optimization job it is flagged as fragmented by the file optimizer; a file can_move refuses keeps the flags can_move gave it |
| Defrag.CanDefragmentFlags | src/dll/udefrag/defrag.c:137-161 | the test only adds the improper-state flag of can_move and the MFT cache flags of is_mft, and changes nothing else |
| Defrag.DefragmentableIsMovable | src/dll/udefrag/defrag.c:139-153 | a file that can be defragmented is movable entirely |
| Defrag.RunPasses | src/dll/udefrag/defrag.c:277-290 | the pass loop ends within the bound on the passes |
| Defrag.RunPassesSpec | src/dll/udefrag/defrag.c:277-290 | every pass before the last one ran, did not fail and moved something; the loop stops on termination or on a pass that fails or moves nothing; it succeeded iff some pass that ran returned 0 |
| Defrag.RunLoop | src/dll/udefrag/defrag.c:277-290 | the loop returns 0 iff a pass returned 0, else -1, and stops at the pass RunPasses names |
| Defrag.DefragJob.constructor | src/dll/udefrag/defrag.c:241 | a job starts with the given threshold, not set by the algorithm, and zero counters |
| Defrag.DefragJob.Defragment | src/dll/udefrag/defrag.c:239-307 | a failing analysis is returned unchanged; otherwise the counters are reset, the passes run, the partial pass runs with `fragment_size_threshold = PART_DEFRAG_MAGIC_CONSTANT` and `algorithm_defined_fst = 1` and both are restored to 0 afterwards; the clusters processed are those the passes and the partial pass report; the result is 0 if any pass or the partial pass returned 0, always 0 when terminated, else -1 |
| Defrag.CutLength | src/dll/udefrag/defrag.c:544-547 | `cut_length` is the ceiling of `fragment_size_threshold / bytes_per_cluster` minus `length`: the fewest clusters that bring the run to the threshold, and at least 1 |
| Defrag.CeilAbove | src/dll/udefrag/defrag.c:543-547 | a run below the threshold is shorter than the threshold rounded up to clusters, so the subtraction does not wrap |
| Move.CanMove | src/dll/udefrag/move.c:54-91 | a file can be moved exactly when it has a path, is not moved to the front, not excluded, not locked or without a map, not of zero length, and neither in an improper state nor failed before; a zero-length file passing the early checks is marked UD_FILE_IMPROPER_STATE, no other flag changes |
| Move.CanMoveStable | src/dll/udefrag/move.c:54-91 | asking again about the file as can_move left it gives the same answer and changes nothing more |
| Move.CanMoveFlags | src/dll/udefrag/move.c:75-80 | a movable file is left untouched; at most UD_FILE_IMPROPER_STATE is added, and once it is set the file is not movable |
| Move.CanMoveEntirely | src/dll/udefrag/move.c:97-111 | a file can be moved entirely exactly when it can be moved, is not the MFT on NTFS and is not a directory on FAT |
| Move.EntirelyImpliesMovable | src/dll/udefrag/move.c:97-111 | what can be moved entirely can be moved |
| Move.FirstFrom | src/dll/udefrag/move.c:121-131 | from block `i` on, the first block holding the VCN, or none when no later block holds it |
| Move.FirstBlockOf | src/dll/udefrag/move.c:121-131 | the first block of the map holding the VCN; none exactly when no block holds it |
| Move.GetFirstBlockOfClusterChain | src/dll/udefrag/move.c:121-131 | the loop over the block map finds the first block holding the VCN |
| Move.Job.constructor | src/dll/udefrag/move.c:144-193 | a job starts with no requests, zero processed and moved clusters, an empty free space pool and zero statistics |
| Move.Job.MoveFileClusters | src/dll/udefrag/move.c:144-193 | every call issues one request; an accepted one returns 0 and adds its clusters to the moved clusters, a refused one returns -1 and adds nothing |
| Move.Job.MoveFileHelper | src/dll/udefrag/move.c:198-245 | all `length` clusters are counted as processed; the requests issued go to consecutive target clusters from `target`, stay inside one block each, ask for at most `clusters_at_once` clusters and no more than `length` in all; all but possibly the last were accepted, and the moved clusters grow by what the accepted ones asked for |
| Move.Job.MoveBlock | src/dll/udefrag/move.c:216-240 | one block of the map: its chunks are issued in turn and the bookkeeping is kept, or the walk stops at the first refused request |
| Move.Job.Chunk | src/dll/udefrag/move.c:219-226 | one chunk request; when accepted its clusters count as processed and the next target is right after it, when refused the walk stops |
| Move.DisposeBlock | src/dll/udefrag/move.c:327-345 | the number of clusters a block takes is the smaller of what is left of it from the current VCN and what is left to place, and nothing once nothing is left |
| Move.DisposeUnfold | src/dll/udefrag/move.c:319-357 | one turn of the loop over the remaining blocks: this block's new pieces, then the disposition of the rest from the next block on |
| Move.DisposeBlockSum | src/dll/udefrag/move.c:327-345 | splitting a block into a kept part and a moved part keeps its cluster count |
| Move.DisposeSum | src/dll/udefrag/move.c:319-357 | the new blocks from block `i` on hold as many clusters as the old ones |
| Move.SumFromSuffix | src/dll/udefrag/move.c:319-357 | the clusters from block `i` on are those of the map's suffix |
| Move.ConsecutiveAt | src/dll/udefrag/move.c:329-345 | in a run of consecutive pieces each piece starts right after all pieces before it |
| Move.DisposePieces | src/dll/udefrag/move.c:329-353 | the pieces placed at the target take the clusters `target, target + 1, ...` in VCN order |
| Move.DisposePiecesBound | src/dll/udefrag/move.c:327-353 | no more clusters are placed than the requested length |
| Move.PlacedSum | src/dll/udefrag/move.c:323-345 | a placement holds the clusters the block takes, none once nothing is left |
| Move.DisposePiecesInMap | src/dll/udefrag/move.c:329-345 | every piece placed at the target is a block of the new map |
| Move.DisposeNothingLeft | src/dll/udefrag/move.c:323-325 | once nothing is left to place, the remaining blocks are copied unchanged and nothing is placed |
| Move.DisposePlacesAll | src/dll/udefrag/move.c:319-357 | when the map has no VCN gaps and the chain ends inside it, exactly `length` clusters are placed |
| Move.DesiredKeepsClusters | src/dll/udefrag/move.c:290-371 | the calculated disposition keeps the file's cluster count, its new blocks hold as many clusters as the old ones, and its fragment count is its number of blocks |
| Move.DesiredOutside | src/dll/udefrag/move.c:303-308 | a chain starting outside the file gives an empty disposition with zero clusters and fragments |
| Move.CalculateFileDisposition | src/dll/udefrag/move.c:290-371 | the loops of calculate_file_disposition compute the disposition described blockwise: earlier blocks copied, the chain split off and placed at the target, later blocks copied |
| Move.DisposeChain | src/dll/udefrag/move.c:319-357 | the loop from the chain's first block on builds the new blocks of the disposition |
| Move.ChainStep | src/dll/udefrag/move.c:320-356 | one turn of that loop keeps the blocks built so far a prefix of the result, and it ends at the last block |
| Move.ChainNext | src/dll/udefrag/move.c:352-353 | advancing to the next block keeps the built blocks a prefix of the result |
| Move.DisposeStep | src/dll/udefrag/move.c:327-345 | the new pieces of one block and the clusters it takes, as described |
| Move.CompareFileDispositions | src/dll/udefrag/move.c:380-419 | -1 when a file is missing; otherwise 0 exactly when both files have the same fragments (same count, same VCN, LCN and length each) and 1 when they differ |
| Move.Validate | src/dll/udefrag/move.c:501-535 | a zero length or a file without clusters, fragments or map returns 0; a chain beyond the file's end, outside its blocks or onto a target that is not within the volume returns -1; the request goes on only when all checks pass |
| Move.Job.CheckRequest | src/dll/udefrag/move.c:501-535 | the checks in that order, and the first block of the chain when they pass |
| Move.DetermineOutcome | src/dll/udefrag/move.c:573-606 | without a new map the calculated one is used and the move counts as successful; otherwise success when the new map equals the calculated one, failure when it equals the old one, partial success else |
| Move.Refilter | src/dll/udefrag/move.c:626-634 | the file is excluded exactly when one of the fragment size, fragment count or size filters excludes its new disposition |
| Move.NewFlags | src/dll/udefrag/move.c:622-634 | UD_FILE_MOVING_FAILED is added after a partial move, UD_FILE_EXCLUDED is set exactly when the filters exclude the file, other flags stay |
| Move.Job.ReleasePiece | src/dll/udefrag/move.c:658-673 | one turn of the redraw loop: it frees the smaller of the rest of the block and the rest of the chain, and tells whether the loop ends |
| Move.Job.ReleaseFreed | src/dll/udefrag/move.c:654-675 | the free space pool gets every old place of the moved chain, block by block |
| Move.WalkLast | src/dll/udefrag/move.c:672 | the loop ends when nothing is left to free or the map ends |
| Move.WalkNext | src/dll/udefrag/move.c:672-673 | otherwise it goes on at the next block's VCN |
| Move.FreeAfterRelease | src/dll/udefrag/move.c:643-675 | the target is taken from the free space pool; the old places are given back only after a full or calculated move, and on NTFS only in a dry run |
| Move.Job.UpdateFreeSpace | src/dll/udefrag/move.c:643-675 | the free space pool after a move is that one |
| Move.Statistics.constructor | src/dll/udefrag/move.c:677-692 | the statistics start at zero fragmented files and zero fragments |
| Move.Statistics.Adjust | src/dll/udefrag/move.c:677-692 | the counters become those of the statistics formula |
| Move.AdjustStatistics | src/dll/udefrag/move.c:677-692 | the fragmented file count changes by whether the file counts now minus whether it counted before, and the fragment count by its new contribution minus its old one, where only fragmented, not excluded files count |
| Move.Job.Finish | src/dll/udefrag/move.c:618-715 | after a move that changed something the result, the free space pool and the statistics are those described |
| Move.Job.MoveOpened | src/dll/udefrag/move.c:557-715 | from the open file on: the move, the classification, and the result, free space and statistics of the description |
| Move.Job.MoveFile | src/dll/udefrag/move.c:462-716 | move_file returns the code and leaves the file, the free space pool and the statistics as described; a request that does not reach the move issues nothing, one that does counts all `length` clusters as processed and issues chained requests for at most `length` clusters |
| Move.MoveFileEarly | src/dll/udefrag/move.c:501-535 | a zero length or an empty file returns 0 and a bad range or target returns -1, each adding only UD_FILE_IMPROPER_STATE |
| Move.MoveFileOutcome | src/dll/udefrag/move.c:462-716 | the code is 0 or -1; an outcome exists exactly when the request went through and the file opened; then -1 means a failed or partial move and UD_FILE_MOVING_FAILED is set, while 0 leaves that flag as it was |
| Move.ColorKeepsMovingFailed | src/dll/udefrag/move.c:538 | computing the file's color does not touch UD_FILE_MOVING_FAILED |
| Move.FinishedSpec | src/dll/udefrag/move.c:618-715 | a move that changed something returns -1 exactly after a partial move and then sets UD_FILE_MOVING_FAILED |
| Move.MoveFileDisposition | src/dll/udefrag/move.c:608-703 | after a failed move the file keeps its disposition; otherwise it takes the new one and is excluded exactly when the filters exclude that one |
| Move.MoveFileCalculated | src/dll/udefrag/move.c:562-577 | in a dry run or without a new map the move is taken as successful and the file keeps its cluster count |
| Move.MoveFileTakesTarget | src/dll/udefrag/move.c:613-643 | when the old places are not given back, no target cluster is free afterwards and the pool stays sorted and disjoint |
| Move.FreedMatchesPlaced | src/dll/udefrag/move.c:654-675 | the old places freed have the lengths, in order, of the pieces placed at the target |
| Move.FreedNext | src/dll/udefrag/move.c:658-673 | freeing goes on at the next block while clusters are left |
| Move.FreedLast | src/dll/udefrag/move.c:672 | freeing ends with this block's piece |
| Move.PlacedNext | src/dll/udefrag/move.c:329-353 | the placed pieces go on at the next block while clusters are left |
| Move.PlacedLast | src/dll/udefrag/move.c:323-345 | the placed pieces end with this block's piece |
| Move.PassesEarlyChecks | src/dll/udefrag/move.c:54-80 | a file with a path, blocks and none of the moved-to-front, excluded or locked flags |
| Move.Dispose | src/dll/udefrag/move.c:319-357 | the new blocks of the file and the pieces placed at the target as the chain goes on |
| Move.Desired | src/dll/udefrag/move.c:290-371 | the file as calculate_file_disposition expects it: the blocks before the chain, then the moved ones, merged into fragments; no blocks when the chain is not found |
| Move.Classify | src/dll/udefrag/move.c:573-606 | without a reported map the move counts as successful; else success when the fragments are the expected ones, failure when unchanged, partial success otherwise |
| Move.NewInfo | src/dll/udefrag/move.c:608-634 | the expected disposition without a reported map, else the reported one |
| Move.MoveFileSpec | src/dll/udefrag/move.c:462-716 | a failed request check marks the file improper; a file that cannot be opened is marked locked with -1; otherwise the move and its aftermath |
| Move.FreeAfter | src/dll/udefrag/move.c:643-675 | the target leaves the free list on any move; the freed clusters come back only on success when not on live NTFS |
| Move.StatisticsAfter | src/dll/udefrag/move.c:677-692 | the counters change only when something was moved |
| Analyze.LookupFsName | src/dll/udefrag/analyze.c:167-177 | the upper-cased file system name is looked up in the table row by row; an unknown name gives FS_UNKNOWN and not FAT |
| Analyze.RowMeaning | src/dll/udefrag/analyze.c:51-60 | every row of the table is what its name looks up to (NTFS, FAT12, FAT and FAT16 as FAT16, FAT32, EXFAT, UDF) |
| Analyze.NoRow | src/dll/udefrag/analyze.c:171-181 | a name in no row gives FS_UNKNOWN and not FAT |
| Analyze.BytesAtOnce | src/dll/udefrag/analyze.c:90-105 | between 256 KB and 64 MB moved at once, 256 KB before Windows XP |
| Analyze.BytesAtOnceMonotone | src/dll/udefrag/analyze.c:90-103 | a larger device never moves fewer bytes at once |
| Analyze.ClustersAtOnce | src/dll/udefrag/analyze.c:106-108 | at least one cluster; otherwise the largest number of whole clusters within the bytes moved at once |
| Analyze.GetVolumeInformation | src/dll/udefrag/analyze.c:119-196 | -1 when the volume cannot be queried or has no clusters or no cluster size, UDEFRAG_DIRTY_VOLUME when it is dirty, and otherwise success with all clusters to process, the file system of the name lookup, the clusters moved at once and a fragment size threshold dropped when it is not above the cluster size |
| Analyze.CheckRegionClusters | src/dll/udefrag/analyze.c:238-245 | a region passes exactly when its start and every cluster in it lie on the volume |
| Analyze.ExcludeByFragmentSize | src/dll/udefrag/analyze.c:307-339 | a file is excluded exactly when a user threshold applies, it has a map and every fragment of it is at least the threshold |
| Analyze.ScanBlock | src/dll/udefrag/analyze.c:318-331 | one block of the loop: either a finished fragment below the threshold was found, which means not all fragments are large, or the fragments so far stay large |
| Analyze.SmallBefore | src/dll/udefrag/analyze.c:324-326 | a closed fragment below the threshold means not all fragments are large |
| Analyze.LastFragment | src/dll/udefrag/analyze.c:333-338 | after the loop, all fragments are large exactly when the last one is empty or at least the threshold |
| Analyze.SmallFragment | src/dll/udefrag/analyze.c:318-336 | any fragment of the file below the threshold means the file is not excluded |
| Analyze.ExcludeBySize | src/dll/udefrag/analyze.c:361-372 | a file is excluded exactly when its size in bytes exceeds the limit, and UD_FILE_OVER_LIMIT is set exactly then; nothing else changes |
| Analyze.IsFileLocked | src/dll/udefrag/analyze.c:651-677 | a file marked not locked is not locked, one marked locked is locked, and otherwise it is locked exactly when it does not open, which is then recorded in its flags |
| Analyze.IsFileLockedCached | src/dll/udefrag/analyze.c:658-661 | a second call answers from the recorded flag and changes nothing |
| Analyze.InsertPosition | src/dll/udefrag/analyze.c:760-771 | the new entry goes before the first entry with no more fragments, after all entries with more |
| Analyze.InsertPositionUnique | src/dll/udefrag/analyze.c:760-771 | that position is the only one with this property |
| Analyze.InsertKeepsSorted | src/dll/udefrag/analyze.c:753-779 | inserting there keeps the list sorted by descending fragment count |
| Analyze.FragmentedFiles.constructor | src/dll/udefrag/analyze.c:753-779 | the list of fragmented files starts empty |
| Analyze.FragmentedFiles.Expand | src/dll/udefrag/analyze.c:753-779 | an excluded file is not added; any other file is inserted at that position, the list gains exactly that entry, and a sorted list stays sorted |
| Analyze.FirstOf | src/dll/udefrag/analyze.c:788-794 | the index of the first entry for the file, or the length when there is none |
| Analyze.FirstOfUnique | src/dll/udefrag/analyze.c:788-794 | that index is the only one with this property |
| Analyze.FragmentedFiles.Truncate | src/dll/udefrag/analyze.c:784-795 | the first entry for the file is removed and nothing else; a list without one is unchanged; a sorted list stays sorted |
| Analyze.SizeClass | src/dll/udefrag/analyze.c:506-518 | the file size class is the one whose lower bound the size reaches and whose upper bound it stays below |
| Analyze.SizeClassUnique | src/dll/udefrag/analyze.c:506-518 | the class is the only one with this property |
| Analyze.Counters.constructor | src/dll/udefrag/analyze.c:497-519 | all file counters start at zero |
| Analyze.Counters.UpdateProgressCounters | src/dll/udefrag/analyze.c:497-519 | one more file, one more directory or compressed file when it is one, its clusters processed, and one more file in its size class |
| Analyze.FsByName | src/dll/udefrag/analyze.c:51-60 | the fs_types table: NTFS and UDF are not FAT; FAT12, FAT, FAT16, FAT32 and EXFAT are; FAT and FAT16 both mean FAT16; any other name is unknown and not FAT |
| Analyze.CheckRegion | src/dll/udefrag/analyze.c:238-245 | a range is on the volume when its first cluster exists and its end does not pass the last cluster, even for length 0 |
| Analyze.ExcludeByFragments | src/dll/udefrag/analyze.c:348-352 | a zero fragments limit excludes nothing; otherwise files with fewer fragments than the limit are excluded |
| Optimize.AdvanceVcn | src/dll/udefrag/optimize.c:98-127 | no advance returns the VCN itself; a VCN past every block returns 0; otherwise the result is the VCN `n` clusters further along the map, the start of the next block when the move ends a block, the end of the file when it ends the last one, and 0 when the map runs out first |
| Optimize.AdvanceInside | src/dll/udefrag/optimize.c:118-119 | an advance ending inside a block gives the current VCN plus what is left |
| Optimize.AdvanceToEnd | src/dll/udefrag/optimize.c:113-117 | an advance ending exactly at a block's end gives the next block's VCN, or the file's end at its last block |
| Optimize.AdvancePast | src/dll/udefrag/optimize.c:109-112 | an advance going past a block goes on at the next block with its clusters taken off, and gives 0 once the map ends |
| Optimize.OrderedPosition | src/dll/udefrag/optimize.c:107-108 | in an ordered map the blocks the loop skips are exactly those before the block holding the VCN |
| Optimize.WalkStep | src/dll/udefrag/optimize.c:107-123 | the clusters walked grow by the rest of the first block, then by each later block |
| Optimize.WalkRest | src/dll/udefrag/optimize.c:107-123 | the clusters walked to the end of the map are at least those walked so far |
| Optimize.LastOutsideRegion | src/dll/udefrag/optimize.c:72-81 | the free region chosen is the last nonempty one lying wholly outside the reserved range; none when there is no such region |
| Optimize.CleanupSpace | src/dll/udefrag/optimize.c:58-92 | every move takes clusters from the file's block to the end of the last free region outside the reserved range, at most the clusters left; 0 when all clusters were moved, -1 when no region remains before that, -2 exactly when a move failed, which is then the last one |
| Optimize.NextPortion | src/dll/udefrag/optimize.c:70-85 | one turn of the loop: the portion to move, or none when no free region lies outside the reserved range |
| Optimize.StepOutside | src/dll/udefrag/optimize.c:84-89 | each move goes on at the next VCN, takes at most the clusters left, lands outside the reserved range and ends where its free region ends |
| Optimize.CountClusters | src/dll/udefrag/optimize.c:818-838 | the clusters from `start_lcn` to the end of the volume less the free ones among the regions visited before the job was stopped |
| Optimize.FreeFromBound | src/dll/udefrag/optimize.c:827-834 | the free clusters counted never exceed the clusters of the volume from `start_lcn` on |
| Optimize.IsBlockQuiteSmall | src/dll/udefrag/optimize.c:578-615 | a block is sent away when the file is below the optimizer size limit, or when the file is fragmented and either no fragment size threshold is set or the block and the fragment holding its start are both below it |
| Optimize.NextStart | src/dll/udefrag/optimize.c:730-733 | the next file looked at lies between the given one and the end of the list |
| Optimize.NextStartSkips | src/dll/udefrag/optimize.c:730-733 | it is the first not fragmented file from there on; all files skipped are fragmented |
| Optimize.BelongsToGroup | src/dll/udefrag/optimize.c:746-774 | a file joins the group exactly when it is not fragmented, not before both preceding files, and no farther from the preceding one than the larger of 20 MB and the nearer file's size |
| Optimize.SkipFragmented | src/dll/udefrag/optimize.c:787-791 | the loop skipping fragmented files stops at the next start |
| Optimize.GroupSnoc | src/dll/udefrag/optimize.c:775-780 | a joining file extends the group by one |
| Optimize.TracksJoins | src/dll/udefrag/optimize.c:746-774 | the three tests on the remembered LCNs decide exactly the group condition on the files themselves |
| Optimize.Extend | src/dll/udefrag/optimize.c:775-781 | extending the group keeps the remembered LCNs and cluster count those of its last files |
| Optimize.Start | src/dll/udefrag/optimize.c:736-742 | a new group at a not fragmented file has that one file and its LCN remembered |
| Optimize.PartitionBounds | src/dll/udefrag/optimize.c:706-812 | the groups found so far end before the next file looked at |
| Optimize.PartitionSnoc | src/dll/udefrag/optimize.c:782-792 | closing a maximal group and moving to the next not fragmented file keeps the files split into maximal groups |
| Optimize.Optimizer.constructor | src/dll/udefrag/optimize.c:706-723 | the optimizer starts with the sorted files and no clusters already optimized |
| Optimize.Optimizer.CutOffGroupOfFiles | src/dll/udefrag/optimize.c:676-700 | a group below 20 MB and under 10 files is left alone; otherwise its files are marked moved to the front and their clusters counted as already optimized, nothing else changes |
| Optimize.Optimizer.CloseGroup | src/dll/udefrag/optimize.c:782-792 | closing a group marks it when it is large enough and goes on at the next not fragmented file, with the partition and the marks kept |
| Optimize.Optimizer.CutGroup | src/dll/udefrag/optimize.c:782-784 | a group of more than one file is cut off, others are not, and the marks stay those of the groups |
| Optimize.Optimizer.Visit | src/dll/udefrag/optimize.c:746-799 | one turn of the loop extends the group or closes it and starts the next, keeping the partition and the marks, and always gets further along the list |
| Optimize.Optimizer.CutOffSortedOutFiles | src/dll/udefrag/optimize.c:706-812 | the files are split into maximal groups of adjacent not fragmented files, and exactly the files of the groups that are cut off are marked, with their clusters counted |
| Optimize.RanResults | src/dll/udefrag/optimize.c:962-982 | the results of the optimizers that ran, in order: directories on FAT, MFT on NTFS, then the disk |
| Optimize.RanResultsSucceed | src/dll/udefrag/optimize.c:962-982 | 0 is among those results exactly when the directory optimizer on FAT, the MFT one on NTFS or the disk one returned 0 |
| Optimize.Job.Optimize | src/dll/udefrag/optimize.c:942-991 | the filters are reset before the analysis, which sets the operation to analysis; a failed analysis is returned; otherwise the operation is optimization, the result is 0 exactly when one optimizer that ran returned 0, else -1, the clusters processed are the directory and MFT counts that apply plus those the disk optimizer moves, and the clusters to process are twice the allocated ones counted by count_clusters, plus the directory and MFT counts where they apply, plus the defragmentation count |
| Optimize.Job.OptimizeMft | src/dll/udefrag/optimize.c:996-1023 | the analysis sets the operation to analysis and a failed one is returned; on a volume other than NTFS the result is 0 with one cluster to process and the optimization step set; on NTFS the optimization step is set and the result is the MFT optimizer's, with the MFT clusters and the defragmentation count to process |
| Optimize.InUseCount | src/dll/udefrag/optimize.c:818-838 | for a valid free list within the volume, the allocated clusters counted are between 0 and the volume's clusters |
| OptimizeTrunk.Largest | trunk/src/dll/udefrag/optimize.c:746-750 | the length of the largest free region, 0 for an empty list |
| OptimizeTrunk.RgnSizeThreshold | trunk/src/dll/udefrag/optimize.c:734-765 | at least 2 clusters; with at least 10% free space the smaller of 0.5% of the volume and half the largest free region, otherwise 0.5% of the volume |
| OptimizeTrunk.Job.CalculateFreeRgnSizeThreshold | trunk/src/dll/udefrag/optimize.c:734-765 | the job's threshold becomes that value and nothing else changes |
| OptimizeTrunk.FirstGap | trunk/src/dll/udefrag/optimize.c:789-797 | the first free region from the given one on that starts at or after (strictly after, for increase_starting_point) the point and is at least the threshold long; none before it is |
| OptimizeTrunk.FindGap | trunk/src/dll/udefrag/optimize.c:789-797 | the loop over the free regions finds that region |
| OptimizeTrunk.BSearchRange | trunk/src/dll/udefrag/optimize.c:806-814 | the halving search keeps the candidate point between the bounds it started with |
| OptimizeTrunk.Bisect | trunk/src/dll/udefrag/optimize.c:806-814 | the loop halving `lim` computes that search |
| OptimizeTrunk.SkipFrom | trunk/src/dll/udefrag/optimize.c:859-869 | the point is kept or moved forward to the start of a later free region |
| OptimizeTrunk.SkipUnmovable | trunk/src/dll/udefrag/optimize.c:859-869 | the loop skipping regions with no movable clusters between them computes that point |
| OptimizeTrunk.GapStart | trunk/src/dll/udefrag/optimize.c:788-797 | the first large gap is never before the old starting point |
| OptimizeTrunk.Unfragmented | trunk/src/dll/udefrag/optimize.c:800-815 | moving back over heavily fragmented data stays between the old point and the gap |
| OptimizeTrunk.Compact | trunk/src/dll/udefrag/optimize.c:817-832 | moving back over largely free space stays between the old point and the previous one |
| OptimizeTrunk.NoGapKeepsPoint | trunk/src/dll/udefrag/optimize.c:788-818 | without a large gap after the old starting point the point stays where it was |
| OptimizeTrunk.StartingPointOrder | trunk/src/dll/udefrag/optimize.c:776-870 | each stage only moves the point back, never past the old point; a stage that returns to the old point ends the computation there; and unless a movable fragmented file holds the point, the result is not before it |
| OptimizeTrunk.Job.CalculateStartingPoint | trunk/src/dll/udefrag/optimize.c:776-870 | the starting point computed from the free regions and the cluster counts |
| OptimizeTrunk.Job.IncreaseStartingPoint | trunk/src/dll/udefrag/optimize.c:876-900 | a NULL `sp` gives -1; otherwise 0 exactly when a large enough region starts strictly after the new starting point, the point then moves to the first such region, and -1 leaves it unchanged |
| OptimizeTrunk.CountOf | trunk/src/dll/udefrag/optimize.c:436-440 | a file counts either nothing or twice its clusters |
| OptimizeTrunk.OptCountBounds | trunk/src/dll/udefrag/optimize.c:428-444 | the count is at most twice the clusters of the files counted |
| OptimizeTrunk.OptCcRoutine | trunk/src/dll/udefrag/optimize.c:428-444 | the loop of opt_cc_routine computes the count of files below the size limit that can be moved entirely and are not excluded, and leaves each file below the limit that it reaches as its can_move_entirely call leaves it, every other file as it was |
| OptimizeTrunk.CcStop | trunk/src/dll/udefrag/optimize.c:433-435 | the walk ends at the first file at which the termination router answers yes, or at the end of the list |
| OptimizeTrunk.CcProbedFlags | trunk/src/dll/udefrag/optimize.c:434-438 | opt_cc_routine only ever adds UD_FILE_IMPROPER_STATE or the MFT cache flags to a file, and only to a file below the size limit that the walk reaches |
| OptimizeTrunk.ProbedStable | trunk/src/dll/udefrag/optimize.c:437-491 | asking can_move_entirely a second time, as optimize_routine does after opt_cc_routine, gives the same answer and records nothing more |
| OptimizeTrunk.CcEligible | trunk/src/dll/udefrag/optimize.c:428-498 | after the flags opt_cc_routine records, a file reaching the size limit still never enters the tree, and a file not marked before enters it exactly when it passes opt_cc_routine's counting test |
| OptimizeTrunk.OptCountStops | trunk/src/dll/udefrag/optimize.c:435 | once the job is stopped at a file, no file from there on is counted |
| OptimizeTrunk.SizeExcluded | trunk/src/dll/udefrag/optimize.c:467-475 | UD_FILE_CURRENTLY_EXCLUDED is set exactly when the file is not below the size limit, and no other flag changes |
| OptimizeTrunk.SizeExcludedIdempotent | trunk/src/dll/udefrag/optimize.c:467-475 | doing it twice is doing it once |
| OptimizeTrunk.Job.constructor | trunk/src/dll/udefrag/optimize.c:548-603 | a job starts with its files and options, zero counters and the operation VOLUME_ANALYSIS |
| OptimizeTrunk.Job.ExcludeBySizeLimit | trunk/src/dll/udefrag/optimize.c:467-475 | every file gets that flag and nothing else changes |
| OptimizeTrunk.Job.Optimize | trunk/src/dll/udefrag/optimize.c:548-603 | a failed analysis returns its code and changes nothing; otherwise the size limit defaults to 20 MB, the operation is VOLUME_OPTIMIZATION (optimize.c:460), no cluster is processed or moved (461), the clusters to process are those of opt_cc_routine, and the files as opt_cc_routine leaves them get the size exclusion followed, when the volume opens, by the tree walk of optimize_routine; the result is 0 exactly when the FAT directory or NTFS MFT pass (after Windows 2000) succeeded or the volume opened, -1 else; the state is the one the closing defragment(jp) starts from |
| OptimizeTrunk.Job.BuildAndMark | trunk/src/dll/udefrag/optimize.c:484-512 | on an open volume each file becomes its tree outcome: unchanged when the tree cannot be created, asked about up to a failed allocation, else marked when it has a node of its own |
| OptimizeTrunk.Job.ProbeAll | trunk/src/dll/udefrag/optimize.c:490-498 | the loop asks every file up to the first failed allocation, succeeds exactly when there is none, and puts into the tree exactly the offered files whose path ignoring case is new |
| OptimizeTrunk.Job.MarkTree | trunk/src/dll/udefrag/optimize.c:501-512 | after walking the tree every file with a node of its own, and no other, is marked UD_FILE_CURRENTLY_EXCLUDED |
| OptimizeTrunk.ProbeFailure | trunk/src/dll/udefrag/optimize.c:490-498 | the first file with a node of its own whose allocation fails, none before it, or the length of the list |
| OptimizeTrunk.TreeOutcome | trunk/src/dll/udefrag/optimize.c:484-512 | a file after the tree part: unchanged without a tree, asked about up to a failed allocation, marked when in the tree after a complete walk |
| OptimizeTrunk.ProbedFlags | trunk/src/dll/udefrag/optimize.c:491 | can_move_entirely only ever adds UD_FILE_IMPROPER_STATE or the MFT cache flags to a file |
| OptimizeTrunk.EligibleCounted | trunk/src/dll/udefrag/optimize.c:428-498 | a file reaching the size limit never enters the tree, and a file not marked before enters it exactly when opt_cc_routine counts it |
| OptimizeTrunk.TreeMarks | trunk/src/dll/udefrag/optimize.c:428-512 | after opt_cc_routine and optimize_routine a file is marked UD_FILE_CURRENTLY_EXCLUDED exactly when it reaches the size limit or, after a complete walk, has a node of its own in the tree |
| OptimizeTrunk.KeysNext | trunk/src/dll/udefrag/optimize.c:414-498 | the keys collected so far tell exactly whether a path repeats one already offered, and grow by the key of each file offered |
| OptimizeTrunk.Job.OptimizeMft | trunk/src/dll/udefrag/optimize.c:694-726 | a failed analysis returns its code; a volume that is not NTFS returns 0 with one cluster to process and the operation VOLUME_OPTIMIZATION; before Windows XP UDEFRAG_UNMOVABLE_MFT; otherwise UD_FILE_CURRENTLY_EXCLUDED is cleared on every file (optimize.c:364-368) and the result is that of the MFT pass, with the operation VOLUME_OPTIMIZATION (optimize.c:358), the MFT clusters to process and the clusters it reports processed and moved after the reset at 359; the state is the one the closing defragment(jp) starts from |
| OptimizeTrunk.BSearch | trunk/src/dll/udefrag/optimize.c:806-814 | the binary search walk: a probe where the test holds moves left, else right past it; the last probe is the answer |
| OptimizeTrunk.Crowded | trunk/src/dll/udefrag/optimize.c:806-814 | the test of the first search: more than 5% of the clusters up to the probe are fragmented |
| OptimizeTrunk.Loose | trunk/src/dll/udefrag/optimize.c:821-829 | the test of the second search: more than a third of the clusters from the probe to the limit are free |
| OptimizeTrunk.StartingPoint | trunk/src/dll/udefrag/optimize.c:776-870 | the old point when no gap or no earlier point is found, else the start of the file block holding the point when that block is movable, else the first movable point after |
| OptimizeTrunk.OptCount | trunk/src/dll/udefrag/optimize.c:428-444 | twice the clusters of the files counted, stopping at the first file where the router says stop |
| ClusterMap.CeilDiv | trunk/src/dll/udefrag/map.c:106-110 | the quotient rounded up: the least `q` with `q * b >= a` |
| ClusterMap.ComputeGeometry | trunk/src/dll/udefrag/map.c:100-124 | the opposite order is chosen exactly when there are fewer clusters than cells; in normal order a cell holds the clusters rounded up so that the map covers the volume, the last used cell holds between 1 and that many, and the rest of the cells are unused; in opposite order each cluster takes `map_size / total` cells |
| ClusterMap.UsedFits | trunk/src/dll/udefrag/map.c:110-115 | in normal order between 1 and `map_size` cells are used and the last one holds a nonzero share no larger than a full cell |
| ClusterMap.CellBelow | trunk/src/dll/udefrag/map.c:111-115 | a cluster of the volume lies in a used cell |
| ClusterMap.AllocateMap | trunk/src/dll/udefrag/map.c:61-132 | a zero map size allocates nothing and returns 0; a volume that cannot be queried or has no clusters gives -1; a failed allocation UDEFRAG_NO_MEM; otherwise the geometry of the volume |
| ClusterMap.Map.constructor | trunk/src/dll/udefrag/map.c:61-76 | a map starts out not allocated |
| ClusterMap.Map.Allocate | trunk/src/dll/udefrag/map.c:61-132 | returns 0 unless allocation fails with its code, and an allocated map holds the geometry and the reset counts |
| ClusterMap.Map.Reset | trunk/src/dll/udefrag/map.c:137-160 | every cell holds the reset count of each colour; a map never allocated is left alone |
| ClusterMap.ResetDefaultPrefix | trunk/src/dll/udefrag/map.c:149-150 | in normal order each used cell before the last holds a full cell of DEFAULT_COLOR |
| ClusterMap.ResetDefaultTail | trunk/src/dll/udefrag/map.c:152-153 | the unused cells hold nothing in DEFAULT_COLOR |
| ClusterMap.ResetCountsVolume | trunk/src/dll/udefrag/map.c:147-159 | after a reset the DEFAULT_COLOR counts add up to the volume's clusters, or to the cells they cover in opposite order |
| ClusterMap.OppositeDefaultPrefix | trunk/src/dll/udefrag/map.c:155-156 | in opposite order each used cell holds one DEFAULT_COLOR mark |
| ClusterMap.OverlapAt | trunk/src/dll/udefrag/map.c:199-207 | the clusters a cell takes from the region are the smaller of the rest and the space left in the cell after the offset |
| ClusterMap.OverlapBeforeAll | trunk/src/dll/udefrag/map.c:195 | cells before the region's first cell take nothing from it |
| ClusterMap.OverlapAfterAll | trunk/src/dll/udefrag/map.c:199 | cells after the region's end take nothing from it |
| ClusterMap.OverlapSumClip | trunk/src/dll/udefrag/map.c:194-218 | the clusters the first `k` cells take are those of the region below the start of cell `k` |
| ClusterMap.OverlapSumLength | trunk/src/dll/udefrag/map.c:194-218 | cells covering the region take exactly its length: no cluster is counted twice or lost |
| ClusterMap.Map.Colorize | trunk/src/dll/udefrag/map.c:167-230 | nothing changes when the map is not allocated, the region is off the volume or empty, a colour is out of range or the colours are equal; otherwise each cell gains its share of the region in the new colour and loses it, down to 0, in the old colour, which an MFT zone colour leaves alone |
| ClusterMap.Map.ColorizeNormal | trunk/src/dll/udefrag/map.c:194-219 | in normal order every cell gets that recolouring |
| ClusterMap.Map.WalkFullCells | trunk/src/dll/udefrag/map.c:195-209 | the loop recolours the cells before the last one and stops either with the region used up or at the last cell with the rest of the region |
| ClusterMap.Map.RecolorOverlap | trunk/src/dll/udefrag/map.c:200-206 | one cell is recoloured by its share of the region and no other cell changes |
| ClusterMap.Map.CellBound | trunk/src/dll/udefrag/map.c:196-197 | a region on the volume ends in a used cell |
| ClusterMap.Map.LastCellFits | trunk/src/dll/udefrag/map.c:210-217 | what is left for the last cell fits in it |
| ClusterMap.Map.RecolorCell | trunk/src/dll/udefrag/map.c:201-205 | the new colour gains `n`, the old colour loses `n` with a floor at 0 unless the new colour is the MFT zone, and nothing else changes |
| ClusterMap.Map.ColorizeOpposite | trunk/src/dll/udefrag/map.c:219-229 | in opposite order every cell of the region shows the new colour alone, or the new colour on top of the old ones for the MFT zone |
| ClusterMap.Map.PaintCell | trunk/src/dll/udefrag/map.c:222-228 | one cell gets a single mark in the new colour, its other colours cleared unless the new colour is the MFT zone |
| ClusterMap.OppositeSpan | trunk/src/dll/udefrag/map.c:220-221 | the cells of a region on the volume lie within the map |
| ClusterMap.IsMft | trunk/src/dll/udefrag/map.c:236-260 | false off NTFS; a cached answer is returned as it is; otherwise the file is the MFT exactly when its path is 11 characters long and its name contains `$mft` ignoring case, and the answer is cached in its flags |
| ClusterMap.IsMftCached | trunk/src/dll/udefrag/map.c:247-248 | asking again gives the same answer and changes nothing |
| ClusterMap.FileColorSpec | trunk/src/dll/udefrag/map.c:265-295 | the MFT shows MFT_SPACE; otherwise locked files show system space, fragmented not excluded ones fragmented space, then directories, compressed and other files, each in its over-limit variant exactly when the file is over the limit |
| ClusterMap.ResetCount | trunk/src/dll/udefrag/map.c:147-159 | what a reset cell holds: its clusters of DEFAULT_COLOR for used cells (the last one its own count), of UNUSED_MAP_SPACE for unused ones, 1 in the opposite order |
| ClusterMap.Recolored | trunk/src/dll/udefrag/map.c:194-229 | a count after colouring: the new colour gains the overlap and the old loses it, except when painting the MFT zone |
| ClusterMap.GetFileColor | trunk/src/dll/udefrag/map.c:265-295 | the colour by priority: MFT, locked, fragmented and not excluded, directory, compressed, plain; the over-limit variant when the file is over the limit |
| Udefrag.Choose | src/dll/udefrag/udefrag.c:250-258 | the scan over the colours keeps the largest count among the eligible colours, taking the later colour on a tie, so no eligible colour after the chosen one reaches its count |
| Udefrag.CellColorSpec | src/dll/udefrag/udefrag.c:232-264 | a cell full of MFT zone and of free space shows MFT_ZONE_SPACE; otherwise, with no clusters in an eligible colour, DEFAULT_COLOR; else the eligible colour with the most clusters, the last one on a tie, where free and MFT zone space do not compete inside the MFT zone |
| Udefrag.Row | src/dll/udefrag/udefrag.c:251-252 | the colour counts of one cell |
| Udefrag.PickColor | src/dll/udefrag/udefrag.c:248-258 | the loop over the colours of one cell computes that choice |
| Udefrag.RefillMap | src/dll/udefrag/udefrag.c:229-266 | when the map exists and has the expected size every cell gets its colour; otherwise the progress map is left alone |
| Udefrag.CompletionStatus | src/dll/udefrag/udefrag.c:370-373 | the completion status is never 0 (the job is done): the job's result, or 1 for success |
| Udefrag.StartJobOutcome | src/dll/udefrag/udefrag.c:519-523 | a negative status is returned as it is, success gives 0, and a status still 0 leaves the initial -1 |
| Udefrag.JobStatus.constructor | src/dll/udefrag/udefrag.c:410-507 | the job starts running, with a completion status of 0 |
| Udefrag.JobStatus.StartJob | src/dll/udefrag/udefrag.c:321-377 | the job routine for the job type runs (analysis, defragmentation, optimization, MFT optimization, or none) and its result becomes the nonzero completion status |
| Udefrag.JobStatus.Result | src/dll/udefrag/udefrag.c:519-523 | the result after a finished job is 0 or the negative completion status |
| Udefrag.UsesTimeLimitNoOverflow | src/dll/udefrag/udefrag.c:478-486 | the time limit is used exactly when it is set and its milliseconds fit in 64 bits |
| Udefrag.ErrorDescriptionKnown | src/dll/udefrag/udefrag.c:595-621 | exactly the eight listed error codes have a description; any other code, UDEFRAG_W2K_4KB_CLUSTERS among them, gets an empty one |
| Udefrag.Capacity | src/dll/udefrag/udefrag.c:235-241 | the clusters of a cell: 1 in the opposite order, the last cell's count for the last used cell, the cell count otherwise |
| Udefrag.CellColor | src/dll/udefrag/udefrag.c:232-264 | MFT_ZONE_SPACE when the MFT zone and free space both fill the cell, else the most frequent allowed colour, DEFAULT_COLOR when all counts are zero |
| Udefrag.JobResult | src/dll/udefrag/udefrag.c:346-362 | the routine the job type selects: analyze, defragment, optimize for both optimizations, optimize_mft |
| Udefrag.StartJobResult | src/dll/udefrag/udefrag.c:519-523 | a positive status gives 0, a negative one is returned, 0 gives -1 |
| Udefrag.UsesTimeLimit | src/dll/udefrag/udefrag.c:478-486 | the limit is applied only when it is nonzero and its milliseconds do not wrap in 64 bits |
| Udefrag.ErrorDescription | src/dll/udefrag/udefrag.c:595-621 | the text for each known error code, the empty string for others |
| Keyboard.ResetStart | src/dll/zenwinx/keyboard.c:145-148 | an out-of-range `start_index` is reset to 0, an in-range one kept |
| Keyboard.ResetCount | src/dll/zenwinx/keyboard.c:149-152 | an out-of-range `n_written` is reset to 0, an in-range one kept |
| Keyboard.Window | src/dll/zenwinx/keyboard.c:154-156 | the queued keys are the `n_written` slots from `start_index` on, wrapping around the ring |
| Keyboard.Pushed | src/dll/zenwinx/keyboard.c:154-163 | a push appends the key to the queue; on a full queue the oldest key is dropped |
| Keyboard.PushIndices | src/dll/zenwinx/keyboard.c:154-161 | the key is written at `start_index + n_written` modulo the ring size, and the indices stay in range |
| Keyboard.PushAsWrittenDiffers | src/dll/zenwinx/keyboard.c:158-159 | the push as written differs from the wrapped one exactly on a full queue starting at the last slot, where it leaves `start_index` equal to KB_QUEUE_LENGTH |
| Keyboard.PushedWindow | src/dll/zenwinx/keyboard.c:154-163 | writing the slot and moving the indices gives the queue with the key pushed |
| Keyboard.PoppedWindow | src/dll/zenwinx/keyboard.c:322-327 | moving `start_index` on by one, wrapping at the end, and counting one key less drops the first queued key |
| Keyboard.KeyboardState.constructor | src/dll/zenwinx/keyboard.c:53-58 | no keyboards, every slot of kb[] empty, and an empty queue |
| Keyboard.KeyboardState.Contents | src/dll/zenwinx/keyboard.c:56-58 | the queue holds `n_written` keys |
| Keyboard.KeyboardState.Push | src/dll/zenwinx/keyboard.c:144-163 | with the corrected guard of the Findings row (a full queue wraps start_index): the reset of out-of-range indices, then the key pushed onto the queue; the ring and indices change as described and nothing else does |
| Keyboard.KeyboardState.Pop | src/dll/zenwinx/keyboard.c:322-331 | an empty queue gives nothing and stays as it is; otherwise the first key is returned and removed |
| Keyboard.PollingFinds | src/dll/zenwinx/keyboard.c:310-343 | a key found while polling is one that arrived during an attempt that was made |
| Keyboard.KeyboardState.Read | src/dll/zenwinx/keyboard.c:296-345 | 0 exactly when a key is returned, -1 otherwise; the key is the first queued one, or the first to arrive before the attempts run out or the time is up; no more than `msec_timeout / MAX_TYPING_DELAY + 1` polls |
| Keyboard.FirstFree | src/dll/zenwinx/keyboard.c:415-416 | the first empty slot of kb[], none exactly when all slots are taken |
| Keyboard.FirstFreeAt | src/dll/zenwinx/keyboard.c:415-416 | an empty slot with all slots before it taken is that slot |
| Keyboard.KeyboardState.AddKeyboard | src/dll/zenwinx/keyboard.c:414-427 | the device goes into the first empty slot and one more keyboard is counted, returning 0; a full array returns -1 and changes nothing; the queue is not touched |
| Keyboard.ToInt | src/dll/zenwinx/keyboard.c:728 | a DWORD read as a C `int`: the 32-bit two's complement value |
| Keyboard.DevCountMax | src/dll/zenwinx/keyboard.c:662-735 | the count is the largest of the default and every Count value read |
| Keyboard.QueryDevCount | src/dll/zenwinx/keyboard.c:662-735 | the loop over the Enum keys computes that count, skipping keys that cannot be read |
| Keyboard.KeyboardCountBounds | src/dll/zenwinx/keyboard.c:743-762 | the keyboard count is never below the class count, goes above it only on Windows XP, when HID keyboards are found and not more class keyboards, or when none are found and the class counts one, and then covers the HID count |
| Keyboard.PushIndicesAsWritten | src/dll/zenwinx/keyboard.c:154-161 | the new index and counters of kbhit as written, where a full queue advances start_index without wrapping it |
| Keyboard.Polling | src/dll/zenwinx/keyboard.c:310-343 | the polling of kb_read: no key when the attempts run out or the time is up, else the first key that arrives |
| Keyboard.ReadOutcome | src/dll/zenwinx/keyboard.c:296-345 | no key without keyboards, the first queued key when there is one, else `msec_timeout / MAX_TYPING_DELAY + 1` attempts of polling |
| Keyboard.DevCount | src/dll/zenwinx/keyboard.c:662-735 | the default value, replaced by each Count value read that is larger |
| Keyboard.KeyboardCount | src/dll/zenwinx/keyboard.c:743-762 | on Windows XP the HID count is added when the class count does not exceed it, and a lone keyboard counts as two; other versions take the class count |
| KeyboardTrunk.RunningCountIsMax | trunk/src/dll/zenwinx/keyboard.c:507-595 | the default survives only when no Count value is read; otherwise the count is the largest of 0 and the values read |
| KeyboardTrunk.ClassCountOfZero | trunk/src/dll/zenwinx/keyboard.c:581-588 | a single Count of 0 gives 0 here, where the earlier version keeps its default of 1 |
| KeyboardTrunk.QueryCount | trunk/src/dll/zenwinx/keyboard.c:507-595 | the loop computes that count: the default when nothing is read, otherwise at least 0 and every value read |
| KeyboardTrunk.RunningCount | trunk/src/dll/zenwinx/keyboard.c:507-595 | kbdCount and old_kbdCount after each read: a value read replaces kbdCount unless old_kbdCount is larger |
| BootExCtrl.CrlfRemoved | src/bootexctrl/bootexctrl.c:67-77 | the text keeps its length |
| BootExCtrl.CrlfRemovedSpec | src/bootexctrl/bootexctrl.c:67-77 | up to the first NUL every CR and LF becomes a space and every other character stays; from the NUL on nothing changes, so no CR or LF is left before it |
| BootExCtrl.FirstNul | src/bootexctrl/bootexctrl.c:72-75 | the index where remove_crlf's walk stops: no NUL before it, and it is a NUL or the end of the text |
| BootExCtrl.RemoveCrlf | src/bootexctrl/bootexctrl.c:67-77 | a NULL string is left alone; otherwise the buffer afterwards is the old text with CR and LF replaced by spaces up to its terminating NUL |
| BootExCtrl.Terminated | src/bootexctrl/bootexctrl.c:231-232 | the value read gets two NULs in its last two characters and keeps every other character |
| BootExCtrl.RegisterOnEmptyPair | src/bootexctrl/bootexctrl.c:222-244 | as written, the empty value "\0\0" slips past the `size < 2` guard and the command is written after an empty string, so the value's readers see an empty first string before it |
| BootExCtrl.RegisterValue | src/bootexctrl/bootexctrl.c:222-244 | the corrected value: an empty value of two NULs is treated like a missing one and gets the command alone; every other value is handled as register_cmd does |
| BootExCtrl.RegisterAppends | src/bootexctrl/bootexctrl.c:222-244 | nothing is written exactly when a string already in a non-empty value is the command; otherwise the value written is a well-terminated multi-string whose strings are the old ones followed by the command |
| BootExCtrl.RegisterIdempotent | src/bootexctrl/bootexctrl.c:234-241 | registering a command a second time finds it and writes nothing |
| BootExCtrl.UnregisterKeeps | src/bootexctrl/bootexctrl.c:305-339 | the value written holds exactly the strings of the old value that do not match the command, in order, so none of them matches it |
| BootExCtrl.StringsOfJoin | src/bootexctrl/bootexctrl.c:242-244 | strings laid end to end with a NUL after each, plus the closing NUL, read back as the same strings |
| BootExCtrl.JoinEndsWithNul | src/bootexctrl/bootexctrl.c:328-339 | the strings copied into the new value end with a NUL |
| BootExCtrl.RegisterCmd | src/bootexctrl/bootexctrl.c:181-262 | with the corrected guard of the Findings row (RegisterValue): the exit code and the value saved are those of the register outcome: 3 when the key cannot be opened, 4 when the value's size cannot be queried, 5 when memory runs out, 6 when the value cannot be read, 7 when the new value cannot be saved, and 0 otherwise, with nothing saved when the command is already there |
| BootExCtrl.UnregisterCmd | src/bootexctrl/bootexctrl.c:264-358 | the exit code and the value saved are those of the unregister outcome, with the same error codes as registration |
| BootExCtrl.Step | src/bootexctrl/bootexctrl.c:375-397 | one argument stops the parse exactly when it is not a switch and is longer than MAX_PATH |
| BootExCtrl.FirstCommand | src/bootexctrl/bootexctrl.c:375-397 | the command taken is the default or one of the arguments |
| BootExCtrl.ScanFails | src/bootexctrl/bootexctrl.c:375-397 | the argument walk fails exactly when some non-switch argument is too long |
| BootExCtrl.ScanSpec | src/bootexctrl/bootexctrl.c:375-397 | after a successful walk each flag is set exactly when its switch (/r, /u, /h or /?, /s) occurs among the arguments, and the command is the first non-switch argument |
| BootExCtrl.HelpDecision | src/bootexctrl/bootexctrl.c:360-407 | parsing reports a too-long command exactly when an argument is too long; otherwise /s counts when it occurs anywhere in the command line, and help is shown exactly when asked for, when no command is given, or when neither /r nor /u is |
| BootExCtrl.ParseCmdline | src/bootexctrl/bootexctrl.c:360-407 | the method's result is the parse outcome, a missing argument vector included |
| BootExCtrl.RunWrites | src/bootexctrl/bootexctrl.c:409-434 | with the corrected guard of the Findings row: the registry is written only by an administrator who gave a command, no help switch and /r or /u, and then exactly as registration (for /r) or unregistration does |
| BootExCtrl.RegisterValueAsWritten | src/bootexctrl/bootexctrl.c:222-244 | the value register_cmd writes, with the guard as written: the command and two NULs for a value of fewer than two characters, nothing when a string of the value is the command, else the command appended after the last string |
| BootExCtrl.UnregisterValue | src/bootexctrl/bootexctrl.c:305-339 | the value unregister_cmd writes: nothing for a value of fewer than two characters, else the strings other than the command, in order, each with its NUL, then one more NUL |
| BootExCtrl.RegisterOutcome | src/bootexctrl/bootexctrl.c:181-262 | with the corrected guard of the Findings row (RegisterValue), the exit codes of register_cmd in the order of its checks: 3 (key not opened), 4 (size not queried), 5 (no memory), 6 (value not read), 7 (value not saved), else 0 |
| BootExCtrl.UnregisterOutcome | src/bootexctrl/bootexctrl.c:264-358 | the same exit codes for unregister_cmd, with the value unregister_cmd builds |
| BootExCtrl.IsSwitch | src/bootexctrl/bootexctrl.c:375-386 | the arguments the loop takes as switches: /r, /u, /h, /? and /s |
| BootExCtrl.ParseOutcome | src/bootexctrl/bootexctrl.c:360-407 | exit 1 when CommandLineToArgvW fails, exit 2 for a command longer than MAX_PATH, else the flags with help set when there is no command or neither /r nor /u |
| BootExCtrl.Run | src/bootexctrl/bootexctrl.c:409-434 | WinMain, with the corrected guard of the Findings row in register_cmd: help gives 0, a user without administrative rights gets 1, otherwise register_cmd with /r and unregister_cmd without it |
| MultiSz.NulFrom | src/bootexctrl/bootexctrl.c:236-237 | strlen from an index: the first NUL at or after it, with no NUL in between |
| MultiSz.NulFromAtMost | src/bootexctrl/bootexctrl.c:236-237 | the first NUL comes no later than any NUL at or after the index |
| MultiSz.NulFromAgree | src/bootexctrl/bootexctrl.c:236-237 | two buffers that agree up to the first NUL give the same string length |
| MultiSz.NulAfter | src/bootexctrl/bootexctrl.c:236-237 | a string without NUL followed by a NUL is measured as its own length |
| MultiSz.Entries | src/bootexctrl/bootexctrl.c:234-241 | the strings the walk visits below a limit; none of them holds a NUL |
| MultiSz.EntriesStep | src/bootexctrl/bootexctrl.c:234-241 | one step of the walk moves the string at the index from the strings to come to the strings walked |
| MultiSz.EntriesUnfold | src/bootexctrl/bootexctrl.c:234-241 | below the limit the walk visits the string at the index and continues after its NUL |
| MultiSz.WalkEnd | src/bootexctrl/bootexctrl.c:234-242 | the index at which the walk stops: the start when it is past the limit, otherwise at or past the limit |
| MultiSz.WalkEndExact | src/bootexctrl/bootexctrl.c:231-242 | on a value ended by two NULs the walk stops exactly at the last character, where the command is then copied |
| MultiSz.EntriesAgree | src/bootexctrl/bootexctrl.c:234-244 | a longer buffer that starts with a value ended by two NULs visits the value's strings and then its own |
| MultiSz.EntriesSplit | src/bootexctrl/bootexctrl.c:234-241 | the walk to a limit is the walk to an earlier limit followed by the walk from where that one stopped |
| MultiSz.EntriesPrefix | src/bootexctrl/bootexctrl.c:234-241 | a buffer that extends a value ended by two NULs visits the same strings below the value's limit |
| MultiSz.WalkPrefix | src/bootexctrl/bootexctrl.c:234-241 | such a buffer also stops the walk where the value does |
| MultiSz.EntriesAppend | src/bootexctrl/bootexctrl.c:242-244 | copying the command and two NULs over the last NUL of a value ended by two NULs adds the command as the last string and keeps the others |
| MultiSz.EntriesLast | src/bootexctrl/bootexctrl.c:242-244 | a command followed by two NULs is walked as that one string |
| MultiSz.JoinCons | src/bootexctrl/bootexctrl.c:328-339 | strings copied one after another, each with its NUL, are the first string, its NUL and the copy of the rest |
| MultiSz.EntriesOfJoin | src/bootexctrl/bootexctrl.c:328-340 | strings copied with a NUL after each and a closing NUL are walked as the same strings |
| MultiSz.EntriesHead | src/bootexctrl/bootexctrl.c:234-241 | a NUL-ended string at the index below the limit is the first string visited |
| MultiSz.CmdCompareCases | src/bootexctrl/bootexctrl.c:159-179 | cmd_compare is positive exactly when the entry is the command or "autocheck " and the command ignoring case (the latter only when that string can be allocated), negative exactly when the allocation fails and the plain forms differ, and a command always matches itself |
| MultiSz.Kept | src/bootexctrl/bootexctrl.c:328-339 | the strings copied by unregister_cmd are at most as many as the old ones, each one of them and none matching the command |
| MultiSz.KeptExactly | src/bootexctrl/bootexctrl.c:328-339 | every old string that does not match the command is copied, and no copied string matches it |
| MultiSz.KeptSnoc | src/bootexctrl/bootexctrl.c:331-336 | a further string is copied, with its NUL, exactly when it does not match the command |
| MultiSz.NextString | src/bootexctrl/bootexctrl.c:234-241 | one step of the walk returns the string at the index and the index after its NUL, and the walk's strings and end are kept |
| MultiSz.FindCmd | src/bootexctrl/bootexctrl.c:234-241 | the walk finds the command exactly when some string of the value matches it; when it does not, it stops where the command is to be copied |
| MultiSz.CopyOthers | src/bootexctrl/bootexctrl.c:328-339 | the copy holds exactly the strings that do not match the command, in order, each with its NUL |
| MultiSz.CmdCompare | src/bootexctrl/bootexctrl.c:159-179 | 1 when the strings match ignoring case, -1 when the buffer for the "autocheck " form cannot be had, 1 when that form matches, 0 otherwise |
| ZenwinxReg.Padded | src/dll/zenwinx/reg.c:220-255 | the buffer read_boot_exec_value returns: the value followed by zeros for the command's length plus one, so it ends with a NUL |
| ZenwinxReg.LastIndex | src/dll/zenwinx/reg.c:82 | `(DataLength >> 1) - 1` as a DWORD: the last index of a non-empty value, and 0xFFFFFFFF for an empty one |
| ZenwinxReg.RegisterEditCorrected | src/dll/zenwinx/reg.c:81-95 | the corrected register edit: an empty value gets the command alone; any other value is edited as written |
| ZenwinxReg.UnregisterEditCorrected | src/dll/zenwinx/reg.c:143-168 | the corrected unregister edit: an empty value is left with no strings; any other value is edited as written |
| ZenwinxReg.WrongTypeFails | src/dll/zenwinx/reg.c:74-79 | both routines return -1 and write nothing when the value is not REG_MULTI_SZ |
| ZenwinxReg.EntriesExtend | src/dll/zenwinx/reg.c:83-91 | the zero-padded buffer is walked like the value it holds, to a limit inside the value |
| ZenwinxReg.RegisterLikeBootExCtrl | src/dll/zenwinx/reg.c:81-95 | on a value ended by two NULs the register edit stays inside the buffer and writes nothing or exactly what bootexctrl's register_cmd writes |
| ZenwinxReg.UnregisterLikeBootExCtrl | src/dll/zenwinx/reg.c:143-168 | on a value ended by two NULs the unregister edit writes exactly what bootexctrl's unregister_cmd writes |
| ZenwinxReg.JoinEntries | src/dll/zenwinx/reg.c:158-167 | the walked strings with their NULs take exactly the characters the walk passes over |
| ZenwinxReg.KeptShorter | src/dll/zenwinx/reg.c:156-168 | the strings copied into new_value take no more room than the strings walked |
| ZenwinxReg.EmptyValueOverflows | src/dll/zenwinx/reg.c:82-91 | as written, an empty value makes either walk run past its buffer for any non-empty command |
| ZenwinxReg.EmptyValueCorrected | src/dll/zenwinx/reg.c:82-95 | corrected, registering into an empty value writes the command as its only string, and unregistering leaves a value with no strings |
| ZenwinxReg.RegisterBootExecCommand | src/dll/zenwinx/reg.c:57-107 | the method's outcome is winx_register_boot_exec_command's, and the size written is where the walk stopped plus the command and its two NULs |
| ZenwinxReg.AppendCommand | src/dll/zenwinx/reg.c:81-95 | the walk and the copy give the register edit, with the written length as above |
| ZenwinxReg.UnregisterBootExecCommand | src/dll/zenwinx/reg.c:116-182 | the method's outcome is winx_unregister_boot_exec_command's |
| ZenwinxReg.CopyOthersInto | src/dll/zenwinx/reg.c:143-168 | copying the other strings into a new_value of `(length + 1) << 1` bytes gives the unregister edit, a copy past the buffer included |
| ZenwinxReg.RegisterEdit | src/dll/zenwinx/reg.c:81-95 | the edit of winx_register_boot_exec_command as written: no change when the command is there, an access past the buffer for an empty value or no room, else the command after the last string and two NULs |
| ZenwinxReg.UnregisterEdit | src/dll/zenwinx/reg.c:143-168 | the edit of winx_unregister_boot_exec_command: an access past the buffer for an empty value or a result as long as the value, else the other strings and a NUL |
| ZenwinxReg.RegisterOutcome | src/dll/zenwinx/reg.c:57-107 | -1 when the key or value cannot be had or the type is wrong, else the edit: 0 without a write, the result of the write otherwise |
| ZenwinxReg.UnregisterOutcome | src/dll/zenwinx/reg.c:116-182 | -1 when the key or value cannot be had, the type is wrong or memory runs out, else the edit as for registration |
| Dbg.DecorationBalanced | src/dll/zenwinx/dbg.c:365-384 | a header that fits has at least one decoration character on its left and as many or one more on its right |
| Dbg.PrintHeader | src/dll/zenwinx/dbg.c:347-394 | a missing string prints nothing; a NUL character and a width of zero or less take the defaults '-' and 64; a string longer than the width minus four, or a buffer that cannot be allocated, prints the string alone; otherwise the line printed is the decorated header |
| Dbg.Decorate | src/dll/zenwinx/dbg.c:375-384 | the line has the width's length, is filled with the decoration character and holds a space, the string and a space starting at `(width - length - 2) / 2` |
| Dbg.DescriptionsDistinct | src/dll/zenwinx/dbg.c:403-437 | the table lists each status once, each with a non-empty description |
| Dbg.GetErrorDescription | src/dll/zenwinx/dbg.c:455-464 | the description listed for the status, or the empty string for a status the table does not list |
| Dbg.WithoutNewline | src/dll/zenwinx/dbg.c:220-225 | one trailing newline is dropped, and only a trailing newline |
| Dbg.ClassifySpec | src/dll/zenwinx/dbg.c:227-239 | after the newline is dropped, the message is taken as an NT status message exactly when the first ": $NS" in it is at its very end, as a last error message exactly when that is not so and the first ": $LE" is at its end, and the ending found is removed |
| Dbg.EndsAtFirst | src/dll/zenwinx/dbg.c:228-235 | the first occurrence of a five-character ending sits five characters before the end exactly when the message ends with it and has no earlier occurrence |
| Dbg.NewlineHidesEnding | src/dll/zenwinx/dbg.c:221-229 | as written, "x: $NS\n" is printed as a plain message with its ": $NS" left in, because the length is measured before the newline is removed; the corrected classification sees the NT status ending |
| Dbg.ClassifyAsWrittenAgrees | src/dll/zenwinx/dbg.c:221-239 | as written, a message without a trailing newline is classified as intended, and one with a trailing newline is always plain |
| Dbg.Extended | src/dll/zenwinx/dbg.c:250-274 | the extended message starts with the message and ": 0x", and the debugger's copy ends with a newline |
| Dbg.StripEnding | src/dll/zenwinx/dbg.c:220-239 | removing the newline and then the ending gives the corrected classification of the Findings row, with the length taken again after the newline (see "## Left out") |
| Dbg.DbgPrint | src/dll/zenwinx/dbg.c:195-300 | nothing is logged or shown for a message that cannot be formatted; otherwise what is logged and what the debugger gets are the print outcome, built on the corrected classification of the Findings row, and the log always receives the stripped message, extended or not |
| Dbg.NonEmpty | src/dll/zenwinx/dbg.c:551-569 | the entries written to the file are at most as many as collected, all non-empty and all collected |
| Dbg.NonEmptyKeepsAll | src/dll/zenwinx/dbg.c:551-569 | every non-empty collected entry is written |
| Dbg.DbgLog.constructor | src/dll/zenwinx/dbg.c:37-53 | logging starts off, with no log path and no entries |
| Dbg.DbgLog.AddEntry | src/dll/zenwinx/dbg.c:97-124 | the message is appended to the entries only while logging is on and its copy can be allocated; nothing else changes |
| Dbg.DbgLog.Flush | src/dll/zenwinx/dbg.c:493-578 | the entries are always taken out of the list; they are saved, with the empty ones skipped, only when there were some, the log path is set and non-empty and the file opens |
| Dbg.DbgLog.Enable | src/dll/zenwinx/dbg.c:596-636 | logging is on exactly for a non-empty path; the path is kept when logging is on and its copy is allocated; a path that differs from the old one flushes the old entries first, and the same path leaves them alone; while logging is on, the entries then gain the "log_path = <path>" message and, when the copy of the path fails, the out-of-memory message, each as winx_dbg_print logs it |
| Dbg.DbgLog.LogNewPath | src/dll/zenwinx/dbg.c:624-631 | the entries gain the "log_path" message and, without memory for the path, the out-of-memory message, when their allocations succeed; the path and the logging flag stay |
| Dbg.ClassifyAsWritten | src/dll/zenwinx/dbg.c:220-239 | the ending looked for five characters before the end of the string with its newline, as written |
| Dbg.Classify | src/dll/zenwinx/dbg.c:220-239 | the ending looked for five characters before the end of the string without its newline: NT status, last error, or a plain message |
| Dbg.PrintOutcome | src/dll/zenwinx/dbg.c:195-300 | on the corrected classification of the Findings row: the log entry is the message with its ending replaced by the code and description when memory suffices, else the message; the debugger gets the ANSI form, or the message and a newline, only when one is attached and memory suffices |
| WgxConfig.OptionTable.constructor | trunk/src/dll/wgx/config.c:65-77 | the table holds the rows given, up to the row with the NULL name |
| WgxConfig.Truncated | trunk/src/dll/wgx/config.c:83-86 | strncpy into a buffer of n characters followed by a NUL in its last place: a prefix of the string, the whole string when it is shorter than n, else its first n - 1 characters |
| WgxConfig.WithDefault | trunk/src/dll/wgx/config.c:77-88 | an integer option takes its default value, a string option its default truncated to its buffer, and empty lines and comments are kept; the kind of the row never changes |
| WgxConfig.WithGlobal | trunk/src/dll/wgx/config.c:118-135 | an option that the script defines takes the global's integer, or its string truncated to the buffer, or the empty string when the global is no string; every other row is kept |
| WgxConfig.GetOptions | trunk/src/dll/wgx/config.c:65-152 | FALSE for a missing table, and also when the script cannot be run; otherwise TRUE; every row first takes its default, then, when a path is given and its script runs, the globals it defines; the number of rows is kept |
| WgxConfig.Unescaped | trunk/src/dll/wgx/config.c:34-46 | the character a Lua escape letter stands for is one the table escapes with that letter |
| WgxConfig.EsqIsLuaEscapes | trunk/src/dll/wgx/config.c:34-46 | the table lists exactly the characters with a Lua escape letter, each once, each replaced by a backslash and its letter |
| WgxConfig.EscapedChar | trunk/src/dll/wgx/config.c:213-227 | a character in the table is written as its escape sequence, every other one as itself |
| WgxConfig.Escaped | trunk/src/dll/wgx/config.c:212-227 | the quoted text is at least as long as the string |
| WgxConfig.EscapedSnoc | trunk/src/dll/wgx/config.c:213-227 | the characters are escaped one after another |
| WgxConfig.EscapeSequence | trunk/src/dll/wgx/config.c:216-220 | the table's walk finds a sequence exactly for the characters that have a Lua escape letter, and the sequence is their escape |
| WgxConfig.EscapeString | trunk/src/dll/wgx/config.c:212-227 | the text written for a string value is the escaped string |
| WgxConfig.ReadEscaped | trunk/src/dll/wgx/config.c:208-229 | a Lua reader of a quoted string gives back the original string from its escaped form and the closing quote, and stops right after the quote |
| WgxConfig.ReadEscapedChar | trunk/src/dll/wgx/config.c:213-227 | reading one escaped character in front of a quoted tail gives that character in front of the tail's string |
| WgxConfig.Line | trunk/src/dll/wgx/config.c:195-230 | an empty line, "-- name", "name = value" with the integer in decimal, or "name = " and the escaped string in double quotes, each ended by a newline |
| WgxConfig.StringLineReadsBack | trunk/src/dll/wgx/config.c:208-229 | the line written for a string option reads back, after "name = \"", as the option's value followed by the newline |
| WgxConfig.WriteLine | trunk/src/dll/wgx/config.c:195-230 | the method writes the line of the option |
| WgxConfig.SaveOptions | trunk/src/dll/wgx/config.c:165-251 | the "WgxSaveOptions: invalid parameter" message exactly when the path or the table is missing; "Cannot open <path> file: <error>" (or the fixed no-memory message) when the file does not open; otherwise the file's text is the lines of the rows |
| WgxConfig.EscapeLetter | trunk/src/dll/wgx/config.c:213-227 | the letter after the backslash for each character that needs an escape in a Lua string |
| WgxConfig.Text | trunk/src/dll/wgx/config.c:165-251 | the file is the lines of the options in order |
| UpgradeSrc.LowerNoUpper | src/wxgui/upgrade.cpp:99 | _strlwr leaves a string without upper-case letters unchanged |
| UpgradeSrc.RenderNoUpper | src/wxgui/upgrade.cpp:99 | a version written out as "mj.mn.rev" with an optional " alphaN", " betaN" or " rcN" has no upper-case letter |
| UpgradeSrc.TaggedScan | src/wxgui/upgrade.cpp:104-112 | `"%u.%u.%u <tag>%u"` on a string that starts with "mj.mn.rev" assigns the three numbers and then what the tag part reads |
| UpgradeSrc.TaggedHit | src/wxgui/upgrade.cpp:104-112 | "mj.mn.rev <tag>N" assigns all four numbers |
| UpgradeSrc.TaggedMiss | src/wxgui/upgrade.cpp:104-112 | when the tag does not follow the numbers exactly three values are assigned, so that format is not taken |
| UpgradeSrc.RenderParts | src/wxgui/upgrade.cpp:99-116 | a written version is its numbers followed by its stage suffix, and lower-casing leaves it unchanged |
| UpgradeSrc.ParseHit | src/wxgui/upgrade.cpp:104-114 | when a tagged format assigns four values, the result is the code of the numbers with the tag's offset (100, 200 or 300) added to the last one |
| UpgradeSrc.ParseMiss | src/wxgui/upgrade.cpp:104-116 | when a tagged format does not assign four values, the next format is tried |
| UpgradeSrc.ParsePlain | src/wxgui/upgrade.cpp:116-118 | when only `%u.%u.%u` is left and it assigns three values, the unstable part is 999 |
| UpgradeSrc.RenderScans | src/wxgui/upgrade.cpp:104-116 | on a written version each format assigns all its values exactly for its own stage, and the formats tried before it assign only three |
| UpgradeSrc.BetaScans | src/wxgui/upgrade.cpp:104-110 | on a beta version the alpha format assigns three values and the beta format four |
| UpgradeSrc.RcScans | src/wxgui/upgrade.cpp:104-114 | on a release candidate the alpha and beta formats assign three values and the rc format four |
| UpgradeSrc.FinalScans | src/wxgui/upgrade.cpp:104-118 | on a stable version each of the three tagged formats assigns three values and `%u.%u.%u` all three numbers |
| UpgradeSrc.BlankThen | src/wxgui/upgrade.cpp:104 | one space before a character that is not white space is all a white-space directive skips |
| UpgradeSrc.ParseRendered | src/wxgui/upgrade.cpp:94-131 | parsing a written version whose numbers fit gives its encoding `mj * 10000000 + mn * 100000 + rev * 1000 + uv` |
| UpgradeSrc.ParseOfScans | src/wxgui/upgrade.cpp:104-130 | when the formats assign what a version's stage calls for, the parse gives that version's encoding |
| UpgradeSrc.ParseAfterAlpha | src/wxgui/upgrade.cpp:108-130 | the same from the beta format on, for a version that is no alpha |
| UpgradeSrc.ParseAfterBeta | src/wxgui/upgrade.cpp:112-130 | the same from the rc format on, for a release candidate or a stable version |
| UpgradeSrc.ParseFails | src/wxgui/upgrade.cpp:96-122 | the result is 0 when the copy cannot be allocated or the string does not start with three numbers |
| UpgradeSrc.ParseShort | src/wxgui/upgrade.cpp:104-122 | a string that does not start with "mj.mn.rev" parses as 0 whatever formats remain |
| UpgradeSrc.ParseIgnoresCase | src/wxgui/upgrade.cpp:99 | upper-casing a version string does not change its parse |
| UpgradeSrc.CodeOrder | src/wxgui/upgrade.cpp:129-130 | for release-style numbers the encoding orders versions exactly as major, minor, revision and then alpha < beta < rc < stable do, and it is one-to-one |
| UpgradeSrc.StageOrder | src/wxgui/upgrade.cpp:104-118 | stage values lie between 100 and 999 and order the stages alpha, beta, rc, stable, by number within a stage |
| UpgradeSrc.FiveOutranksRc10 | src/wxgui/upgrade.cpp:129-130 | "5.0.0" parses to a larger number than "4.99.99 rc10" |
| UpgradeSrc.OfferedIffNewer | src/wxgui/upgrade.cpp:62-76 | for release-style versions the upgrade dialog is posted exactly when the published version is newer than the running one |
| UpgradeSrc.OfferedCodes | src/wxgui/upgrade.cpp:72-76 | the same on encodings: nonzero codes with the published one larger exactly when it is newer |
| UpgradeSrc.CompareVersions | src/wxgui/upgrade.cpp:60-76 | the dialog is posted, with the trimmed first line, exactly as the offer rule says: both codes nonzero and the published one larger |
| UpgradeSrc.ItemOffset | src/wxgui/upgrade.cpp:144-147 | the level of the Stable item is UPGRADE_STABLE and that of the All item UPGRADE_ALL |
| UpgradeSrc.UpgradeThread.constructor | trunk/src/wxgui/main.h:354-356 | the thread starts with the level given and a check pending |
| UpgradeSrc.UpgradeThread.Poll | src/wxgui/upgrade.cpp:54-83 | a pending check at a nonzero level downloads version.ini for UPGRADE_ALL and stable-version.ini otherwise, clears the pending flag and makes the offer; otherwise nothing happens; the level is kept |
| UpgradeSrc.UpgradeThread.OnHelpUpdate | src/wxgui/upgrade.cpp:137-152 | None disables the checks, Stable and All set their level and fall through to a check now, and Check only asks for a check |
| UpgradeSrc.ParseVersionString | src/wxgui/upgrade.cpp:94-131 | 0 without memory for the lower-cased copy, else the version code of the first tag that scans |
| UpgradeSrc.Code | src/wxgui/upgrade.cpp:129-130 | the version code `mj*10000000 + mn*100000 + rev*1000 + uv` in 32-bit arithmetic |
| UpgradeSrc.Offered | src/wxgui/upgrade.cpp:72-76 | the dialog is shown only when both codes parse (nonzero) and the last one is larger |
| UpgradeSrc.Offer | src/wxgui/upgrade.cpp:54-83 | the trimmed first line is offered exactly when its code and the title's beat the check |
| UpgradeTrunk.Stored | trunk/src/wxgui/upgrade.cpp:55-62 | after swscanf each of the three variables holds its scanned value, or its earlier content when the scan stopped before it |
| UpgradeTrunk.CodeOrder | trunk/src/wxgui/upgrade.cpp:68-70 | for minor and revision numbers below 100, `mj * 10000 + mn * 100 + rev` orders versions exactly by their numbers and is equal exactly for equal numbers |
| UpgradeTrunk.TitleParts | trunk/src/wxgui/upgrade.cpp:59-62 | the title is "UltraDefrag", a space, the numbers and the stage suffix |
| UpgradeTrunk.TitleScan | trunk/src/wxgui/upgrade.cpp:62 | `"UltraDefrag %u.%u.%u"` reads the three numbers of the title |
| UpgradeTrunk.LastOfRendered | trunk/src/wxgui/upgrade.cpp:52-70 | the code of a published version that fits is that of its numbers, whatever the variables held before |
| UpgradeTrunk.CurrentOfTitle | trunk/src/wxgui/upgrade.cpp:59-69 | the same for the running version read from the title |
| UpgradeTrunk.FiveOutranks | trunk/src/wxgui/upgrade.cpp:68-71 | "5.0.0" gets a larger code than "UltraDefrag 4.99.99" |
| UpgradeTrunk.ProductPlain | trunk/src/wxgui/upgrade.cpp:64-66 | "UltraDefrag" has no white space, digit or dot in it |
| UpgradeTrunk.Absent | trunk/src/wxgui/upgrade.cpp:64-66 | a text without one of a pattern's characters does not contain the pattern |
| UpgradeTrunk.Found | trunk/src/wxgui/upgrade.cpp:64-66 | a lower-case pattern found in a text is also found in the text lower-cased |
| UpgradeTrunk.FinalStable | trunk/src/wxgui/upgrade.cpp:63-66 | the title of a stable version is not taken as unstable |
| UpgradeTrunk.NumbersChar | trunk/src/wxgui/upgrade.cpp:64-66 | "mj.mn.rev" consists of digits and dots |
| UpgradeTrunk.TaggedUnstable | trunk/src/wxgui/upgrade.cpp:63-66 | the title of an alpha, beta or rc version is taken as unstable |
| UpgradeTrunk.TagAt | trunk/src/wxgui/upgrade.cpp:64-66 | a title with " alpha", " beta" or " rc" in it is taken as unstable |
| UpgradeTrunk.UnstableIffTagged | trunk/src/wxgui/upgrade.cpp:63-66 | a title is taken as unstable exactly when its version is not a stable one |
| UpgradeTrunk.UnstableIgnoresCase | trunk/src/wxgui/upgrade.cpp:64-66 | upper-casing the title does not change whether it is taken as unstable |
| UpgradeTrunk.UpgradeIff | trunk/src/wxgui/upgrade.cpp:52-74 | the upgrade is offered exactly when the published numbers are higher, or equal while the running version is unstable |
| UpgradeTrunk.CompareVersions | trunk/src/wxgui/upgrade.cpp:50-78 | the dialog is posted, with the trimmed first line, exactly as the offer rule says |
| UpgradeTrunk.UpgradeThread.constructor | trunk/src/wxgui/main.h:354-356 | the thread starts with the level given and a check pending |
| UpgradeTrunk.UpgradeThread.Poll | trunk/src/wxgui/upgrade.cpp:47-85 | a pending check at a positive level downloads version.ini, clears the pending flag and makes the offer; otherwise nothing happens; the level is kept |
| UpgradeTrunk.UpgradeThread.OnHelpUpdate | trunk/src/wxgui/upgrade.cpp:95-106 | None, Stable and All only set their level, and Check only asks for a check |
| UpgradeTrunk.VersionCode | trunk/src/wxgui/upgrade.cpp:68-69 | the version code `mj*10000 + mn*100 + rev` in 32-bit arithmetic |
| UpgradeTrunk.LastCode | trunk/src/wxgui/upgrade.cpp:55-57 | the code of the numbers swscanf stores from the trimmed line; unset numbers keep their previous values |
| UpgradeTrunk.CurrentCode | trunk/src/wxgui/upgrade.cpp:59-62 | the code of the numbers swscanf stores from "UltraDefrag %u.%u.%u" in the title |
| UpgradeTrunk.Unstable | trunk/src/wxgui/upgrade.cpp:63-66 | the lower-cased title contains alpha, beta or rc |
| UpgradeTrunk.Upgrade | trunk/src/wxgui/upgrade.cpp:70-71 | the last version is larger, or equal while the current one is unstable |
| UpgradeTrunk.Offer | trunk/src/wxgui/upgrade.cpp:47-85 | the trimmed first line is offered exactly when it is an upgrade over the title |
| Redirector.Split | trunk/doc/html/Scripts/redirector.js:36-38 | String.prototype.split always gives at least one piece |
| Redirector.JoinSplit | trunk/doc/html/Scripts/redirector.js:36-38 | the pieces joined with the separator give the string back |
| Redirector.SplitPieces | trunk/doc/html/Scripts/redirector.js:36-38 | no piece contains the separator |
| Redirector.SplitFront | trunk/doc/html/Scripts/redirector.js:36-38 | a front part without the separator's first character, followed by the separator, is the first piece |
| Redirector.SplitWhole | trunk/doc/html/Scripts/redirector.js:36-38 | a string without the separator's first character is a single piece |
| Redirector.HexValue | trunk/doc/html/Scripts/redirector.js:40 | a hexadecimal digit of an escape has a value below 16 |
| Redirector.HexNumberBound | trunk/doc/html/Scripts/redirector.js:40 | n hexadecimal digits give a value below 16^n |
| Redirector.Pow16 | trunk/doc/html/Scripts/redirector.js:40 | the powers of 16 are positive |
| Redirector.Unescape | trunk/doc/html/Scripts/redirector.js:40 | unescape never makes a string longer |
| Redirector.UnescapePlain | trunk/doc/html/Scripts/redirector.js:40 | unescape leaves a string without % unchanged |
| Redirector.CookieFirst | trunk/doc/html/Scripts/redirector.js:34-43 | the first pair whose name is the one asked for gives its unescaped value, "undefined" when the pair has no = |
| Redirector.CookieAbsent | trunk/doc/html/Scripts/redirector.js:34-43 | get_cookie gives null when no pair has the name |
| Redirector.ValueBetween | trunk/doc/html/Scripts/redirector.js:38-40 | in a pair "name=v=w" the name is the part before the first = and the value the part up to the second |
| Redirector.GetCookieOf | trunk/doc/html/Scripts/redirector.js:34-43 | the method's loop gives the value of the first pair with the name, or null |
| Redirector.Preferred | trunk/doc/html/Scripts/redirector.js:54 | navigator.language when it is a non-empty string, otherwise navigator.systemLanguage |
| Redirector.LanguagePrefix | trunk/doc/html/Scripts/redirector.js:55 | the first two characters of the code, or all of a shorter one, lower-cased |
| Redirector.CookieUnchecked | trunk/doc/html/Scripts/redirector.js:50-53 | a language stored in the cookie is taken as it is, even when no translation exists for it |
| Redirector.CookielessListed | trunk/doc/html/Scripts/redirector.js:53-66 | without a cookie the language chosen is one of the translations |
| Redirector.BrowserCodeChooses | trunk/doc/html/Scripts/redirector.js:53-61 | without a cookie, a browser language code starting with a listed language in any case chooses that language |
| Redirector.FailsIff | trunk/doc/html/Scripts/redirector.js:50-66 | the script stops with a TypeError exactly when there is no cookie, no navigator.language and no navigator.systemLanguage |
| Redirector.FindTranslation | trunk/doc/html/Scripts/redirector.js:56-61 | the loop finds the language exactly when it is listed among the translations |
| Redirector.SavedCookie | trunk/doc/html/Scripts/redirector.js:69 | the cookie saved is "language=<lang>; path=/" |
| Redirector.SavedCookieReadsBack | trunk/doc/html/Scripts/redirector.js:50-69 | a language saved in the cookie is read back on the next visit as the same language |
| Redirector.ListedReadBack | trunk/doc/html/Scripts/redirector.js:23-69 | every listed translation reads back from its cookie |
| Redirector.LastIndexOf | trunk/doc/html/Scripts/redirector.js:29 | the last index of the character, -1 exactly when it does not occur |
| Redirector.RootOfHref | trunk/doc/html/Scripts/redirector.js:29 | the root is the address before its last /, the rest being the page without a /; it is empty when there is no / |
| Redirector.TargetInFolder | trunk/doc/html/Scripts/redirector.js:70 | the target is the page inside the language's folder under the root |
| Redirector.Page.constructor | trunk/doc/html/Scripts/redirector.js:28-29 | the page starts with no target language, the root of its address and its own address |
| Redirector.Page.Redirect | trunk/doc/html/Scripts/redirector.js:48-72 | when a language is chosen it becomes the target, is saved in the cookie and the page goes to its folder; when the script fails with a TypeError, the target language keeps what get_cookie returned and neither the cookie nor the address changes |
| Redirector.CookieIn | trunk/doc/html/Scripts/redirector.js:34-43 | the unescaped value of the first pair with the name, None when there is none |
| Redirector.GetCookie | trunk/doc/html/Scripts/redirector.js:34-43 | the cookie string split at "; " and searched for the name |
| Redirector.Truthy | trunk/doc/html/Scripts/redirector.js:50-53 | the cookie counts only when it is defined and not empty |
| Redirector.Choose | trunk/doc/html/Scripts/redirector.js:50-66 | a cookie wins; without one the browser language (or system language) picks a listed translation by its prefix, the default language otherwise, and a TypeError when neither is defined |
| Redirector.Root | trunk/doc/html/Scripts/redirector.js:29 | the page's address up to its last slash |
| Redirector.Target | trunk/doc/html/Scripts/redirector.js:70 | the address redirected to: root, language folder, page |
| Scanf.Literals | src/wxgui/upgrade.cpp:104 | the literal text of a format is one directive per character, each matching that character |
| Scanf.SkipBlanks | src/wxgui/upgrade.cpp:104 | a white-space directive skips to the first character that is not white space, or to the end |
| Scanf.DigitsEnd | src/wxgui/upgrade.cpp:104 | a `%u` conversion reads up to the first character that is not a digit, or to the end |
| Scanf.DigitsValueShift | src/wxgui/upgrade.cpp:104 | the value of digits read inside a longer string is the value of the same digits on their own |
| Scanf.DigitsOfNat | src/wxgui/upgrade.cpp:104 | a number written in decimal consists of digits and reads back as the same number |
| Scanf.ScanUnsigned | src/wxgui/upgrade.cpp:104 | a successful `%u` consumes at least one character and stops at the end or before a non-digit |
| Scanf.Scan | src/wxgui/upgrade.cpp:104-116 | a scan that matches the whole format stops inside the string |
| Scanf.Assigned | src/wxgui/upgrade.cpp:104-117 | the return value of sscanf is the number of conversions that were assigned |
| Scanf.ScanCount | src/wxgui/upgrade.cpp:104-117 | no more values are assigned than the format has conversions, and all of them when the whole format matches |
| Scanf.ScanAppend | src/wxgui/upgrade.cpp:104-116 | scanning a format made of two parts scans the first part and, when it matches, goes on with the second from where it stopped |
| Scanf.UnsignedAt | src/wxgui/upgrade.cpp:104 | a decimal number below 2^31 followed by a non-digit or the end is read by `%u` as that number |
| Scanf.DigitsEndAt | src/wxgui/upgrade.cpp:104 | a run of digits followed by a non-digit or the end is read to exactly its end |
| Scanf.LiteralsAt | src/wxgui/upgrade.cpp:104 | literal text that is in the string matches and assigns nothing |
| Scanf.LiteralMismatch | src/wxgui/upgrade.cpp:104-112 | literal text whose first character is not in the string fails at once and assigns nothing |
| Scanf.UnsignedStep | src/wxgui/upgrade.cpp:104 | a `%u` that reads a number puts it first among the values and goes on after it |
| Scanf.LiteralStep | src/wxgui/upgrade.cpp:104 | a literal character that matches is passed over |
| Scanf.Numbers | src/wxgui/upgrade.cpp:104-116 | `%u<sep>%u<sep>%u` has five directives with the separator between the conversions |
| Scanf.NumberThen | src/wxgui/upgrade.cpp:104 | a decimal number in front of the rest of a format is read and the scan goes on after it |
| Scanf.DotNumber | src/wxgui/upgrade.cpp:104 | a separator followed by a decimal number is passed over and the number read |
| Scanf.NumbersScan | src/wxgui/upgrade.cpp:104-116 | three decimal numbers joined by a separator that is no digit are read as those three numbers, ending after the third |
| Scanf.NumbersText | src/wxgui/upgrade.cpp:104-116 | "mj.mn.rev" begins and ends with a digit |
| Scanf.NumbersAt | src/wxgui/upgrade.cpp:116 | "mj.mn.rev" followed by a non-digit or the end is read by `%u.%u.%u` as the three numbers |
| Scanf.NumbersPieces | src/wxgui/upgrade.cpp:116 | "mj.mn.rev" in a string has the three numbers at their places, with dots between them |
| Scanf.BlankStep | src/wxgui/upgrade.cpp:104 | a white-space directive goes on after the white space |
| Scanf.TagAt | src/wxgui/upgrade.cpp:104-112 | " <tag>N" is read by ` <tag>%u` as N, to the end of the string |
| Scanf.TagPieces | src/wxgui/upgrade.cpp:104-112 | " <tag>N" at an index has the space, the tag and the number at their places |
| Scanf.TagScan | src/wxgui/upgrade.cpp:104-112 | a space, the tag and a number up to the end are read as that number |
| Scanf.LiteralsThen | src/wxgui/upgrade.cpp:104 | literal text that is in the string is passed over before the rest of the format |
| Scanf.LastNumber | src/wxgui/upgrade.cpp:104-116 | a number that ends the string is read by a last `%u` |
| Scanf.TagMismatch | src/wxgui/upgrade.cpp:104-112 | when the first character after the white space is not the tag's first, ` <tag>%u` assigns nothing and fails |
| Scanf.TrimLeft | src/wxgui/upgrade.cpp:63 | Trim(false) removes exactly the leading white space |
| Scanf.TrimRight | src/wxgui/upgrade.cpp:63 | Trim(true) removes exactly the trailing white space |
| Scanf.Trim | src/wxgui/upgrade.cpp:63 | the trimmed line neither starts nor ends with white space |
| Scanf.TrimKeepsMiddle | src/wxgui/upgrade.cpp:63 | the trimmed line is a slice of the line with only white space before and after it |
| Types.Lower | src/bootexctrl/bootexctrl.c:165 | ASCII lowering: an upper-case letter goes to its lower-case letter, every other character stays |
| Types.LowerStr | src/wxgui/upgrade.cpp:99 | _strlwr lowers every character in place and keeps the length |
| Types.Upper | src/bootexctrl/bootexctrl.c:165 | ASCII raising: a lower-case letter goes to its upper-case letter, every other character stays |
| Types.UpperStr | src/bootexctrl/bootexctrl.c:165 | every character raised, the length kept |
| Types.FirstIndexFrom | src/dll/zenwinx/dbg.c:228 | the first place at or after the index where the pattern starts, or -1 when there is none |
| Types.FirstIndex | src/dll/zenwinx/dbg.c:228 | strstr: -1 exactly when the pattern does not occur, else its first occurrence |
| Types.NatToString | trunk/src/dll/wgx/config.c:204 | a number in decimal is a non-empty run of digits |
| Types.IntToString | trunk/src/dll/wgx/config.c:204 | `%i` writes at least one character |
| Types.HexDigit | src/dll/zenwinx/dbg.c:250-256 | a hexadecimal digit of `%x` is a decimal digit or a lower-case letter a to f |
| Types.NatToHex | src/dll/zenwinx/dbg.c:250-256 | `%x` writes at least one digit |
| Types.Int32 | src/wxgui/upgrade.cpp:106-130 | 32-bit two's complement wrap-around: the result lies in the int range, differs from the value by a multiple of 2^32 and is the value itself when it fits |
| Types.FsCode | trunk/src/dll/udefrag/udefrag-internals.h:157-165 | the file_system_type constants number FS_UNKNOWN 0 to FS_UDF 6 |
| Types.EqualsIgnoreCase | src/bootexctrl/bootexctrl.c:165 | two strings are equal when their lower-case forms are |

## Left out

- Regions.ScanBitmap: the bitmap is one `seq<bool>`. The model does not cover: reading it in portions of 8*4096 bits with FSCTL_GET_VOLUME_BITMAP; the callback that can stop the scan early; allocation failures; the error handling that WINX_GVR_ALLOW_PARTIAL_SCAN changes.
- Regions.AddRegion: the branches of winx_add_volume_region for a predecessor at the list tail whose next is the head are not modelled separately. On any list they cannot be reached: every region before the stopping point starts at or below the new lcn.
- Search: the fast path of `find_first_block`, which walks the `prb_*` block tree, is not modelled. That library's code is not shown. The tree appears only through its order, `blocks_compare`, and its add and remove calls are not modelled.
- Move.MoveFile: the NULL file and job argument path is not modelled. The following are inputs of the model: FSCTL_MOVE_FILE (the `accepted` oracle), opening the file, and the map `winx_ftw_dump_file` reports.
- Move.MoveFile: map redraws, the block tree, the update of the fragmented files list and the timing counters are not modelled. A NULL path is taken as the empty string.
- ClusterMap: `colorize_file` and `free_map` are not modelled. They are not among the operations described here.
- Memory allocation failures are inputs wherever the source reports them (`allocOk`). Elsewhere the model assumes allocation succeeds.
- Optimize: the orchestration routines (`optimize_routine`, `move_files_to_front`, `move_files_to_back`, the body of `optimize_file`) are sequences of disk moves. Only their arithmetic and result rules are modelled.
- Optimize: OPTIMIZER_MAGIC_CONSTANT_2 is not defined in any file shown. It is taken as 10, the "at least 10 files" of its comment.
- Optimize: UDEFRAG_UNMOVABLE_MFT has no visible value. It is a result constructor of its own.
- Types: the bit values of UD_FILE_MFT_FILE and UD_FILE_NOT_MFT_FILE are not shown. File flags are a set of named flags.
- Dbg.DESCRIPTIONS: the NT status codes are named constants carrying the values the Windows Driver Kit's ntstatus.h documents. ntstatus.h is not part of this model.
- Udefrag: several parts run concurrently or use floating point and are not modelled: the thread of `start_job`, the progress polling loop of `udefrag_start_job`, and the percentages of `deliver_progress_info`.
- UpgradeSrc and UpgradeTrunk: not modelled are the polling loop, `Sleep`, `m_stop`, downloading the version file, file I/O, logging and char/wide conversion. One poll is a method whose inputs are the downloaded text and the program title.
- UpgradeSrc and UpgradeTrunk: the values of ID_HelpUpdateNone, ID_HelpUpdateStable and ID_HelpUpdateAll are not shown. They are assumed consecutive, in that order.
- UpgradeSrc: src/wxgui/main.h is not part of this model. The thread's fields follow trunk/src/wxgui/main.h.
- Scanf: `%u` of a number beyond 32 bits wraps modulo 2^32. The EOF (-1) result of `sscanf` on an input failure before the first conversion is given as 0. The callers only compare the result with 3 or 4, so either value fails.
- UpgradeTrunk: locals left unset by a failed `swscanf` are parameters of the model.
- Redirector: the browser cookie store is the value `document.cookie` returns. Writing it is the string assigned to it.
- Redirector: lowercasing covers ASCII letters only.
- Redirector.Unescape: a `%uXXXX` whose code is half of a surrogate pair is kept undecoded, because a Dafny `char` cannot hold it.
- Redirector: `location.replace` versus assigning `location` is not modelled; both navigate to the target. The global loop variable `i` is not modelled.
- Dbg: these are not modelled: the spin locks, timestamps, `winx_vsprintf` formatting, the message tables of kernel32.dll and ntdll.dll, the byte order mark and line endings of the log file, and `MessageBox`.
- Dbg: DEFAULT_DBG_PRINT_DECORATION_CHAR and DEFAULT_DBG_PRINT_HEADER_WIDTH come from zenwinx.h, which is not part of this model. They are taken as '-' and 64.
- WgxConfig.GetOptions: running the configuration script with `luaL_dofile` is not modelled. The globals it defines are a parameter.
- WgxConfig.SaveOptions: write failures of `fprintf` (the "Cannot write to" report) are not modelled.
- ZenwinxReg: a value is a sequence of wide characters, so its DataLength is twice its length. A value with an odd byte count is not modelled.
- Keyboard: the reader threads, their events and all concurrency are not modelled. Pushes and pops run one after the other. Keys pushed while `kb_read` sleeps are given as a schedule.
- KeyboardTrunk: the trunk's push and pop match those of src/dll/zenwinx/keyboard.c line for line, so they are modelled once, in Keyboard. So is its `query_keyboard_count` formula, which is Keyboard.KeyboardCount.
- Defrag.DefragJob.Defragment: the counters are those the passes report through `move_file` (move.c:223, 234, 244); the passes are parameters, so how each pass arrives at its count is not modelled.
- OptimizeTrunk.Job.Optimize: the closing `defragment(jp)` (trunk optimize.c:602) is not modelled; the counters stated are the state it starts from. The results of the FAT directory and MFT passes are parameters, and their own effects on the files (moves, the MFT cache flags of is_mft) are not modelled; the UD_FILE_CURRENTLY_EXCLUDED flags they set are all overwritten by the size exclusion. Whether the tree can be created and which node allocations fail are parameters.
- OptimizeTrunk.Job.OptimizeMft: the closing `defragment(jp)` (trunk optimize.c:723) is not modelled; the counters stated are the state it starts from. The search for $MFT (trunk optimize.c:377-384) is not modelled, so the MFT cache flags is_mft records there are not set; the MFT pass's result and counts are parameters.
- Optimize.Job.Optimize: the closing `defragment(jp)` (optimize.c:989) is not modelled; the counters stated are the state it starts from. The results and processed clusters of `optimize_directories`, `optimize_mft_routine` and `optimize_routine`, the counts of `opt_dirs_cc_routine`, `opt_mft_cc_routine` and `defrag_cc_routine`, and the result of the analysis are parameters.
- Optimize.Job.OptimizeMft: the closing `defragment(jp)` (optimize.c:1021) is not modelled, likewise; the MFT optimizer's result and counts are parameters.
- Optimize.Job.Optimize and Optimize.Job.OptimizeMft: the progress counters the analysis itself sets (analyze.c:139-140, 183-184, 208, 504) are not modelled; after a failed analysis the model keeps the processed clusters and the clusters to process as they were, and states only the operation the analysis sets.
- Dbg.DbgPrint: it and Dbg.StripEnding and Dbg.PrintOutcome follow the corrected classification of the Findings row, with the length taken again after the newline is cut. As written (dbg.c:221-229) a message ending in ": $NS\n" or ": $LE\n" is logged and shown plain, its ending left in; that behaviour is modelled only by Dbg.ClassifyAsWritten and Dbg.NewlineHidesEnding. Dbg.DbgLog.Enable logs its own messages through this corrected classification too.
- Dbg.DbgLog.Enable: the failure of its spin lock (dbg.c:605-609), after which it logs "synchronization failed" and returns, is not modelled, nor its console output. One flag, `logMemory`, says whether all allocations of its own debug messages and their log entries succeed; mixed outcomes (a message formatted but its entry not allocated) are not told apart.
- Keyboard.KeyboardState.Push: the model pushes with the corrected guard of the Findings row (start_index wraps on a full queue); the unwrapped index of keyboard.c:158-159 is modelled only by Keyboard.PushIndicesAsWritten.
- BootExCtrl.RegisterCmd: the model saves the value of the corrected guard of the Findings row, "cmd\0\0" for the value "\0\0", where the source saves "\0cmd\0\0"; BootExCtrl.Run, BootExCtrl.RunWrites and BootExCtrl.RegisterOutcome inherit this, and the code as written is modelled only by BootExCtrl.RegisterValueAsWritten.
- Keyboard.KeyboardState.Read: `msecTimeout` is a `nat`, so the INFINITE timeout (keyboard.c:305, 338), which makes kb_read wait until a key arrives, is not modelled.
- Types.EqualsIgnoreCase: `_wcsicmp` and `winx_wcsicmp` are modelled by lowering ASCII letters only; other letters compare as they are.
- OptimizeTrunk.OptCcRoutine: the trunk's `can_move_entirely` is taken to be the src one, Move.CanMoveEntirely, with the flags it records (UD_FILE_IMPROPER_STATE and the MFT cache flags of is_mft); trunk/src/dll/udefrag/move.c is not part of this model.
- Search: the trunk's `can_move`, `can_move_entirely` and `is_file_locked` (trunk search.c:392-396, 427-429, 447) are taken to be the src ones, Move.CanMove, Move.CanMoveEntirely and Analyze.IsFileLocked; the trunk's `can_move` also takes the job, which the src one does not. trunk/src/dll/udefrag/move.c and trunk/src/dll/udefrag/analyze.c are not part of this model.
- OptimizeTrunk.Job.Optimize and OptimizeTrunk.Job.OptimizeMft: trunk/src/dll/udefrag/analyze.c is not part of this model, so what the analysis itself sets (the operation, the counters, the file list) is not modelled; after a failed analysis the job is left as it was.
- Floating point is not modelled: fragmentation levels, percentages and column scaling.

## Findings

| source | as written | input that shows it | evidently intended | confidence | as-written member | corrected member |
|---|---|---|---|---|---|---|
| src/dll/zenwinx/keyboard.c:158-159 | on a full queue a push does `start_index++` without wrapping it | a full queue (n_written 100) with start_index 99: the push leaves start_index 100, and the next pop at 322-331 reads kids[100], past the array | start_index wraps to 0 | not executed | Keyboard.PushAsWrittenDiffers | Keyboard.PushIndices |
| src/bootexctrl/bootexctrl.c:222 | the empty-value test is `size < 2`, although the comment calls "\0\0" empty | the value "\0\0" (size 2) reaches the walk, and registering "cmd" writes "\0cmd\0\0", whose first string is empty, so readers stop before the command | `size <= 2`, so "\0\0" becomes "cmd\0\0" | not executed | BootExCtrl.RegisterOnEmptyPair | BootExCtrl.RegisterValue |
| src/dll/zenwinx/reg.c:82 | `length = (DataLength >> 1) - 1` on a DWORD | an existing empty value (DataLength 0) gives length 0xFFFFFFFF, so the walks of both register and unregister read past the buffer | an empty value taken as holding no strings | not executed | ZenwinxReg.EmptyValueOverflows | ZenwinxReg.EmptyValueCorrected |
| src/dll/zenwinx/dbg.c:221-229 | `length` is taken before the trailing newline is removed, and the ending is looked for at `length - 5` | "x: $NS\n" stays a plain message "x: $NS" instead of an NT status message "x" | the ending is looked for at the end of the message without its newline | not executed | Dbg.NewlineHidesEnding | Dbg.ClassifySpec |
