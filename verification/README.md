# Packed memory arrays, an (a,b)-tree and their workloads

A Dafny model of the sorted containers of this repository and of the machinery below and above them, with
proofs that they hold what was put into them.

* **Clustered packed memory array** (`BTreePMA_v4`). `Layout` is the array of segments, even ones filled from
  the right and odd ones from the left. `InPlaceSpread` is the spread of a window over itself: the last four
  segments go to a side buffer, the others are compacted backwards, and everything is dealt out forwards over
  the same cells. `Calibrator` and `DensityBounds` decide which window; `Regrow` doubles the array;
  `SegmentInsert`, `SortedStore` and `StoreSteps` are the insertion into a segment and what each step keeps.
  `ClusteredPma` is the container, `RangeScan` its iterator and sum, `PmaRuns` whole runs of insertions.
* **(a,b)-tree with linked leaves** (`ABTree`). `Trees` is the tree as a value and `TreeMemory` the memory it
  is stored in, so that sharing, links and freed nodes are part of every statement. `TreeInsert`, `TreeRotate`,
  `TreeBalance`, `TreeRemove`, `TreeScan` and `TreeRange` are its operations; `TreeLoad` is the bulk load;
  `TreeRelocate`, `TreePermute` and `TreePermuteByKind` shuffle the nodes in memory. `AbTree` is the container.
* **Packed memory array with a dynamic index** (`BTreePMA_v2`). The index points to cells that move.
  `LiveCells`, `PackedSegments`, `PackedClimb`, `PackedDeal`, `PackedRebalance` and `PackedIndex` follow the
  pointers through shifts, spreads and resizes; `DynamicPma` is the array with the chain of index leaves.
  `IndexTree` is the tree above the chain with its splits, `IndexedPma` the container with both.
* **Rewired memory**. `Rewiring` is the map from virtual to physical extents, `Buffering` the region of buffers
  behind the user's extents.
* **Generators**. `ByteArrays` and `RandomPermutation` are the packed array and the parallel permutation, with
  every interleaving of the tasks; `DenseDistributions` and `InsDelStream` are the key distributions and the
  stream of insertions and deletions, the latter over `AbTree`.

`Sequences`, `Powers`, `Permutations`, `Options` and `RangeSums` are shared.

The source and its intentions differ in a few places, each stated as a condition that is met exactly when the
code does what it is for, with an input that fails:

* the cells a `BTreePMA_v4` allocates: `ClusteredPma.CellsEnough`, `ClusteredPma.NineCells`;
* the lower bound of nodes for b = 2a - 1: `Trees.SplitHalves`, `Trees.SplitThree`;
* the number of levels of a bulk load: `TreeLoad.InitializeFromArray`, `TreeLoad.LevelTooMany`;
* the removal of a negative value: `AbTree.ABTree.Remove`, `AbTree.RemoveNegative`;
* first and last key of an empty sum: `TreeRange.Sum`, `AbTree.SumInGap`;
* the release of a buffer that is not held: `Buffering.SharedRelease`, `Buffering.ReleasedTwice`;
* repeated keys of a stream: `InsDelStream.KeysDistinct`, `InsDelStream.KeysRepeat`;
* scans over a single key: `InsDelStream.ScanFits`.

## Model

| member | source | states |
|---|---|---|
| `DensityBounds.Monotone` | pma/density_bounds.cpp:52-84 | theta falls and rho rises strictly with the height, over all heights including fractional ones |
| `DensityBounds.Extremes` | pma/density_bounds.cpp:52-67 | the leaf level has exactly (rho_0, theta_0), the root of a taller tree exactly (rho_h, theta_h) |
| `DensityBounds.InnerTheta` | pma/density_bounds.cpp:52-67 | above the leaves theta lies in [theta_h, 1), so an accepted window is never completely full |
| `DensityBounds.CachedDensityBounds.Thresholds` | pma/density_bounds.hpp:128-132 | in any order of calls the cached thresholds are the directly computed ones |
| `DensityBounds.CachedDensityBounds.Rebuild` | pma/density_bounds.cpp:96-102 | the refilled cache is coherent for the requested tree height |
| `Calibrator.WindowInside` | pma/btree/btreepma_v4.cpp:298-303 | the window of 2^(h-1) segments starts at a multiple of its length, contains the segment and lies inside the array |
| `Calibrator.QualifiesExactly` | pma/btree/btreepma_v4.cpp:303-325 | a window is accepted exactly if, with the new element, it holds at most the share of its cells that lies between theta_h for the whole array and theta_0 for a segment, in proportion to its height |
| `Calibrator.FindWindow` | pma/btree/btreepma_v4.cpp:281-335 | the climb stops at the smallest aligned window of two or more segments whose density, counting the new element, is within its level's theta, with the exact element count; it reports failure exactly when no level qualifies |
| `Calibrator.Collect` | pma/btree/btreepma_v4.cpp:308-316 | the incremental count is the sum of all cardinalities of the widened window, plus the new element |
| `Calibrator.RoomLeft` | pma/btree/btreepma_v4.cpp:319-325 | an accepted window has strictly more cells than it will hold elements |
| `Calibrator.TooDense` | pma/btree/btreepma_v4.cpp:322-332 | if not even the root window qualifies, the array is filled beyond theta_h |
| `Layout.ReadPair` | pma/btree/btreepma_v4.cpp:371-372 | the even and the odd segment of a pair are one contiguous stretch of cells, from the even segment's start to the odd one's end |
| `SortedStore.MinRank` | pma/btree/btreepma_v4.cpp:143-156 | the first cell of a segment holds the element whose rank is the number of elements in the segments before it |
| `InPlaceSpread.SpreadInsertUnsafe` | pma/btree/btreepma_v4.cpp:501-515 | the copy of a run to another place holds the run with the new key and its value at their sorted place, in both columns |
| `InPlaceSpread.MoveRun` | pma/btree/btreepma_v4.cpp:408-419 | a pair's run, with or without the new element, is laid down directly below the write cursor; requires only that source and destination are as the cursor order leaves them |
| `InPlaceSpread.StashTail` | pma/btree/btreepma_v4.cpp:374-404 | the last four segments (or two) are in the side buffer, in order, with the new element if it belongs there; the window is untouched |
| `InPlaceSpread.CompactRest` | pma/btree/btreepma_v4.cpp:406-433 | backward compaction loses nothing: the remaining pairs end up packed against the end of the window, and nothing outside the window changes |
| `InPlaceSpread.WritesBelowReads` | pma/btree/btreepma_v4.cpp:471-482 | before a pair is written, its first cell lies at least a side buffer's length below the next packed element still to be read |
| `InPlaceSpread.FillRun` | pma/btree/btreepma_v4.cpp:478-492 | one output pair receives exactly the next elements of both columns, switching to the side buffer when the packed part is used up, and leaves all unread elements intact |
| `InPlaceSpread.Redistribute` | pma/btree/btreepma_v4.cpp:469-493 | the forward redistribution over the same array reads back as the packed part followed by the side buffer, and nothing outside the window changes |
| `InPlaceSpread.Shares` | pma/btree/btreepma_v4.cpp:447-452 | the target cardinalities add up to the total, and none is empty or over capacity if the total allows it |
| `InPlaceSpread.FlatKeysMerged` | pma/btree/btreepma_v4.cpp:380-425 | the planned runs, put one after the other, are the window's old keys with the new one in sorted place |
| `InPlaceSpread.Spread` | pma/btree/btreepma_v4.cpp:337-499 | after compaction and redistribution the window reads as its old pairs with the new pair in sorted place, evenly dealt out; cells and counts outside it are unchanged |
| `ClusteredPma.GrowCapacity` | pma/btree/btreepma_v4.cpp:517-527 | the capacity loop leaves after exactly one doubling |
| `ClusteredPma.GrownShape` | pma/btree/btreepma_v4.cpp:521-526 | the doubled capacity divides evenly into a power of two of segments |
| `ClusteredPma.GrownSegments` | pma/btree/btreepma_v4.cpp:522-522 | the new segments are as long as before if that is fixed, otherwise the least power of two, from eight on, that is at least the logarithm of the capacity |
| `ClusteredPma.GrownShares` | pma/btree/btreepma_v4.cpp:525-560 | every new segment gets at least one element and at most half its capacity |
| `Regrow.Redeal` | pma/btree/btreepma_v4.cpp:548-616 | dealing the elements out over the new segments keeps the whole sequence, in both columns |
| `ClusteredPma.BTreePMA.Resize` | pma/btree/btreepma_v4.cpp:517-616 | keys and values read the same before and after, the capacity has doubled, the segments have the new size and share the elements evenly, none empty and none more than half full |
| `ClusteredPma.SharesEven` | pma/btree/btreepma_v4.cpp:447-452 | shares that differ by at most one, the larger ones first, and add up to the total |
| `SegmentInsert.ShiftDown` | pma/btree/btreepma_v4.cpp:224-242 | even segment: the smaller keys move down one cell and the new key lands in sorted place |
| `SegmentInsert.ShiftUp` | pma/btree/btreepma_v4.cpp:243-259 | odd segment: the larger keys move up one cell and the new key lands in sorted place, behind equal keys |
| `SegmentInsert.InsertCommon` | pma/btree/btreepma_v4.cpp:216-266 | one more pair in the segment at its sorted place, whether the key is there already or not; the minimum is reported as changed exactly when that place is the first |
| `SegmentInsert.PlaceSorted` | pma/btree/btreepma_v4.cpp:224-259 | before equal keys in an even segment, behind them in an odd one: both places are sorted ones |
| `SegmentInsert.GrownReads` | pma/btree/btreepma_v4.cpp:216-266 | one more element in one segment is one more element in the whole sequence, at the rank given by the segments before it |
| `SortedStore.FloorLocates` | pma/btree/btreepma_v4.cpp:623-641 | on an index that covers the array, the greatest separator not above the key leads to the segment the key belongs to |
| `SortedStore.PlaceInWindow` | pma/btree/btreepma_v4.cpp:337-341 | the key's place in any window around its segment is its place in the whole sequence |
| `StoreSteps.AfterSpread` | pma/btree/btreepma_v4.cpp:343-346 | after a spread the whole array is again strictly sorted without empty segments, with the new pair in place |
| `StoreSteps.AfterCommon` | pma/btree/btreepma_v4.cpp:188-197 | after a plain insertion only the separator of that segment can have changed, and only to the new key |
| `StoreSteps.Reindex` | pma/btree/btreepma_v4.cpp:269-273 | replacing one separator in the index keeps it exact |
| `ClusteredPma.BTreePMA.SpreadWindow` | pma/btree/btreepma_v4.cpp:327-329 | a window that qualified is spread and re-indexed: the array stays valid and has the new pair in sorted place, the window's segments share evenly, and no cell or count outside it changes |
| `ClusteredPma.BTreePMA.Rebalance` | pma/btree/btreepma_v4.cpp:281-335 | if some window of the segment is sparse enough, the smallest one is spread with the new pair and nothing else changes; if and only if there is none, the array is doubled with unchanged contents, and then it was one full segment or filled beyond theta_h |
| `ClusteredPma.BTreePMA.Insert` | pma/btree/btreepma_v4.cpp:168-203 | for a key that is not stored: validity (sorted, no empty or overfull segment, cardinality the sum of the counts, index exactly the minima) is kept and both columns have exactly the new pair inserted at its sorted rank. All counts and sizes afterwards are determined: one more in a segment with room, else the smallest sparse window spread, else the array doubled |
| `ClusteredPma.BTreePMA.Find` | pma/btree/btreepma_v4.cpp:644-668 | the value stored with the key, -1 exactly when the key is not stored |
| `ClusteredPma.BTreePMA.constructor` | pma/btree/btreepma_v4.cpp:71-82 | for every size it accepts, a fresh array of one empty segment with the thresholds given; it is valid if and only if the size is a power of two |
| `ClusteredPma.CellsEnough` | pma/btree/btreepma_v4.cpp:71-81 | the allocated cells cover the rounded segment capacity if and only if the requested size is a power of two |
| `ClusteredPma.AdmittedSizes` | pma/btree/btreepma_v4.cpp:71-73 | the sizes that are not refused are those from 5 to 32768 |
| `ClusteredPma.NineCells` | pma/btree/btreepma_v4.cpp:71-81 | a size the constructor accepts and for which they do not: nine cells allocated, capacity sixteen |
| `PmaRuns.Create` | pma/btree/btreepma_v4.cpp:71-82 | sizes outside the limits are refused, all others give an empty array, valid if and only if the size is a power of two |
| `PmaRuns.InsertAll` | pma/btree/btreepma_v4.cpp:168-335 | over every run of insertions of distinct keys the array stays valid and ends up holding exactly the inserted pairs in key order |
| `PmaRuns.FindInserted` | pma/btree/btreepma_v4.cpp:644-668 | after such a run find returns the value each key was inserted with, and -1 for all other keys |
| `RangeScan.BetweenIsSlice` | pma/btree/btreepma_v4.cpp:679-766 | on ascending keys the pairs of a range are one stretch of the sequence |
| `RangeScan.FindFirst` | pma/btree/btreepma_v4.cpp:685-713 | the forward scan stops at the first key that is not below the lower end, or past the last element |
| `RangeScan.FindLast` | pma/btree/btreepma_v4.cpp:727-755 | the backward scan stops just behind the last key that is not above the upper end, and never leaves its segment |
| `RangeScan.FindRange` | pma/btree/btreepma_v4.cpp:816-822 | the iterator is to deliver exactly the stored pairs with key in [min, max], in order |
| `RangeScan.Iterator.Next` | pma/btree/btreepma_v4.cpp:798-808 | delivers the first of the remaining pairs and leaves the others |
| `RangeScan.HasNextExact` | pma/btree/btreepma_v4.cpp:794-796 | hasNext is true exactly when pairs remain |
| `RangeScan.SummaryExact` | pma/btree/btreepma_v4.cpp:833-938 | the aggregate of the ranks of a range is the aggregate of the pairs in the range |
| `RangeScan.AggregateSum` | pma/btree/btreepma_v4.cpp:833-938 | for all min and max: count, key sum, value sum, first and last key of exactly the pairs in [min, max] |
| `Trees.SplitHalves` | abtree/abtree.cpp:380-385 | of the bounds the constructor accepts, those for which both halves of every leaf and node split meet the lower bound are exactly those with 2a <= b; otherwise the right half has a - 1 entries |
| `Trees.SplitThree` | abtree/abtree.cpp:380-385 | the bounds 2 and 3 are accepted, and a leaf of three is split into two and one |
| `TreeMemory.ChainDistinct` | abtree/abtree.cpp:503-507 | a doubly linked chain of leaves never comes back to a leaf |
| `TreeMemory.RebuiltStored` | abtree/abtree.cpp:472-545 | replacing some children of a node by others changes nothing else that is stored |
| `TreeInsert.SplitLeaf` | abtree/abtree.cpp:484-513 | a full leaf becomes two linked leaves within bounds with the same contents, the left one with half of them or one more, separated by the smallest key of the right one |
| `TreeInsert.SplitInner` | abtree/abtree.cpp:515-531 | an inner node with one child too many becomes two nodes within bounds with the same contents, the left one with one or two children more, separated by the smallest key of the right one |
| `TreeInsert.Split` | abtree/abtree.cpp:472-545 | the parent gets the new child and separator, and contents, leaf chain and all other nodes are kept |
| `TreeInsert.LeafInsert` | abtree/abtree.cpp:578-592 | shifting larger pairs up puts the new pair at its sorted place in the leaf, behind pairs with the same key |
| `TreeInsert.PlaceBelow` | abtree/abtree.cpp:556-559 | a sorted place in the child the search goes to is a sorted place in the whole node |
| `TreeInsert.InsertInto` | abtree/abtree.cpp:547-595 | below a node: exactly the pair is added, at a sorted place; order, separators, bounds, depth and leaf chain are kept, up to one extra child of an inner node |
| `AbTree.ABTree.SplitRoot` | abtree/abtree.cpp:463-470 | a root with one entry too many gets a parent with two children: a proper tree, one level higher, with the same contents |
| `AbTree.ABTree.Insert` | abtree/abtree.cpp:597-611 | the full invariant is kept through leaf-root and inner-root splits, and the contents are the old ones with exactly the given pair inserted in sorted place, duplicates included |
| `AbTree.ABTree.constructor` | abtree/abtree.cpp:76-86 | an empty leaf as root, without contents; a proper tree if and only if the bounds suit a split |
| `AbTree.ABTree.WithinBounds` | abtree/abtree.cpp:390-435 | of a valid tree, node by node as stored: every leaf and inner node but the root has between a and b entries, the root has at least two children unless it is a leaf, and all leaves are equally deep |
| `TreeScan.NodesWithin` | abtree/abtree.cpp:390-435 | the same below any node |
| `AbTree.ABTree.Create` | abtree/abtree.cpp:380-385 | exactly the bounds with b < 2a - 1 or a < 2 are refused; of the others those with 2a <= b give a valid tree |
| `TreeRotate.LeafRight` | abtree/abtree.cpp:692-717 | entry by entry, with the values read in front of the array arbitrary: the last entries of the left leaf come before those of the right one |
| `TreeRotate.InnerRight` | abtree/abtree.cpp:718-752 | for a shift by one or two, and with the downward-running copy loop as it is: the last children of the left node, the pivot and the right node's keys and children in order, and the right new pivot |
| `TreeRotate.LeafLeft` | abtree/abtree.cpp:762-788 | the first entries of the right leaf come behind those of the left one and the others move down |
| `TreeRotate.InnerLeft` | abtree/abtree.cpp:789-824 | for a shift by one or two, and with the index that stands still: the left node's keys and children, the pivot and the first children of the right one in order |
| `TreeBalance.CutOk` | abtree/abtree.cpp:684-826 | wherever two siblings are divided anew within bounds, they are proper siblings with the same contents and leaves |
| `TreeBalance.RotateRight` | abtree/abtree.cpp:684-753 | both siblings are within bounds again, with the same contents and the separator the smallest key of the right one |
| `TreeBalance.RotateLeft` | abtree/abtree.cpp:755-826 | both siblings are within bounds again, with the same contents and the separator the smallest key of the right one |
| `TreeBalance.Merge` | abtree/abtree.cpp:619-682 | the siblings are one node within bounds with the same contents; a merged leaf is out of the chain and the right node is freed |
| `TreeBalance.RebalanceLb` | abtree/abtree.cpp:828-890 | a child with at least leaf_a entries or intnode_a children is left alone; one that is one short gets two from its left sibling if that can spare them, else two from the right one, else one from the left, else one from the right, and otherwise is merged with its right sibling, or the left one at the end; all children are within bounds again and the contents are the same |
| `TreeRemove.RemoveFromLeaf` | abtree/abtree.cpp:1143-1166 | exactly one entry with the key goes, the last one if the leaf ends with the key and otherwise the first, and its value is returned, or -1 and no change |
| `TreeRemove.SearchChild` | abtree/abtree.cpp:1112-1141 | the child the search goes to (right on equality) holds the key if any child does, and a followed minimum is its smallest key |
| `TreeRemove.RemoveFrom` | abtree/abtree.cpp:1108-1178 | below a node: exactly one pair with the key goes, or -1 and nothing at all changes; separators stay the minima to their right, and the new minimum is handed up when wanted |
| `AbTree.ABTree.ShrinkTree` | abtree/abtree.cpp:1188-1197 | a root with a single child gives way to it: a proper tree with the same contents |
| `AbTree.ABTree.Remove` | abtree/abtree.cpp:1180-1202 | exactly one pair with the key goes and its value is returned, or -1 and nothing changes; the tree stays valid if and only if the returned value is not negative: always when no pair with the key has a negative value, never when the key is stored and all its values are negative |
| `AbTree.RemoveNegative` | abtree/abtree.cpp:1185-1198 | the input on which it fails: key 3 with value -5 is removed from the contents but stays in the count |
| `TreeScan.WhereFound` | abtree/abtree.cpp:1215-1222 | although find goes right on equality where insert goes left, the child it chooses holds the key if any child does |
| `TreeScan.Find` | abtree/abtree.cpp:1210-1230 | the value of some pair with the key, or -1 exactly when there is none |
| `AbTree.ABTree.FindValue` | abtree/abtree.cpp:1210-1230 | the same on every valid tree |
| `AbTree.ABTree.KeyMax` | abtree/abtree.cpp:442-455 | the greatest stored key, -1 on an empty tree |
| `TreeScan.FlatLeaves` | abtree/abtree.cpp:1270-1296 | the chain of leaves read in order is the contents of the tree |
| `TreeScan.WithinIsSlice` | abtree/abtree.cpp:1298-1318 | in sorted contents, duplicates included, the pairs of a range are one stretch |
| `TreeScan.FindLeaf` | abtree/abtree.cpp:1301-1312 | the leaf a range query starts from: no earlier pair is in the range and no later leaf starts below it |
| `TreeRange.LeafScan` | abtree/abtree.cpp:1270-1296 | the iterator opens on the first pair of the range, or is at its end when there is none |
| `TreeRange.Iterator.Next` | abtree/abtree.cpp:1241-1260 | delivers the first of the remaining pairs, following the chain; (-1, -1) when none is left |
| `TreeRange.HasNextExact` | abtree/abtree.cpp:1239-1239 | hasNext is true exactly when pairs remain |
| `TreeRange.FindRange` | abtree/abtree.cpp:1298-1318 | the iterator is to deliver exactly the pairs with key in [min, max], in order |
| `TreeRange.SumLeaves` | abtree/abtree.cpp:1357-1397 | the loop over the leaves adds up one stretch of the contents, and its last key is the one before its end |
| `TreeRange.Sum` | abtree/abtree.cpp:1320-1398 | count, sums, first and last key of exactly the pairs in [min, max]; on an empty range all are zero, unless the range falls between two pairs of one leaf: then first and last key are those two neighbours, the upper one first |
| `AbTree.ABTree.FindBetween` | abtree/abtree.cpp:1298-1318 | the iterator over exactly [min, max], on every valid tree |
| `AbTree.ABTree.SumBetween` | abtree/abtree.cpp:1320-1398 | the same on every valid tree |
| `AbTree.SumInGap` | abtree/abtree.cpp:1351-1397 | a tree with the keys 4 and 8, asked for [5, 6], reports first key 8 and last key 4 |
| `TreeLoad.Evenly` | abtree/abtree.cpp:142-146 | entries spread evenly over the fewest nodes possible meet the lower and upper bound |
| `TreeLoad.LevelTooMany` | abtree/abtree.cpp:152-152 | for 125 leaves and nodes of five, three levels are right and four, as ceil(log(125) / log(5)) gives in doubles, are not |
| `TreeLoad.MakePlan` | abtree/abtree.cpp:151-175 | for any number of levels: each level has as many nodes as the level below needs, evenly filled and within bounds; the root takes all of its own, or there are levels left over above it, or too few |
| `TreeLoad.NotDone` | abtree/abtree.cpp:181-205 | while a level still has children to take its nodes are not all complete, and the last node is completed by exactly the last child |
| `TreeLoad.Propagate` | abtree/abtree.cpp:177-205 | a child handed to a level joins the node there or opens a new one; with the right number of levels nothing is lost, all finished nodes are within bounds, and the last child completes every level up to a single root |
| `TreeLoad.FillTree` | abtree/abtree.cpp:207-230 | with the right number of levels, filling the leaves one by one yields a proper tree with exactly the given pairs in order; with levels left over the top one never gets a proper root |
| `TreeLoad.TooMany` | abtree/abtree.cpp:152-161 | a tree with too few levels cannot hold as many pairs |
| `TreeLoad.InitializeFromArray` | abtree/abtree.cpp:117-231 | for every sorted array and every number of levels the logarithm may come to: a proper tree holding exactly these pairs if and only if that number is the least exponent whose power of the fan-out reaches the number of leaves; then there are as few leaves as can hold the pairs, filled evenly, the fuller ones first |
| `TreeLoad.InOrder` | abtree/abtree.cpp:242-248 | the check is true exactly for pairs in key order |
| `AbTree.ABTree.Load` | abtree/abtree.cpp:234-259 | an empty tree takes all pairs, in their own order if that is sorted and otherwise in some sorted order of the same pairs, and is valid if and only if the number of levels is right, its leaves then as few and as even as possible; a tree that is not empty refuses and is unchanged |
| `AbTree.ABTree.FromArray` | abtree/abtree.cpp:93-106 | a proper tree with exactly the given pairs, each as often, in key order, if and only if the number of levels is right |
| `TreeRelocate.SameTree` | abtree/abtree.cpp:1985-2044 | renaming all addresses changes neither contents nor the order of leaves |
| `TreeRelocate.Relocated` | abtree/abtree.cpp:1985-2044 | moving the nodes by any injection on addresses, with all pointers redirected, gives a proper tree with the same shape, keys, values, contents and leaf order from the new root |
| `TreeRelocate.Visit` | abtree/abtree.cpp:2046-2061 | the visit lists every node of the subtree once, in depth-first order, with its index |
| `TreeRelocate.RedirectAndCopy` | abtree/abtree.cpp:2006-2030 | redirecting and copying in one loop leaves in the workspace exactly the redirected nodes at their permuted places |
| `TreePermute.PermuteAll` | abtree/abtree.cpp:1985-2044 | for every permutation: the node visited as number i goes to the address of the one visited as number perm[i], and the tree found from the new root is the old one at these addresses |
| `TreePermuteByKind.MoreLeaves` | abtree/abtree.cpp:1861-1866 | a tree has more leaves than inner nodes, so the index looked up there is one of the list of leaves |
| `TreePermuteByKind.FirstChild` | abtree/abtree.cpp:1861-1866 | the first child is at its index on the list of leaves exactly when all children are leaves |
| `TreePermuteByKind.PermuteInner` | abtree/abtree.cpp:1819-1880 | inner node i goes to the address of inner node perm[i], with root and pointers to inner nodes following, and exactly the parents of leaves are recorded |
| `TreePermuteByKind.PermuteLeaves` | abtree/abtree.cpp:1882-1927 | leaf i goes to the address of leaf perm[i], with their links and their parents' pointers following |
| `TreePermuteByKind.PermuteByKind` | abtree/abtree.cpp:1785-1789 | after both phases: the same tree at the addresses the two permutations give, and at every address a node of the same kind as before |
| `AbTree.ABTree.Permute` | abtree/abtree.cpp:1747-1755 | validity, contents and the tree itself (shape, separators, keys, values) are kept; its addresses are those the permutations give, and unless inner nodes and leaves have the same size every address keeps its kind of node |
| `AbTree.ABTree.PermuteRandomly` | abtree/abtree.cpp:1747-1755 | the same with the permutations of the parallel computation |
| `LiveCells.NextLive` | pma/btree/btreepma_v2.cpp:751-751 | the next occupied cell, or the end |
| `PackedSegments.ShiftedPointing` | pma/btree/btreepma_v2.cpp:619-646 | after cells have moved right, each pointer moved with its cell leads to the element it led to |
| `PackedSegments.ShiftedSegments` | pma/btree/btreepma_v2.cpp:589-601 | only the segment that was shifted changes, and it stays occupied up to some point and empty behind |
| `PackedSegments.SegmentCardinality` | pma/btree/btreepma_v2.cpp:353-360 | the number of elements of a segment that is not empty |
| `PackedClimb.ThresholdsMonotone` | pma/btree/btreepma_v2.cpp:133-138 | rho falls and theta rises strictly towards the leaves, with rho below theta |
| `PackedClimb.Tight` | pma/btree/btreepma_v2.cpp:133-138 | (h/4) * 2^(h-1) >= 2^(h-1) - 1 on every level from the second on |
| `PackedClimb.SparseExactly` | pma/btree/btreepma_v2.cpp:133-183 | a window at height h in a calibrator tree of height H is sparse enough exactly if it holds fewer than (4H - h) / 4H of its cells, three quarters for the whole array |
| `PackedClimb.SparseRoom` | pma/btree/btreepma_v2.cpp:140-186 | a window below its threshold has a free cell for each of its segments, if segments have at least as many cells as the calibrator tree has levels |
| `PackedClimb.Climb` | pma/btree/btreepma_v2.cpp:144-185 | the smallest window of two or more segments below its threshold, with its exact count; none exactly if no window of the segment is |
| `PackedDeal.CursorHits` | pma/btree/btreepma_v2.cpp:244-254 | the test for the pointer of an element succeeds exactly when the next pointer leads to that element |
| `PackedDeal.DealSegment` | pma/btree/btreepma_v2.cpp:240-262 | copying the next elements keeps them in order and retargets exactly the pointers to them |
| `PackedDeal.DealWindow` | pma/btree/btreepma_v2.cpp:235-269 | the workspace holds the window's elements dealt out evenly, and the pointers into the window lead to the same elements there |
| `PackedRebalance.FirstPointer` | pma/btree/btreepma_v2.cpp:202-233 | the search, forward or backward, ends at the first pointer that is not before the window |
| `PackedRebalance.Spread` | pma/btree/btreepma_v2.cpp:188-273 | the array reads the same, the window is evenly filled, every segment has room, nothing outside the window changes, and every pointer leads to the element it led to |
| `PackedRebalance.Regrow` | pma/btree/btreepma_v2.cpp:276-333 | the new array reads the same, is evenly filled with room in every segment, and every pointer leads to the element it led to |
| `PackedIndex.PointsInserted` | pma/btree/btreepma_v2.cpp:569-607 | given the slot and the shifted pointers, all pointers lead to the elements they led to, except that the first leads to a new first element |
| `PackedIndex.SeparatedInserted` | pma/btree/btreepma_v2.cpp:520-528 | the separators are still the keys of the elements their pointers lead to, and the counts add up to the next pointer |
| `PackedIndex.Augmented` | pma/btree/btreepma_v2.cpp:538-567 | splitting the elements of a pointer in two keeps pointers, separators and counts exact |
| `DynamicPma.GrownSizes` | pma/btree/btreepma_v2.cpp:276-285 | a doubled array again has segments with at least as many cells as its calibrator tree has levels |
| `DynamicPma.GrownRoom` | pma/btree/btreepma_v2.cpp:296-305 | dealt out over the doubled array, no segment is empty and none is full |
| `DynamicPma.AfterInsertion` | pma/btree/btreepma_v2.cpp:569-607 | slot, shift and pointer fix together: contents with the new pair, all pointers, counts and separators right, at most that one segment full |
| `DynamicPma.BTreePMA.Walk` | pma/btree/btreepma_v2.cpp:574-578 | from its pointer the search reaches the rank where the key belongs |
| `DynamicPma.BTreePMA.ShiftRight` | pma/btree/btreepma_v2.cpp:619-646 | cells move right by one, and exactly the pointers to moved cells follow |
| `DynamicPma.BTreePMA.MakeSlot` | pma/btree/btreepma_v2.cpp:580-598 | there always is an empty cell in the segment hit, and the cells from the slot to it have moved right |
| `DynamicPma.BTreePMA.InsertStorage` | pma/btree/btreepma_v2.cpp:569-611 | the pair is in at its sorted rank, no segment is full, and every pointer leads to the element it led to; beyond that the array changes only by what rebalancing does |
| `DynamicPma.BTreePMA.Rebalance` | pma/btree/btreepma_v2.cpp:140-186 | nothing happens unless the segment has filled up; then the smallest sparse window is spread evenly and nothing outside it changes; if and only if there is none, the array is doubled, being at least three quarters full; contents and pointed elements are the same, and every segment has room |
| `DynamicPma.BTreePMA.Resize` | pma/btree/btreepma_v2.cpp:276-341 | twice the capacity, segments of the least power of two that is at least its logarithm, evenly filled; contents and pointed elements the same, room in every segment |
| `DynamicPma.BTreePMA.Augment` | pma/btree/btreepma_v2.cpp:538-567 | the pointer keeps half of its elements, the other half gets a pointer of its own, and the index stays exact |
| `DynamicPma.BTreePMA.Insert` | pma/btree/btreepma_v2.cpp:507-535 | array and chain of index leaves stay valid (pointers ascend and hit occupied cells, separators are the pointed keys, counts reach to the next pointer, no segment full) and the contents have exactly the new pair, before pairs with the same key; the capacity is the old one, or twice that from three quarters full on |
| `DynamicPma.BTreePMA.InsertFrom` | pma/btree/btreepma_v2.cpp:517-535 | from the pointer the search has come to: that pointer counts one element more or has split in two, and all other counts and separators are the same |
| `DynamicPma.BTreePMA.Find` | pma/btree/btreepma_v2.cpp:663-698 | the value of some pair with the key, -1 exactly when there is none |
| `DynamicPma.BTreePMA.FindRange` | pma/btree/btreepma_v2.cpp:700-737 | the iterator is to deliver exactly the pairs with key in [min, max] |
| `DynamicPma.Iterator.Next` | pma/btree/btreepma_v2.cpp:743-754 | delivers the first of the remaining pairs |
| `DynamicPma.HasNextExact` | pma/btree/btreepma_v2.cpp:739-741 | hasNext is true exactly when pairs remain |
| `DynamicPma.BTreePMA.SumRange` | pma/btree/btreepma_v2.cpp:771-818 | count, sums, first and last key of exactly the pairs in [min, max], all zero when there are none |
| `IndexTree.SplitNode` | pma/btree/btreepma_v2.cpp:376-443 | a node with an entry too many becomes two siblings within bounds, the left one with one or two entries more, and the others stay; read in order, the leaves have the same pointers and counts and the same separators between them |
| `IndexTree.SplitRoot` | pma/btree/btreepma_v2.cpp:367-374 | a root with an entry too many gets a parent with two children, one level higher; the leaves read the same |
| `IndexTree.ReachedBelow` | pma/btree/btreepma_v2.cpp:466-473 | the place the search finds in a child is its place in the whole chain of leaves, also when separators repeat |
| `IndexTree.Search` | pma/btree/btreepma_v2.cpp:466-489 | the descent ends at the entry before the first separator that is not below the key, or behind an equal one if it goes right on equality |
| `IndexTree.Place` | pma/btree/btreepma_v2.cpp:463-492 | through all splits on the way back up, the chain of leaves changes at the entry of the key only, and every node below the top one is within bounds |
| `IndexTree.Refill` | pma/btree/btreepma_v2.cpp:619-646 | pointers rewritten along the chain of leaves leave the rest of the tree as it was |
| `IndexTree.NodesWithin` | pma/btree/btreepma_v2.cpp:86-98 | every leaf and inner node below the top one has between a and b entries |
| `IndexedPma.IndexedPMA.Create` | pma/btree/btreepma_v2.cpp:73-98 | bounds with b < 2a or a < 2 are refused, all others give an empty array under an empty leaf |
| `IndexedPma.IndexedPMA.UpdateTree` | pma/btree/btreepma_v2.cpp:445-459 | after an insertion into the array the tree is within bounds again and its leaves are the new index, with the root split if it has to be |
| `IndexedPma.IndexedPMA.WithinBounds` | pma/btree/btreepma_v2.cpp:86-98 | of a valid index: every node but the root has between a and b entries, the root at least two unless it is a leaf |
| `IndexedPma.IndexedPMA.Insert` | pma/btree/btreepma_v2.cpp:445-535 | for the container with its whole index tree: tree, chain of leaves and array stay valid and the contents have exactly the new pair, before pairs with the same key |
| `IndexedPma.IndexedPMA.Find` | pma/btree/btreepma_v2.cpp:663-698 | through the tree, going right on equality: the value of some pair with the key, -1 exactly when there is none |
| `IndexedPma.IndexedPMA.FindRange` | pma/btree/btreepma_v2.cpp:700-737 | through the tree: the iterator is to deliver exactly the pairs with key in [min, max] |
| `IndexedPma.IndexedPMA.SumRange` | pma/btree/btreepma_v2.cpp:771-818 | through the tree: count, sums, first and last key of exactly the pairs in [min, max] |
| `Rewiring.SeenSwap` | rewired_memory.cpp:150-182 | exchanging two entries of a one-to-one map exchanges what is read at the two extents and nothing else |
| `Rewiring.SeenStore` | rewired_memory.cpp:150-153 | a store through one virtual extent is seen at no other: this is where the map must be one-to-one |
| `Rewiring.RewiredMemory.Swap` | rewired_memory.cpp:139-183 | the map stays a bijection; exactly the two named extents exchange contents; unaligned, unmapped or equal addresses are refused and change nothing |
| `Rewiring.RewiredMemory.Extend` | rewired_memory.cpp:186-202 | the old extents read the same and fresh ones follow; refused exactly beyond the maximum |
| `Buffering.SharedRelease` | buffered_rewired_memory.cpp:112-113 | giving a buffer back keeps the books right if and only if it had been handed out |
| `Buffering.ReleasedTwice` | buffered_rewired_memory.cpp:112-113 | releasing a buffer twice: it is then on the list twice, five entries for four extents |
| `Buffering.BufferedRewiredMemory.AddBuffers` | buffered_rewired_memory.cpp:61-74 | free plus held buffers are again exactly the extents behind the user's, without duplicates; the new ones are in front of the list, the last one first |
| `Buffering.BufferedRewiredMemory.AcquireBuffer` | buffered_rewired_memory.cpp:76-83 | the buffer at the end of the list, or the first of the new ones, which nobody holds; everything mapped before reads the same |
| `Buffering.BufferedRewiredMemory.SwapAndRelease` | buffered_rewired_memory.cpp:85-114 | exactly the named user extent and the buffer exchange contents; refused unless one address is a buffer's and one is not; the books stay right if and only if the buffer had been handed out |
| `Buffering.BufferedRewiredMemory.Extend` | buffered_rewired_memory.cpp:121-149 | exactly so many more user extents, memory added only beyond the buffers, the old extents reading the same and the list rebuilt; refused for zero, while buffers are held, or beyond the maximum |
| `Buffering.BufferedRewiredMemory.Shrink` | buffered_rewired_memory.cpp:151-165 | exactly so many user extents become buffers in front of the list, the others reading the same; refused for zero, while buffers are held, or for more than there are |
| `Buffering.Run` | buffered_rewired_memory.cpp:61-165 | over every sequence of calls by a client that releases only what it holds: the map is a bijection, the buffers are exactly the extents behind the user's, each free or held once, and the user has gained exactly what was granted |
| `ByteArrays.FirstBytes` | distribution/cbytearray.cpp:68-84 | the first w bytes of a number stand for it modulo 256^w |
| `ByteArrays.RoundTrip` | distribution/cbytearray.cpp:68-99 | a 64-bit value survives storage in w bytes if and only if w is 8 or it lies in [0, 256^w) |
| `ByteArrays.WidthLeast` | distribution/cbytearray.cpp:33-37 | the width is the least one that tells so many numbers apart |
| `ByteArrays.WidthHolds` | distribution/cbytearray.cpp:33-37 | the value the width is computed from fits itself if and only if it is not a power of 256 |
| `ByteArrays.CByteArray.Set` | distribution/cbytearray.cpp:86-99 | element `index` becomes what survives of the value, every other element stays |
| `ByteArrays.CByteArray.Get` | distribution/cbytearray.cpp:68-84 | reads the element |
| `ByteArrays.CByteArray.Create` | distribution/cbytearray.cpp:41-46 | exactly the widths from one to eight bytes are accepted |
| `ByteArrays.Merge` | distribution/cbytearray.cpp:131-161 | the concatenation of all arrays' values, missing arrays skipped; refused exactly when two widths differ |
| `RandomPermutation.Ranges` | distribution/random_permutation.cpp:191-200 | the tasks' ranges follow each other from 0 to size and differ by at most one in length, the longer ones first |
| `RandomPermutation.Throw` | distribution/random_permutation.cpp:170-203 | first phase, for every interleaving and every draw: each number below size is in exactly one bucket, the one drawn for it, and what a bucket holds does not depend on the interleaving |
| `RandomPermutation.Shuffle` | distribution/random_permutation.cpp:206-251 | second phase, for every interleaving and every draw: each bucket ends up as the swaps drawn for it make it |
| `RandomPermutation.OnceEach` | distribution/random_permutation.cpp:160-263 | numbers below size, each occurring once, are a permutation |
| `RandomPermutation.Compute` | distribution/random_permutation.cpp:160-263 | the result is one function of the numbers drawn, whatever the interleaving of the tasks, and a permutation of [0, size) |
| `RandomPermutation.ComputeRandomPermutationParallel` | distribution/random_permutation.cpp:160-263 | for every size from one on: a permutation of [0, size), stored in the computed number of bytes |
| `DenseDistributions.PlacedDense` | distribution/apma_distributions.hpp:130-184 | keys taken from pairwise different cells of disjoint runs are a bijection onto [1, N] |
| `DenseDistributions.BulkDense` | distribution/apma_distributions.hpp:130-184 | for every size, run length and order of slots, including the odd leftover slot, the keys are a bijection onto [1, N] |
| `DenseDistributions.BulkRuns` | distribution/apma_distributions.hpp:137-156 | the slots are disjoint runs in the drawn order with the odd one last on the list |
| `DenseDistributions.BulkDistribution.IsDense` | distribution/apma_distributions.hpp:130-157 | what the constructor builds is dense |
| `DenseDistributions.BulkDistribution.Create` | distribution/apma_distributions.hpp:131-157 | an empty distribution is refused, every other size gives a dense one with runs of the length asked for that go up, or down, by one |
| `DenseDistributions.BulkDistribution.KeyExactly` | distribution/apma_distributions.hpp:137-183 | the key of an index from the permutation of the slots alone: the place of its slot, shifted where the odd slot is before it, and the offset in it, from below or from above |
| `DenseDistributions.BulkDistribution.StepsWithin` | distribution/apma_distributions.hpp:176-183 | within a slot the next key is one higher for the forward distribution and one lower for the backward one, also in a part |
| `DenseDistributions.BulkDistribution.MakeView` | distribution/apma_distributions.hpp:186-190 | a part that would end behind the whole is refused; every other delivers the keys of the whole from its start on, with the same runs |
| `DenseDistributions.InterleavedDense` | distribution/apma_distributions.hpp:245-299 | for every size, number of streams and order, including uneven streams, the keys are a bijection onto [1, N] |
| `DenseDistributions.Inverse` | distribution/apma_distributions.hpp:256-261 | the inverse of the drawn permutation |
| `DenseDistributions.InterleavedRuns` | distribution/apma_distributions.hpp:263-271 | the streams are disjoint runs of the right length, laid out in the order of their places |
| `DenseDistributions.InterleavedDistribution.IsDense` | distribution/apma_distributions.hpp:246-272 | what the constructor builds is dense |
| `DenseDistributions.InterleavedDistribution.Create` | distribution/apma_distributions.hpp:246-272 | refused exactly without keys, without streams or with more streams than keys; otherwise dense, with streams that go up, or down, by one |
| `DenseDistributions.InterleavedDistribution.StepsWithin` | distribution/apma_distributions.hpp:292-299 | one round later the key of a stream is one higher, or one lower, also in a part |
| `DenseDistributions.InterleavedDistribution.MakeView` | distribution/apma_distributions.hpp:301-305 | a part that would end behind the whole is refused; every other delivers the keys of the whole from its start on |
| `DenseDistributions.NoiseDense` | distribution/apma_distributions.hpp:358-413 | the keys are a bijection onto [1, N], and those up to the threshold come in sequence |
| `DenseDistributions.Collect` | distribution/apma_distributions.hpp:373-378 | the positions of the numbers below the threshold, all of them and in order |
| `DenseDistributions.NoiseDistribution.IsDense` | distribution/apma_distributions.hpp:359-384 | what the constructor builds is dense |
| `InsDelStream.KeyParts` | distribution/idls_distributions.cpp:242-242 | while the counter is below 2^32, counter and draw can be read off the key |
| `InsDelStream.KeysDistinct` | distribution/idls_distributions.cpp:242-242 | for every number n of insertions: the keys differ for all draws if and only if n is at most 2^32 |
| `InsDelStream.KeysRepeat` | distribution/idls_distributions.cpp:242-242 | the input on which they do not: draw 1 with the counters 0 and 2^32 gives one key |
| `InsDelStream.SoundInsert` | distribution/idls_distributions.cpp:250-256 | a key numbered by the counter is new, so the stream stays legal and the tree holds what replaying it leaves |
| `InsDelStream.AgreesDelete` | distribution/idls_distributions.cpp:279-281 | a deletion names a live key, and the tree still holds what replaying the stream leaves |
| `InsDelStream.PickedBy` | distribution/idls_distributions.cpp:264-271 | what the search in the tree finds for a number drawn is the least live key not below the number in the upper half, or the greatest live key if there is none |
| `InsDelStream.Builder.GenerateInitialInserts` | distribution/idls_distributions.cpp:239-248 | as many insertions as the initial size |
| `InsDelStream.Builder.Victim` | distribution/idls_distributions.cpp:264-271 | a live key: the first one not below the drawn number, or the greatest |
| `InsDelStream.Builder.GenerateDel` | distribution/idls_distributions.cpp:258-289 | so many deletions, fewer only if the tree runs empty, each of the live key that the number drawn for it comes down to |
| `InsDelStream.Builder.GenerateInsDel` | distribution/idls_distributions.cpp:291-312 | the least number of groups that reaches the total, each its insertions and then its deletions; back at the initial size if that is asked for; which operations are insertions, and how many, is a function of the settings alone |
| `InsDelStream.Builder.Generate` | distribution/idls_distributions.cpp:239-312 | which operations are insertions is known from the settings beforehand, and the inserted keys are those of as many draws; if there are at most 2^32 of them, all are different, every deletion is of the live key that the number drawn for it comes down to, and replaying the stream leaves the keys of the tree; it ends at the initial size if asked to |
| `InsDelStream.GeneratePrefixSum` | distribution/idls_distributions.cpp:314-333 | every live key in order with the sum of the keys up to it |
| `InsDelStream.GenerateLookups` | distribution/idls_distributions.cpp:335-348 | the live keys at the positions drawn; none when nothing is live |
| `InsDelStream.ScanFits` | distribution/idls_distributions.cpp:364-377 | for every outcome of the draw the scan lies inside the keys, if and only if there are at least two keys |
| `InsDelStream.GenerateScanRanges` | distribution/idls_distributions.cpp:350-386 | each range starts at the position drawn, never the first one, covers the requested number of live keys, and its expected sum is the sum of the live keys in it |

## Left out

- `AbTree.ABTree.FindValue`: on a tree with b = 2a - 1, which is not valid, nothing is stated about this or the other operations; see `Trees.SplitHalves`.
- `AbTree.ABTree.Remove`: the interval removal `remove(min, max)` is not modelled; it frees whole subtrees without relinking the leaves and needs larger rotations.
- `TreeRange.Sum`: first and last key of an empty range are stated as the code reports them; the interface leaves them undefined (pma/interface.hpp:47-48).
- `AbTree.ABTree.FromArray`: requires 2a <= b. std::sort is some order by key of the same pairs (an insertion sort stands in).
- `TreeLoad.InitializeFromArray`: the number of levels, computed in floating point, is a parameter. With too few levels the code reads in front of its array of levels and with too many it may keep a null root; the model then has no root, and what the source does with such memory is not described.
- `AbTree.ABTree.Permute`: the permutations are parameters; in the source they are computed after the visit that lists the nodes. Whether inner nodes and leaves have the same size is a parameter. `AbTree.ABTree.PermuteRandomly` is for at most 2^63 nodes.
- `AbTree.ABTree.Insert`: among pairs with the same key the new one is put at some sorted place; it is the place behind them in the leaf that `TreeInsert.LeafInsert` is led to.
- `TreeRelocate.RedirectAndCopy`: addresses are numbers and a node is one record with its links, not bytes.
- `TreeInsert.Split`: node arrays are sequences; block copies within and between nodes are slices. The rotations and leaf shifts go entry by entry.
- `TreeInsert.InsertInto`: the loop over the inner nodes is recursion, one call for each level; likewise `TreeRemove.RemoveFrom`.
- `ClusteredPma.BTreePMA.Insert`: keys are distinct, because index entries are removed by key alone (pma/btree/btreepma_v4.cpp:269-273, 344-346).
- `ClusteredPma.BTreePMA.Rebalance`: keys are distinct, as for insert; likewise `ClusteredPma.BTreePMA.SpreadWindow`.
- `ClusteredPma.BTreePMA.FindSegment`: the DynamicIndex is a map from separator to segment, both of its searches giving the greatest separator not above the key; its nodes are not modelled.
- `ClusteredPma.BTreePMA.constructor`: uninitialised cells are arbitrary; theta_h is at least 1/4, as for `ClusteredPma.BTreePMA.Resize`. What is done to an array whose size is not a power of two, and which therefore has fewer cells than its capacity, is not described.
- `PmaRuns.InsertAll`: the segment size is a power of two, see `ClusteredPma.CellsEnough`.
- `InPlaceSpread.CopyCells`: memcpy is a copy of one element after the other in ascending order. In the redistribution (pma/btree/btreepma_v4.cpp:481-482) the two ranges may overlap, which memcpy leaves undefined.
- `ClusteredPma.BTreePMA.Resize`: theta_h is at least 1/4 (the default is 0.75), so that no segment is empty afterwards.
- `DensityBounds.CachedDensityBounds.Thresholds`: doubles are reals.
- `DensityBounds.Checked`: rho_h may equal theta_h, as the code has it; the comment above it (pma/density_bounds.cpp:41) asks for rho_h < theta_h.
- `DynamicPma.BTreePMA.Insert`: keys are not negative, which the source asserts (pma/btree/btreepma_v2.cpp:651): a negative key marks an empty cell. The chain of index leaves is one sequence of pointers, counts and separators here; `IndexedPma` has the tree above it.
- `DynamicPma.BTreePMA.InsertStorage`: keys are not negative, as for insert.
- `IndexedPma.IndexedPMA.Insert`: nodes are values, block copies are slices, links are the order of the chain, and the pointers rewritten along the chain are put into the leaves after the array is done with them; the 16-bit width of the counts is not modelled. The search for the entry and the way back up with the splits are two descents, one recursion in the source.
- `DynamicPma.BTreePMA.Resize`: the cursor also moves on after the last element; the source leaves it there and reads nothing more.
- `Rewiring.RewiredMemory.Swap`: mmap, ftruncate and memfd succeed; extents are abstract cells and addresses numbers.
- `Buffering.BufferedRewiredMemory.SwapAndRelease`: who holds which buffer is known to the specification only; the code does not check it.
- `RandomPermutation.ComputeRandomPermutationParallel`: size 0 divides by zero in the source and is excluded; sizes are at most 2^63; draws are arbitrary numbers in range.
- `ByteArrays.CByteArray.constructor`: a new array holds zeros; in the source its bytes are not initialised.
- `DenseDistributions.NoiseDistribution.constructor`: arguments the source refuses with an exception are excluded, here and in the rewired memory; the other constructors have a `Create` that refuses them.
- `ByteArrays.WidthLeast`: the doubles of the logarithm are exact.
- `DenseDistributions.BulkDistribution.constructor`: the rounded power of the size, computed in floating point, is a parameter; so is the threshold of the noise distribution. The `int` entries of the reordering arrays are not bounded.
- `InsDelStream.Builder.Generate`: keys are unbounded integers; a draw of 2^31 or more overflows 64 bits in the source. Draws come from [1, range]; the sequential and zipf choices are draws in that range.
- `InsDelStream.GenerateScanRanges`: the share of the keys, computed in floating point, is a parameter; with a single key the source reads behind the prefixes, see `InsDelStream.ScanFits`.
- `RangeScan.AggregateSum`: sums are unbounded; 64-bit overflow is not modelled, here and in the other sums.
- memory pool, circular array, dense array, StaticIndex, the adaptive arrays and the wrappers over other trees: not modelled.
- zipf and Vitter sampling, seeds and statistical quality, configuration, drivers, statistics and dumps: not modelled.
