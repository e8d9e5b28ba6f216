# Verified model of nearest-neighbour index structures

A collection of nearest-neighbour indexes shares a handful of intricate algorithms over
mutable state. This project models six of them in Dafny and proves what they are meant to
guarantee, for every input and every run.

- **OPQ inverted multi-index** (`Multitable.dfy`, `OrderedListsMerger.dfy`, `Indexer.dfy`,
  `Searcher.dfy`): the cells of a grid of sorted lists are enumerated lazily in order of
  their sums. The enumeration is sorted, complete and free of repeats; the record array is
  a permutation of the points by cells; a query is a prefix of the points in merge order.
- **KGraph / DPG** (`KnnPool.dfy`, `GraphSearch.dfy`, `NnDescent.dfy`,
  `GraphDiversity.dfy`, `Recall.dfy`): sorted pools, best-first search whose every
  expansion is accounted for, rounds of unlocked tests and locked updates in any interleaving, cutting and
  reversing edges, and the recall merge.
- **Interval heap** (`IntervalHeap.dfy`): a double-ended priority queue in one vector, and
  the bounded heap on top of it.
- **QALSH** (`BNode.dfy`, `BTree.dfy`, `PageCursor.dfy`, `Collision.dfy`): pages of the
  disk B-tree byte by byte, bulk loading level by level, the descent of a query, the two
  cursors of a tree, and collision counting over all trees.
- **Hierarchical clustering** (`Clustering.dfy`, `ClusterSearch.dfy`): in-place
  partitioning into a tree, and best-bin-first search, turn by turn, with a bounded queue
  and result set.
- **Annoy** (`Annoy.dfy`): trees in a growing node array, recovery of the roots from a
  saved array, and a search in the order of the least margins that agrees with a linear
  scan when its budget does not bind.

Objects that the program updates in place are classes with `modifies` clauses; each method
is tied to a specification function or predicate, and the lemmas state what follows for
whole runs. Distances are mathematical numbers and random choices are inputs. Four small
modules are shared: `Wrappers.dfy`, `Distinct.dfy`, `Sorting.dfy`, `Selection.dfy`.

Where the code does not do what one would expect of it, the model follows the code; one
lemma says exactly when it does, and another gives an input for which it does not:

- `RecoveredIff` and `ThreeRootsForTwoTrees` for the roots found after loading an Annoy file;
- `AddTree` and `OneItemForever` for building Annoy trees without a given number of them;
- `SymmetricIff` and `OneWayStays` for the graph after edges are reversed;
- `BlanksStayLast` and `BlankInFront` for a short answer that is reranked;
- `DistinctIff` and `HeldTwice` for UpdateKnnList, whose comment promises to report every
  held id while the code looks at entries of equal distance only;
- `MergeCorrect` and `UnstableRow` for the exception of the recall merge.

`dafny verify dfyconfig.toml` checks the whole project.

## Model

| member | source | states |
|---|---|---|
| Multitables.CellAtOffset | algorithms/OPQ/src/multitable.hpp:61-72 | Every cell is recovered from its row-major rank by division and remainder. |
| Multitables.OffsetCellAt | algorithms/OPQ/src/multitable.hpp:61-72 | Every rank below the table size is the rank of a cell of the grid: with the row above, a bijection. |
| Multitables.OffsetOrder | algorithms/OPQ/src/multitable.hpp:61-72 | Global indices follow the order of the cells, the first coordinate the most significant one. |
| Multitables.OffsetInjective | algorithms/OPQ/src/multitable.hpp:61-72 | Two cells with one global index are the same cell. |
| Multitables.OvershootBounds | algorithms/OPQ/src/ordered_lists_merger.h:99-114 | A coordinate one past its width still addresses the table while an earlier one is stepped back from inside the grid. |
| Multitables.Multitable.GetCellGlobalIndex | algorithms/OPQ/src/multitable.hpp:61-72 | The repeated division computes exactly the rank of the cell; empty indices are the error. |
| Multitables.Multitable.Resize | algorithms/OPQ/src/multitable.hpp:75-82 | The table has one entry per cell, keeps the entries that were there and pads with the value. |
| Multitables.Multitable.GetValue | algorithms/OPQ/src/multitable.hpp:96-99 | Reads the entry of the cell's rank; out of the table is the error of vector::at. |
| Multitables.Multitable.SetValue | algorithms/OPQ/src/multitable.hpp:90-93 | Writing one cell changes that cell and no other cell. |
| OrderedListsMergers.FrontierBelow | algorithms/OPQ/src/ordered_lists_merger.h:99-130 | Below every unyielded cell there is a frontier cell, so an empty queue means every cell was yielded. |
| OrderedListsMergers.SumConcat | algorithms/OPQ/src/ordered_lists_merger.h:78-84 | The sum of a cell over two groups of lists is the sum over each; over one list it is the order picked there. |
| OrderedListsMergers.FrontierStep | algorithms/OPQ/src/ordered_lists_merger.h:117-130 | Yielding a frontier cell and adding its ready successors gives the frontier again; the yielded set stays closed under predecessors. |
| OrderedListsMergers.HeapMinimum | algorithms/OPQ/src/ordered_lists_merger.h:117-122 | The first entry of the multimap is no greater than any unyielded cell, inside or outside the queue. |
| OrderedListsMergers.InsertSuccessor | algorithms/OPQ/src/ordered_lists_merger.h:113-128 | A successor goes behind the entry being yielded, so erasing the first entry removes exactly that one. |
| OrderedListsMergers.OfferSuccessor | algorithms/OPQ/src/ordered_lists_merger.h:99-127 | After each successor the queue holds the old frontier and the ready successors offered so far, no cell twice. |
| OrderedListsMergers.PredecessorLookup | algorithms/OPQ/src/ordered_lists_merger.h:99-107 | The lookup of a predecessor stays inside the table even for a successor that left the grid. |
| OrderedListsMergers.HistoryBounded | algorithms/OPQ/src/ordered_lists_merger.h:117-130 | No run yields more cells than the grid has. |
| OrderedListsMergers.ExhaustedHistory | algorithms/OPQ/src/ordered_lists_merger.h:117-130 | A run until false has yielded every cell of the grid exactly once, in nondecreasing order of sums. |
| OrderedListsMergers.OrderedListsMerger.SetLists | algorithms/OPQ/src/ordered_lists_merger.h:87-96 | The enumeration starts over: nothing yielded, the all-zero cell queued. |
| OrderedListsMergers.OrderedListsMerger.InsertMergedItemIndicesInHeap | algorithms/OPQ/src/ordered_lists_merger.h:78-84 | The cell is queued under the sum of the orders it selects, behind equal sums. |
| OrderedListsMergers.OrderedListsMerger.UpdatePriorityQueue | algorithms/OPQ/src/ordered_lists_merger.h:99-114 | A successor enters the queue exactly when it is in the grid and all its predecessors are yielded; its vector is restored. |
| OrderedListsMergers.OrderedListsMerger.OfferSuccessors | algorithms/OPQ/src/ordered_lists_merger.h:123-127 | All successors of the yielded cell are offered and the yielded coordinates are left unchanged. |
| OrderedListsMergers.OrderedListsMerger.GetNextMergedItemIndices | algorithms/OPQ/src/ordered_lists_merger.h:117-130 | Yields an unyielded cell of least sum and records it; false only when every cell was yielded. |
| MultiIndexers.LayoutIsPermutation | algorithms/OPQ/src/indexer.h:519-532 | The layout by cells is a permutation of all point ids. |
| MultiIndexers.LayoutSlice | algorithms/OPQ/src/indexer.h:519-532 | The range between two consecutive edges holds exactly the points of that cell, in id order. |
| MultiIndexers.EdgeOrder | algorithms/OPQ/src/indexer.h:519-532 | The range of a cell ends before that of every later cell begins. |
| MultiIndexers.SlotsDisjoint | algorithms/OPQ/src/indexer.h:574-577 | No two points are written to the same slot. |
| MultiIndexers.BucketNext | algorithms/OPQ/src/indexer.h:574-579 | The write count of a cell is the place of the next point in its range. |
| MultiIndexers.FilledIsLayout | algorithms/OPQ/src/indexer.h:551-605 | When all points are placed, the record array is the layout. |
| MultiIndexers.MultiIndexer.CountPointsInCells | algorithms/OPQ/src/indexer.h:454-477 | Each cell's count is the number of points quantized to it. |
| MultiIndexers.MultiIndexer.ConvertPointsInCellsCountToCellEdges | algorithms/OPQ/src/indexer.h:519-532 | Every edge is the number of points in the cells before; the counts are cleared. |
| MultiIndexers.MultiIndexer.FillMultiIndexForSubset | algorithms/OPQ/src/indexer.h:551-582 | A further range of points is placed behind the points written before, at their own slots. |
| MultiIndexers.MultiIndexer.FillMultiIndex | algorithms/OPQ/src/indexer.h:585-605 | With one thread every cell's range holds exactly its points in id order, and all points are there. |
| MultiSearchers.CoordinatesInjective | algorithms/OPQ/src/searcher.h:334-340 | Different merged items stand for different cells of the table. |
| MultiSearchers.GatheredMembers | algorithms/OPQ/src/searcher.h:324-364 | The points gathered are those of the yielded cells, none of them twice. |
| MultiSearchers.LeftOutFarther | algorithms/OPQ/src/searcher.h:324-364 | A point that was not gathered lies in a cell whose sum is no smaller than that of any traversed cell. |
| MultiSearchers.PointOrder | algorithms/OPQ/src/searcher.h:324-364 | Of two points gathered, the sum of the orders at the places where the short lists hold the centroids of the earlier one is no greater than that of the later one. |
| MultiSearchers.BlanksStayLast | algorithms/OPQ/src/searcher.h:371-400 | Sorting the whole answer leaves the neighbours found in its first places if and only if k points were gathered or none of them sorts behind a blank entry. |
| MultiSearchers.ShortAnswer | algorithms/OPQ/src/searcher.h:371-400 | With distances of at least 0: exactly when k points were gathered, or none but point 0 at distance 0. |
| MultiSearchers.BlankInFront | algorithms/OPQ/src/searcher.h:371-400 | Point 7 at distance 1 and two asked for: the reranked answer is the blank entry, then the point. |
| MultiSearchers.MultiSearcher.GetCellEdgesInMultiIndexArray | algorithms/OPQ/src/searcher.h:312-321 | The half-open range of a cell holds exactly the records of its points, the last cell included. |
| MultiSearchers.MultiSearcher.NextCell | algorithms/OPQ/src/searcher.h:327-337 | The next cell in merge order, its coordinates the centroid ids that the cell picks in the short lists, adds its points behind those gathered; false only when no cell is left. |
| MultiSearchers.MultiSearcher.AppendRecords | algorithms/OPQ/src/searcher.h:346-363 | The records of a cell are copied behind the others until the answer is full. |
| MultiSearchers.MultiSearcher.TraverseNextMultiIndexCell | algorithms/OPQ/src/searcher.h:324-364 | One more cell, empty or not: the answer stays the prefix of the gathered points. |
| MultiSearchers.MultiSearcher.GetNearestNeighbours | algorithms/OPQ/src/searcher.h:368-404 | The loop ends; the answer is the first min(k, gathered) points in merge order, with their distances and without repeats, then blanks; no cell left out has a smaller sum than one traversed; it is short of k only when it has every available point; reranking sorts it by distance, then id, blanks included. |
| IntervalHeaps.RootIsExtreme | algorithms/AGH/src/heap.h:257-302 | The ends of the root are the least and the greatest element of an interval heap. |
| IntervalHeaps.LowInserted | algorithms/AGH/src/heap.h:213-227 | Sifting a low value up leaves an interval heap with exactly that value more. |
| IntervalHeaps.HighInserted | algorithms/AGH/src/heap.h:228-242 | The same for a value that belongs on a right end. |
| IntervalHeaps.SinkLeftOrder | algorithms/AGH/src/heap.h:273-285 | A level of the descent of popMin keeps parents around children and left ends below right ends. |
| IntervalHeaps.SinkLeftContents | algorithms/AGH/src/heap.h:273-285 | A level of the descent of popMin neither loses nor doubles an element, the swap across the sides included. |
| IntervalHeaps.SinkRightOrder | algorithms/AGH/src/heap.h:318-330 | A level of the descent of popMax keeps the interval order. |
| IntervalHeaps.SinkRightContents | algorithms/AGH/src/heap.h:318-330 | A level of the descent of popMax neither loses nor doubles an element. |
| IntervalHeaps.DropLeft | algorithms/AGH/src/heap.h:257-267 | Taking the last element out, its copy on an odd node or its partner included, leaves a heap with that element less. |
| IntervalHeaps.DropRight | algorithms/AGH/src/heap.h:302-312 | The same for popMax. |
| IntervalHeaps.IntervalHeap.constructor | algorithms/AGH/src/heap.h:147-150 | An empty heap of this capacity. |
| IntervalHeaps.IntervalHeap.Insert | algorithms/AGH/src/heap.h:177-243 | The heap gains exactly the value, unless it is full and stays as it is; its order is kept. |
| IntervalHeaps.IntervalHeap.PopMin | algorithms/AGH/src/heap.h:251-288 | Returns an element no greater than any other and removes exactly one occurrence of it; false exactly when empty. |
| IntervalHeaps.IntervalHeap.PopMax | algorithms/AGH/src/heap.h:296-333 | Returns an element no less than any other and removes exactly one occurrence of it; false exactly when empty. |
| IntervalHeaps.IntervalHeap.GetMin | algorithms/AGH/src/heap.h:336-343 | A least element, without removing it. |
| IntervalHeaps.IntervalHeap.GetMax | algorithms/AGH/src/heap.h:346-353 | A greatest element, without removing it. |
| IntervalHeaps.IntervalHeap.Clear | algorithms/AGH/src/heap.h:172-175 | The heap is empty. |
| Selections.DropGreatest | algorithms/AGH/src/heap.h:395-401 | Replacing a greatest kept element by a smaller offer keeps the smallest of all offers. |
| Selections.DropOffered | algorithms/AGH/src/heap.h:395-398 | Rejecting an offer above all kept elements keeps the smallest of all offers. |
| IntervalHeaps.BoundedHeap.Insert | algorithms/AGH/src/heap.h:393-402 | Under inserts the heap always holds exactly the capacity smallest of the values offered. |
| IntervalHeaps.BoundedHeap.PopMin | algorithms/AGH/src/heap.h:404-407 | Returns and removes a least held value. |
| Clusterings.UniqueRandom.Next | algorithms/AGH/src/random.h:91-99 | Draws the values of the shuffle one after another, then -1 for ever. |
| Clusterings.PermutationCovers | algorithms/AGH/src/random.h:72-99 | Every index is drawn before -1 is. |
| Clusterings.ChooseCenters | algorithms/AGH/src/center_chooser.h:31-58 | The centres are indices of the node at pairwise nonzero distances, drawn in the order of the shuffle: every draw passed over coincides with a centre drawn before it; fewer than asked for only when every index coincides with one of them. |
| Clusterings.CenterLabelsItself | algorithms/AGH/src/hierarchical_clustering_index.h:169-182 | A centre at a nonzero distance from all others labels itself. |
| Clusterings.ComputeLabels | algorithms/AGH/src/hierarchical_clustering_index.h:169-182 | Every index gets the first of its nearest centres. |
| Clusterings.GroupHasCenter | algorithms/AGH/src/hierarchical_clustering_index.h:217-236 | Every group holds its own centre and misses another one: not empty and strictly smaller than the node. |
| Clusterings.GroupingSwap | algorithms/AGH/src/hierarchical_clustering_index.h:223-229 | A swap puts the next index of label i behind the ones already grouped and breaks no group before it. |
| Clusterings.GroupLabel | algorithms/AGH/src/hierarchical_clustering_index.h:223-229 | The swap loop brings exactly the indices of label i together, behind the groups before, and permutes only the node's range. |
| Clusterings.GroupedNext | algorithms/AGH/src/hierarchical_clustering_index.h:222-237 | After a child is built, labels still fit the permuted indices and the children hold exactly the points grouped so far. |
| Clusterings.PermutedInside | algorithms/AGH/src/hierarchical_clustering_index.h:235-236 | Permuting the range of a child permutes the range of its parent and nothing else. |
| Clusterings.ComputeClustering | algorithms/AGH/src/hierarchical_clustering_index.h:184-238 | Terminates; every index of the range is in exactly one leaf; each inner node has leafMax points or more and branching children, each with its centre and exactly the points nearest to it; leaves are small or cannot be split. |
| Clusterings.BuildIndex | algorithms/AGH/src/hierarchical_clustering_index.h:79-100 | No tree below branching 2; otherwise every tree has every point exactly once. |
| ClusterSearches.PendingBound | algorithms/AGH/src/hierarchical_clustering_index.h:271-275 | Pending branches have disjoint subtrees that are not empty, so there are no more of them than points. |
| ClusterSearches.QueueHasRoom | algorithms/AGH/src/heap.h:83-94 | The queue of size many places never drops a branch of a one-tree search. |
| ClusterSearches.PointNew | algorithms/AGH/src/hierarchical_clustering_index.h:251-259 | A point about to be scanned was not checked before. |
| ClusterSearches.PendingRemove | algorithms/AGH/src/heap.h:105-118 | Popping a branch takes exactly the points below it out of what is pending. |
| ClusterSearches.Heap.Insert | algorithms/AGH/src/heap.h:83-94 | A full queue ignores the branch, any other holds it. |
| ClusterSearches.Heap.PopMin | algorithms/AGH/src/heap.h:105-118 | Takes out a branch of least distance; false exactly when empty. |
| ClusterSearches.ResultSet.AddPoint | algorithms/AGH/src/result_set.h:75-99 | The set keeps the capacity nearest of all points offered below the greatest int, and never takes one at it; once full it stays full. |
| ClusterSearches.ResultSet.Copy | algorithms/AGH/src/result_set.h:108-119 | Indices and distances of all results kept. |
| ClusterSearches.Search.ScanLeaf | algorithms/AGH/src/hierarchical_clustering_index.h:251-259 | Every point of the leaf is checked, exactly once; the number of checks is the number of checked points. |
| ClusterSearches.Search.VisitLeaf | algorithms/AGH/src/hierarchical_clustering_index.h:245-260 | A leaf is scanned, or given up only with a full result and the budget spent. |
| ClusterSearches.Search.NearestChild | algorithms/AGH/src/hierarchical_clustering_index.h:262-270 | The first of the children whose pivots are nearest. |
| ClusterSearches.Search.QueueOthers | algorithms/AGH/src/hierarchical_clustering_index.h:271-275 | Behind the old branches stand, in order, all children except the best one, each waiting at the distance of its pivot to the query. |
| ClusterSearches.Search.FindNN | algorithms/AGH/src/hierarchical_clustering_index.h:242-279 | One descent, each step to the first child with the nearest pivot and the others queued at their pivot distances, to a leaf whose points are checked unless the budget is spent on a full result; points pending, searched, checked and given up always make up the tree. |
| ClusterSearches.Search.FindNeighbors | algorithms/AGH/src/hierarchical_clustering_index.h:283-303 | Terminates; there is a run of descents, first from the root and then each from a branch whose pivot is no farther than that of any other pending branch, until none is left or the budget is spent on a full result; all points were checked, or at least maxChecks of them. |
| ClusterSearches.TurnKeepsPivots | algorithms/AGH/src/hierarchical_clustering_index.h:271-275 | Whatever is descended, every pending branch waits at the distance of its pivot to the query. |
| ClusterSearches.PopsNearest | algorithms/AGH/src/hierarchical_clustering_index.h:296-300 | A branch of least waiting distance is one with a nearest pivot. |
| ClusterSearches.HitsNearest | algorithms/AGH/src/result_set.h:75-99 | The kept results are the nearest of the checked points, each point once. |
| ClusterSearches.HitsCount | algorithms/AGH/src/hierarchical_clustering_index.h:318-325 | There are min(knn, size) results whatever the budget is. |
| ClusterSearches.ExactAnswer | algorithms/AGH/src/hierarchical_clustering_index.h:283-325 | With maxChecks of at least size the results are the nearest of all points. |
| ClusterSearches.KnnSearch | algorithms/AGH/src/hierarchical_clustering_index.h:308-330 | Every query gets min(knn, size) results, the nearest of the points that a best-bin-first run has checked; those are all points or at least maxChecks of them; the count is the total of the results. |
| BNodes.CapacityFits | algorithms/QALSH/src/b_node.cpp:473-516 | For a page with at least 100 entries the key places suffice for all segments, a full leaf and a full index node fit the page. |
| BNodes.SegmentStart | algorithms/QALSH/src/b_node.cpp:739-760 | A key is stored exactly for the entries whose number is a multiple of 1024. |
| BNodes.AppendEntry | algorithms/QALSH/src/b_node.cpp:739-760 | The ids and the sparse keys after one more entry. |
| BNodes.BLeafNode.AddNewChild | algorithms/QALSH/src/b_node.cpp:739-760 | num_keys stays the entries divided by 1024 rounded up, sparse key j the key of entry 1024 j, and the key array never overflows. |
| BNodes.BLeafNode.WriteToBuffer | algorithms/QALSH/src/b_node.cpp:612-649 | The page begins with header, key count, all key places and the ids, at these offsets. |
| BNodes.BLeafNode.ReadFromBuffer | algorithms/QALSH/src/b_node.cpp:572-609 | Every valid field that was written is read. |
| BNodes.ReloadLeaf | algorithms/QALSH/src/b_node.cpp:452-563 | A leaf deleted and restored has the same fields: a round trip through its page. |
| BNodes.LeafLayout | algorithms/QALSH/src/b_node.cpp:612-649 | Byte offsets of a leaf page: level at 0, entries at 1, siblings at 5 and 9, key count at 13, keys from 17, ids behind them. |
| BNodes.RealAt | algorithms/QALSH/src/b_node.cpp:592-600 | The j-th key stands at its offset behind the ones before it. |
| BNodes.IntAt | algorithms/QALSH/src/b_node.cpp:602-609 | The j-th id stands at its offset behind the ones before it. |
| BNodes.PairAt | algorithms/QALSH/src/b_node.cpp:315-322 | The j-th key and son of an index node stand side by side at their offset. |
| BNodes.BIndexNode.AddNewChild | algorithms/QALSH/src/b_node.cpp:415-430 | Key and son are appended. |
| BNodes.BIndexNode.FindPositionByKey | algorithms/QALSH/src/b_node.cpp:356-368 | The last position whose key is at most the search key, -1 exactly when there is none. |
| BNodes.BIndexNode.WriteToBuffer | algorithms/QALSH/src/b_node.cpp:325-350 | The page begins with the header and the keys and sons in turn. |
| BNodes.BIndexNode.ReadFromBuffer | algorithms/QALSH/src/b_node.cpp:298-322 | Every valid field that was written is read. |
| BNodes.ReloadIndex | algorithms/QALSH/src/b_node.cpp:191-282 | An index node deleted and restored has the same fields. |
| BNodes.IndexLayout | algorithms/QALSH/src/b_node.cpp:325-350 | Byte offsets of an index page: the header, then pairs of key and son from 13, eight bytes each. |
| BTrees.BTree.Init | algorithms/QALSH/src/b_tree.cpp:33-61 | A file with one empty index node, or the capacity error. |
| BTrees.BTree.DeleteLeaf | algorithms/QALSH/src/b_node.cpp:452-470 | The block of a deleted leaf holds what the leaf held; no other block changes. |
| BTrees.BTree.BuildLeaves | algorithms/QALSH/src/b_tree.cpp:156-192 | The leaves are one contiguous range of blocks with all entries in order, full except the last, each linked to its neighbours. |
| BTrees.BTree.BuildLevel | algorithms/QALSH/src/b_tree.cpp:201-247 | An index level is the next contiguous range of blocks; its nodes list the level below in order with the first keys of the children. |
| BTrees.FewerNodes | algorithms/QALSH/src/b_tree.cpp:201-253 | A level has fewer nodes than the one below it, so that the building of levels terminates. |
| BTrees.StoreLeaf | algorithms/QALSH/src/b_tree.cpp:164-186 | Storing a full leaf with its right sibling extends the row of finished leaves. |
| BTrees.StoreIndex | algorithms/QALSH/src/b_tree.cpp:222-242 | Storing a full index node with its right sibling extends the row of finished nodes and leaves the children as they are. |
| BTrees.NextRows | algorithms/QALSH/src/b_tree.cpp:201-254 | A finished level joins the levels below it, which stay as they were. |
| BTrees.BTree.Bulkload | algorithms/QALSH/src/b_tree.cpp:129-254 | All levels are as described up to a single root; an empty table keeps the initial root; a page too small is the error. |
| PageCursors.RowAscending | algorithms/QALSH/src/qalsh.cpp:670-694 | Sorted hash values give ascending keys on every level. |
| PageCursors.SegOrder | algorithms/QALSH/src/b_node.cpp:739-760 | Segments of all leaves are disjoint and in table order. |
| PageCursors.SparseKey | algorithms/QALSH/src/b_node.cpp:739-760 | A sparse key of a stored leaf is the key of the first entry of its segment. |
| PageCursors.NoBranch | algorithms/QALSH/src/qalsh.cpp:672-687 | No key up to q in a node means the root, or the leftmost path already taken: the error "No branch found" cannot be reported. |
| PageCursors.FollowedLocated | algorithms/QALSH/src/qalsh.cpp:670-694 | Following the last key up to q keeps the node the last one of its level with a first key up to q. |
| PageCursors.FollowBranch | algorithms/QALSH/src/qalsh.cpp:670-694 | One level of the descent, the leftmost path included. |
| PageCursors.FindLeaf | algorithms/QALSH/src/qalsh.cpp:658-710 | For every key the descent reaches the last leaf whose first key is at most q, or the leftmost leaf if there is none. |
| PageCursors.BulkloadedIsLoaded | algorithms/QALSH/src/b_tree.cpp:129-254 | A table larger than one leaf gives a tree that can be queried. |
| PageCursors.LocatedSplit | algorithms/QALSH/src/qalsh.cpp:725-743 | The last sparse segment whose first key is at most q ends where the keys pass q. |
| PageCursors.InitBuffer | algorithms/QALSH/src/qalsh.cpp:642-780 | The left cursor ends and the right cursor begins at one entry: segments before it start with keys up to q, those from it with greater ones. |
| PageCursors.UpdateLeftBuffer | algorithms/QALSH/src/qalsh.cpp:864-905 | The left cursor moves to the segment that ends where its own begins, across leaves too; none before entry 0. |
| PageCursors.UpdateRightBuffer | algorithms/QALSH/src/qalsh.cpp:908-958 | The right cursor moves to the segment that begins where its own ends; none after the last entry. |
| Collisions.TakeLeft | algorithms/QALSH/src/qalsh.cpp:515-547 | Scanning the left segment when it is no farther than the right one takes a segment no farther than any unscanned one, so distances never decrease. |
| Collisions.TakeRight | algorithms/QALSH/src/qalsh.cpp:548-579 | The same for the right segment when the left one is farther. |
| Collisions.NothingWithin | algorithms/QALSH/src/qalsh.cpp:515-583 | When neither branch is taken, no unscanned segment of the tree lies within the bucket width. |
| Collisions.WholeSegments | algorithms/QALSH/src/qalsh.cpp:515-579 | The scanned entries of a tree are whole segments between its two cursors. |
| Collisions.CountsNext | algorithms/QALSH/src/qalsh.cpp:522-525 | Scanning one more entry counts its object once more and no other object. |
| Collisions.CollidedUpdate | algorithms/QALSH/src/qalsh.cpp:522-525 | Growing the window of one tree changes the count of an object only by that tree. |
| Collisions.Query.CountEntry | algorithms/QALSH/src/qalsh.cpp:522-545 | Frequency is the number of trees that have scanned the object; frequent objects are distance-checked, each once. |
| Collisions.Query.Verify | algorithms/QALSH/src/qalsh.cpp:527-543 | The distance of an object is computed when it first exceeds the threshold; the search stops with the last candidate. |
| Collisions.Query.ScanLeft | algorithms/QALSH/src/qalsh.cpp:519-546 | The segment is scanned from its last entry to its first, up to a stop. |
| Collisions.Query.ScanRight | algorithms/QALSH/src/qalsh.cpp:552-578 | The segment is scanned from its first entry to its last, up to a stop. |
| Collisions.Query.GoLeft | algorithms/QALSH/src/qalsh.cpp:515-547 | The nearest segment is scanned and the left cursor moves on; the window of the tree grows by it. |
| Collisions.Query.GoRight | algorithms/QALSH/src/qalsh.cpp:548-579 | The nearest segment is scanned and the right cursor moves on. |
| Collisions.TrailNext | algorithms/QALSH/src/qalsh.cpp:515-579 | A nearest unscanned segment continues the order of scanning: no segment twice, distances never decrease, nothing left is nearer than the last. |
| Collisions.Query.ScanNearestLeft | algorithms/QALSH/src/qalsh.cpp:515-546 | Scanning at the left cursor keeps every tree's segments in order of distance. |
| Collisions.Query.ScanNearestRight | algorithms/QALSH/src/qalsh.cpp:548-578 | The same at the right cursor. |
| Collisions.Query.ScanTree | algorithms/QALSH/src/qalsh.cpp:492-585 | One step of a tree: it scans a segment or is done for the round. |
| Collisions.Query.Sweep | algorithms/QALSH/src/qalsh.cpp:491-587 | A sweep visits the trees that are not done in their order, each for one step, and stops behind a tree only when the round is over; it makes progress. |
| Collisions.Query.Round | algorithms/QALSH/src/qalsh.cpp:479-587 | A round terminates and has scanned exactly the segments nearer than the greatest width so far, unless the last candidate was found. |
| Collisions.SeenIffNear | algorithms/QALSH/src/qalsh.cpp:515-579 | The objects scanned in a tree are those in segments whose first key is within the width. |
| Collisions.CollidedIsNear | algorithms/QALSH/src/qalsh.cpp:491-587 | The count of an object is the number of trees in which it lies in such a segment. |
| Collisions.Query.InitBuffers | algorithms/QALSH/src/qalsh.cpp:642-780 | All cursors are in place and nothing is counted yet. |
| Collisions.Query.Knn | algorithms/QALSH/src/qalsh.cpp:386-600 | Over any rounds: counts and checks are right; every tree has scanned its segments at most once each and in nondecreasing distance. After each round either all 99 + top_k candidates were computed, or as many distances as there are objects within the greatest width so far in more than l trees; another round follows only if the candidates are not reached and the k-th result is not near enough. |
| Collisions.Query.TrailIsNear | algorithms/QALSH/src/qalsh.cpp:479-587 | Short of the last candidate, the segments scanned in a tree are exactly those nearer than the greatest width. |
| Collisions.Query.Exact | algorithms/QALSH/src/qalsh.cpp:479-587 | Every object's frequency is its number of near trees, and it was distance-checked exactly when that exceeds the threshold. |
| AnnoyForests.AnnoyIndex.AllocateSize | algorithms/Annoy/src/annoy.cpp:447-457 | Room for the nodes asked for; nodes in use stay, new ones are zero. |
| AnnoyForests.AnnoyIndex.AddItem | algorithms/Annoy/src/annoy.cpp:305-318 | The item is written and counted; no other node changes. |
| AnnoyForests.TreeStays | algorithms/Annoy/src/annoy.cpp:463-531 | A tree lies in the nodes up to its root, so appending nodes does not touch it. |
| AnnoyForests.Partition | algorithms/Annoy/src/annoy.cpp:490-498 | The two sides hold all indices; child 0 gets those on side false and child 1 those on side true, and neither is empty. |
| AnnoyForests.AnnoyIndex.MakeTree | algorithms/Annoy/src/annoy.cpp:463-531 | Terminates; the tree reaches every index exactly once, children precede parents, the root is the last node, all other new nodes have fewer descendants; each inner node holds the hyperplane of a random split of its items, child 1 the items on side true and child 0 the others. |
| AnnoyForests.AnnoyIndex.Build | algorithms/Annoy/src/annoy.cpp:320-352 | q trees, or for q = -1 trees until the nodes are twice the items, each over all items and split as the random choices say; behind them a copy of every root. |
| AnnoyForests.AnnoyIndex.AddTree | algorithms/Annoy/src/annoy.cpp:327-340 | One tree more; nodes are added exactly when there is not a single item. |
| AnnoyForests.AnnoyIndex.OneItemForever | algorithms/Annoy/src/annoy.cpp:327-340 | With a single item any number of passes leaves the node count below twice the items, so that q = -1 never stops. |
| AnnoyForests.BuildAndQuery | algorithms/Annoy/src/annoy.cpp:320-585 | Built, then searched with a budget of all items in all trees: exactly a linear scan. |
| AnnoyForests.BuildLoadAndQuery | algorithms/Annoy/src/annoy.cpp:320-585 | Built, saved, loaded and searched with such a budget: exactly a linear scan of all items, whatever their number but one. |
| AnnoyForests.RecoveredComplete | algorithms/Annoy/src/annoy.cpp:391-418 | The roots found in a saved index lead to trees over all items, unless there is a single item. |
| AnnoyForests.AnnoyIndex.Load | algorithms/Annoy/src/annoy.cpp:391-418 | The scan from the end finds the last run of nodes with equally many descendants, without its first node when that has the first child of the last. |
| AnnoyForests.RecoveredMany | algorithms/Annoy/src/annoy.cpp:391-418 | With more items than a node holds, exactly the copies of the roots are found, one per tree, each reaching all items. |
| AnnoyForests.RecoveredFew | algorithms/Annoy/src/annoy.cpp:391-418 | With fewer items the roots are found beside their copies: 2 q - 1 roots. |
| AnnoyForests.RecoveredSingle | algorithms/Annoy/src/annoy.cpp:391-418 | With a single item copies of the item are found, which are no items. |
| AnnoyForests.RecoveredIff | algorithms/Annoy/src/annoy.cpp:391-418 | One root per tree is recovered exactly when there are more items than a node holds, or one tree and not a single item. |
| AnnoyForests.ThreeRootsForTwoTrees | algorithms/Annoy/src/annoy.cpp:391-418 | A saved index of two items in two trees from which three roots are found. |
| AnnoyForests.BuiltComplete | algorithms/Annoy/src/annoy.cpp:320-352 | After building, every root leads to a tree over all items. |
| AnnoyForests.ForestOfAll | algorithms/Annoy/src/annoy.cpp:320-352 | The trees together reach every item once per tree. |
| AnnoyForests.AnnoyIndex.Gather | algorithms/Annoy/src/annoy.cpp:534-562 | Terminates; there is a run from all roots at infinity, each step at a queue entry of greatest priority, greatest node among equals, the margin for child 1 and its negative for child 0, that stops at the first state with searchK items or an empty queue; the items are those of its last state. |
| AnnoyForests.PriorityMeans | algorithms/Annoy/src/annoy.cpp:541-561 | At any time of any search the priority of an entry is the least signed margin on the way from its root: the margin of a hyperplane towards child 1, its negative towards child 0; infinite at a root. |
| AnnoyForests.AnnoyIndex.Step | algorithms/Annoy/src/annoy.cpp:546-561 | The greatest queue entry is taken out: its items are gathered, or its subtrees queued with the lesser of its priority and the signed margin. |
| AnnoyForests.SteppedSound | algorithms/Annoy/src/annoy.cpp:545-562 | A step neither loses nor doubles an item, and less is left to search: the loop terminates. |
| AnnoyForests.Measure | algorithms/Annoy/src/annoy.cpp:564-574 | Every gathered item once, with its distance. |
| AnnoyForests.Everything | algorithms/Annoy/src/annoy.cpp:534-574 | A budget of all items in all trees gathers every item. |
| AnnoyForests.ScanNearest | algorithms/Annoy/src/annoy.cpp:576-583 | The listed items are the nearest of the gathered ones, by distance and then id, and as many as asked for or all. |
| AnnoyForests.AnnoyIndex.GetAllNns | algorithms/Annoy/src/annoy.cpp:534-585 | The n nearest by (distance, id) of the items gathered by a best-first run within the budget, and their number; without a binding budget exactly a linear scan of all items. |
| KnnPools.InsertedAt | algorithms/DPG/src/kgraph.cpp:170-177 | Where the entries of a pool stand after an insertion. |
| KnnPools.UpdateKnnList | algorithms/DPG/src/kgraph.cpp:153-178 | Inserts in place behind equal distances and returns the place; an id held at that distance is reported by K + 1 and changes nothing. |
| KnnPools.DistinctIff | algorithms/DPG/src/kgraph.cpp:142-178 | An update keeps the ids of a list distinct exactly when the new id is not held at another distance. |
| KnnPools.HeldTwice | algorithms/DPG/src/kgraph.cpp:142-178 | Node 5 held at distance 1 and offered at distance 2 is not reported and stands in the list twice. |
| KnnPools.InsertNearest | algorithms/DPG/src/kgraph.cpp:153-178 | Inserting an unseen node and cutting back keeps the nearest of all nodes seen, sorted, each once. |
| KnnPools.NothingDropped | algorithms/DPG/src/kgraph.cpp:153-178 | A pool that is not full holds every node seen. |
| KnnPools.NearestUnique | algorithms/DPG/src/kgraph.cpp:153-178 | Two pools of the nearest among the same nodes have the same distances. |
| KnnPools.InsertTruncated | algorithms/DPG/src/kgraph.cpp:199-209 | Cutting back to K after every insertion gives the same first K as cutting at the end. |
| KnnPools.RankedCorrect | algorithms/DPG/src/kgraph.cpp:199-209 | The reference list: exactly the matching ids in (distance, id) order. |
| KnnPools.FirstRanked | algorithms/DPG/src/kgraph.cpp:199-221 | Its first K entries are the nearest matching ids: no id left out comes before one of them by distance and id. |
| KnnPools.SearchOracle | algorithms/DPG/src/kgraph.cpp:199-221 | For every oracle, K and epsilon: the first min(K, matches) points within epsilon in (distance, id) order, and no point left out comes before one of them. |
| KnnPools.LinearSearch | algorithms/DPG/src/kgraph.cpp:180-197 | The K nearest of the other points in (distance, id) order. |
| GraphSearches.GenRandom | algorithms/DPG/src/kgraph.cpp:38-52 | size pairwise distinct values below N, whatever the generator draws: the reduced draws in ascending order, pushed apart, then rotated by the last draw. |
| GraphSearches.PushedLeast | algorithms/DPG/src/kgraph.cpp:43-47 | The values pushed apart are the least strictly ascending ones that are not below the sorted draws. |
| GraphSearches.BumpApart | algorithms/DPG/src/kgraph.cpp:43-47 | The pass over the sorted draws makes them strictly ascending, raising a value only to the place right behind the one before, and keeps them below N. |
| GraphSearches.Rotate | algorithms/DPG/src/kgraph.cpp:48-51 | The rotation keeps the values distinct and below N. |
| GraphSearches.Visit | algorithms/DPG/src/kgraph.cpp:1727-1775 | The insertion never reports a duplicate (r <= L) and the pool stays the nearest of the visited nodes. |
| GraphSearches.Expand | algorithms/DPG/src/kgraph.cpp:1718-1775 | All neighbours of the node are visited; nk is the foremost arrival. |
| GraphSearches.SearchStep | algorithms/DPG/src/kgraph.cpp:1714-1787 | One expansion keeps: pool sorted, distinct, nearest visited; expanded entries have all neighbours visited; only reachable nodes visited. |
| GraphSearches.FrontStep | algorithms/DPG/src/kgraph.cpp:1777-1782 | Moving the cursor back to the foremost arrival keeps everything in front of it expanded. |
| GraphSearches.Round | algorithms/DPG/src/kgraph.cpp:1716-1782 | A round expands the nearest entry still flagged: it loses its flag, its neighbours up to M or minM are visited, the pool holds the nearest of the trial with new entries flagged; it visits a new node or advances the cursor. |
| GraphSearches.MaxM | algorithms/DPG/src/kgraph.cpp:1720-1726 | An expansion looks at the neighbours in front of M[u] or minM, and at no other. |
| GraphSearches.SearchLoop | algorithms/DPG/src/kgraph.cpp:1712-1787 | Terminates (unvisited nodes, then L - k) at a fixpoint: every pool entry is expanded; the run to it is best first. |
| GraphSearches.NeighboursAccounted | algorithms/DPG/src/kgraph.cpp:1714-1787 | At the end of a trial every neighbour of a pool node in front of M or minM is in the pool, was visited in an earlier trial, or is no nearer than the last entry of a full pool. |
| GraphSearches.ExactWhenNotFull | algorithms/DPG/src/kgraph.cpp:1631-1787 | If no trial's pool overflowed, the nodes visited in all trials are exactly those reachable from the starts. |
| GraphSearches.StartPool | algorithms/DPG/src/kgraph.cpp:1633-1648 | Of the P distinct nodes the draws lead to those not visited in an earlier trial, measured, marked visited and sorted. |
| GraphSearches.RunTrial | algorithms/DPG/src/kgraph.cpp:1631-1803 | One more trial, best first from the nodes its draws lead to: its pool ends at a fixpoint, and the results stay the K nearest of all nodes visited so far. |
| GraphSearches.NearestExtended | algorithms/DPG/src/kgraph.cpp:1794-1803 | What a trial visited beyond its first K entries cannot belong to the K nearest. |
| GraphSearches.Search | algorithms/DPG/src/kgraph.cpp:1606-1803 | The error, the exhaustive scan, or after any number of trials the K nearest of all nodes visited; each trial is a run of expansions, the nearest flagged entry first, from the nodes its draws lead to, until every neighbour that counts of every pool entry is visited; with one trial the first K entries of its pool. |
| NnDescents.SharedNhood.Update | algorithms/DPG/src/kgraph.cpp:2190-2200 | The locked part computes the pure update of list, length and radius. |
| NnDescents.SharedNhood.ParallelTryInsert | algorithms/DPG/src/kgraph.cpp:2188-2201 | Test and update in one piece. |
| NnDescents.UpdateSound | algorithms/DPG/src/kgraph.cpp:2188-2201 | The update keeps the pool nearest whether the node is new, held, or was dropped before. |
| NnDescents.StepSound | algorithms/DPG/src/kgraph.cpp:2188-2201 | Every step of every offer, a test with a stale radius included, keeps the round sound. |
| NnDescents.RunSound | algorithms/DPG/src/kgraph.cpp:2263-2281 | Every schedule of steps keeps the round sound. |
| NnDescents.RadiusShrinks | algorithms/DPG/src/kgraph.cpp:2188-2201 | The radius never grows within a round. |
| NnDescents.RoundCorrect | algorithms/DPG/src/kgraph.cpp:2263-2281 | Any interleaving that finishes leaves the capacity smallest distances over the distinct ids held or offered. |
| NnDescents.InterleavingIrrelevant | algorithms/DPG/src/kgraph.cpp:2263-2281 | Two finished interleavings leave the same distances. |
| NnDescents.InitPool | algorithms/DPG/src/kgraph.cpp:2243-2259 | A node's pool starts sorted with S distinct ids other than its own. |
| GraphDiversities.EnoughKept | algorithms/DPG/src/kgraph.cpp:784-797 | At least as many candidates as edges have at most the hits of the cut, so that cutting leaves no stale entry. |
| GraphDiversities.HitsAre | algorithms/DPG/src/kgraph.cpp:759-774 | The hits of a candidate are the number of earlier candidates that are nearer to it than the node is. |
| GraphDiversities.CandidatesAre | algorithms/DPG/src/kgraph.cpp:743-757 | The candidates end at the last id other than 0, and at twice the edges. |
| GraphDiversities.CutMeans | algorithms/DPG/src/kgraph.cpp:743-799 | The cut is the least number that more than edges candidates do not exceed, counting for each the earlier candidates nearer to it than the node; the first edges candidates within the cut remain, in order and at their distances. |
| GraphDiversities.KeptCorrect | algorithms/DPG/src/kgraph.cpp:793-797 | Exactly the candidates within the cut are kept, in order. |
| GraphDiversities.CutCorrect | algorithms/DPG/src/kgraph.cpp:743-799 | For more candidates than edges: edge_num genuine candidates, the first listed neighbour among them, at their distances, no id twice. |
| GraphDiversities.CutList | algorithms/DPG/src/kgraph.cpp:743-802 | The in-place passes compute that list. |
| GraphDiversities.CountHits | algorithms/DPG/src/kgraph.cpp:759-774 | hit[j] is the number of i below j whose candidate is nearer to candidate j than the node is. |
| GraphDiversities.KGraph.DiversifyByCut | algorithms/DPG/src/kgraph.cpp:735-842 | Every list is cut on its own: a candidate left out has more earlier candidates nearer to it than the cut allows, or stands behind edges candidates within the cut; M is the number of edges. |
| GraphDiversities.ReversedMembers | algorithms/DPG/src/kgraph.cpp:634-640 | The reversed list of v has exactly the nodes with an edge to v, at the same distance. |
| GraphDiversities.DedupedCorrect | algorithms/DPG/src/kgraph.cpp:652-657 | After sorting, dropping equal neighbours leaves each id exactly once. |
| GraphDiversities.SymmetricList | algorithms/DPG/src/kgraph.cpp:642-659 | A list after the reversal: sorted by (distance, id), no id twice, its old entries and the edges back. |
| GraphDiversities.SymmetricIff | algorithms/DPG/src/kgraph.cpp:624-662 | The graph is symmetric exactly when no entry beyond the edges lacks its mirror image. |
| GraphDiversities.OneWayStays | algorithms/DPG/src/kgraph.cpp:624-662 | Node 0 lists node 1 but has no edges: the reversal changes nothing and the graph is not symmetric. |
| GraphDiversities.KGraph.AddBackwardEdges | algorithms/DPG/src/kgraph.cpp:624-662 | Every list becomes that list and M its length. |
| GraphDiversities.Diversify | algorithms/DPG/src/DPG_diverse.cpp:87-92 | With a symmetric distance there are lists cut as above such that the list of every node holds exactly the nodes it kept and those that kept it, at their distances, by distance and then id; for any distance it is the graph of the last row. |
| GraphDiversities.DiversifiedBothWays | algorithms/DPG/src/kgraph.cpp:624-845 | The diversified graph: its edges are the kept ones, both ways, nearest first. |
| GraphDiversities.DiversifiedSymmetric | algorithms/DPG/src/kgraph.cpp:624-845 | Cut, then reversed: a symmetric graph that keeps every kept edge and every first listed neighbour. |
| Recalls.CountFound | algorithms/DPG/src/kgraph-data.h:272-287 | The merge of any two rows; for sorted ones the matches are the multiset intersection, and the exception is thrown exactly when the rows are not stable. |
| Recalls.MergeCorrect | algorithms/DPG/src/kgraph-data.h:272-287 | On sorted rows the merge counts the multiset intersection or fails exactly when a result distance below the last gold one occurs too often. |
| Recalls.UnstableRow | algorithms/DPG/src/kgraph-data.h:272-287 | A gold distance of 2 and a result distance of 1: the exception. |
| Recalls.TrueResultStable | algorithms/DPG/src/kgraph-data.h:268-289 | The K smallest distances against K distances of distinct points: the exception is never thrown. |
| Recalls.UnstableWitness | algorithms/DPG/src/kgraph-data.h:284-286 | The exception means a distance below the last gold one occurs too often in the result. |
| Recalls.RecallOfSorted | algorithms/DPG/src/kgraph-data.h:260-291 | For sorted rows the recall is the mean fraction of common distances, and the error means that some row is not stable. |
| Recalls.AverageRecall | algorithms/DPG/src/kgraph-data.h:260-291 | For all matrices: the failed dimension checks, NaN for no row or no column, the exception of a row, or the mean of the fractions merged. |

## Left out

- Machine integers: counters and indices are unbounded; the 32-bit wrap of `addr[i] + off` in GenRandom, of table sizes and of node counts is not modelled.
- Floating point: distances, keys, margins and bucket widths are `real`; rounding, infinities other than the start priority, and NaN other than a mean over nothing are not modelled, nor is the rounding of the block length to `float` in get_key_size.
- Metrics, hyperplane splits and random draws: arbitrary functions, sequences and shuffles given from outside; BLAS, two_means, create_split, popcount tables and hash projections are not part of this model.
- std::sort, std::nth_element and std::partial_sort: a stable insertion sort stands for all of them; the order of equal elements in them is not that of the library.
- std::push_heap and std::pop_heap: the order inside the vectors of Heap and ResultSet is not modelled, only which element comes out; the order of the copied results is therefore open.
- Files, printing, timing, progress output and the Python scripts; BlockFile is an append-only sequence of blocks, without delete_last_blocks.
- Multi-threaded filling of the OPQ index: one thread, subsets one after another.
- GraphSearches.Search: random starts, up to the merged results; user-supplied starts and the epsilon trimming after the trials are left out, and with them the check that fails when there was no trial at all.
- KGraph construction: update(), which resets the radius, and sampling between rounds.
- NnDescents.RoundCorrect: starts from a round with the radius at its maximum or at least the last kept distance of a full pool; how update() gets there is left out.
- GraphDiversities.DiversifiedSymmetric: asks for more candidates than edges in every list and a symmetric distance, as the code silently does; without the first the code indexes past the hits.
- Clusterings.BuildIndex: distance functions are given with distance 0 from a point to itself and symmetry, as Hamming distances have them.
- ClusterSearches.KnnSearch: one tree; with more trees the shared queue may drop branches. Distances stay below the greatest int, the initial worst distance, and knn is positive as the result set demands.
- ClusterSearches.Search.FindNeighbors: one tree, see KnnSearch.
- PageCursors.FindLeaf: trees with at least two leaves; the root of a smaller tree is a leaf that the query would read as an index node.
- PageCursors.InitBuffer: trees with at least two leaves, see FindLeaf.
- Collisions.Query.Knn: bucket widths and the decision that the k-th result is near enough are given for each round; update_radius, update_result, page counts and calc_l2_dist are left out.
- AnnoyForests.AnnoyIndex.Build: both sides of every split get an item, so the retry loop with random sides is left out; with q = -1 and a single item the code never ends, see OneItemForever; a second build, which would overwrite the trees of the first and keep their roots, is excluded.
- AnnoyForests.AnnoyIndex.MakeTree: every number below n_items was added; a number that was skipped leaves a zero node, which the code treats as an item in a small node and as an empty one at a leaf.
- AnnoyForests.AnnoyIndex.GetAllNns: distances are given unnormalized; children that spill over the vector of a small node are a list of their own.
- AnnoyForests.AnnoyIndex.Load: after loading a single item the roots are copies of it, which are no items, see RecoveredSingle; a search over them is not stated.
- Copies of the same code for NSH and SGH, algorithms/KGraph, RCT, SH, evaluation metrics, get_partitions, advanced_search, search_greedy, add_long_edges.
