# Clustering core of `mathics/algorithm/clusters.py`

A Dafny model of the clustering algorithms behind Mathics' `FindClusters`
and `ClusteringComponents`:

- **pair_index.dfy** (`PairIndex`): the flat, strictly lower-triangular
  distance table. `_index(i, j)` puts the pair `i > j` in slot
  `j + i*(i-1)/2`, and `lookup` is the inverse table. The model proves that
  the two form a bijection between the pairs and the slots.
- **helpers.dfy** (`Helpers`): `_robust_min`, `_components` (per-point
  labels) and `_ratio_bigger_than` (comparing Dunn indices by
  cross-multiplication).
- **sampling.dfy** (`Sampling`):
  - `_shuffled_range`: a Fisher-Yates shuffle that keeps only a sparse map of
    the slots it has overwritten.
  - `_shuffled_tuples`: decodes the shuffled flat indices into tuples of a
    box of index ranges.
  - Each is proved against a reference definition: the dense shuffle, and
    mixed-radix encoding.
- **unmapped.dfy** (`Agoras`): `_unmapped`, the reduction step of the AGORAS
  seed sampler. Every point of `u` marks its nearest point of `v`, and only
  the marked points of `v` are kept.
- **medoids.dfy** (`Clarans`): the bookkeeping of the CLARANS medoid search.
  - The sorted medoid list.
  - The non-medoids in ascending order (`_unselected`).
  - The stream of not yet tried swaps (`_reset_random_swap`,
    `_next_random_swap`).
  - Accepting a swap, which deletes the old medoid and inserts the new one in
    order.
- **linkage.dfy** (`Linkage`): distances between points read from the
  table, plus single linkage, complete linkage (the farthest cross pair) and
  cluster diameters. It also defines the cluster slots that agglomeration
  merges.
- **heap.dfy** (`Heap`): the indexed binary min-heap of `agglomerate`
  (`shiftdown`, `shiftup`, `update`, `remove`, heapify). It is a class whose
  `heap` and `where` fields the methods update. `where` is the position index
  of every pair.
- **dunn.dfy** (`Dunn`): `_DunnMergeCriterion`. It remembers the partition
  with the best Dunn index before every merge, tracks the cluster diameters,
  and enforces the optional merge limit.
- **single_linkage.dfy** (`SingleLinkage`): what agglomeration computes,
  stated without the heap.
  - `ClosestLive`: the closest pair of live clusters. Ties go to the pair in
    the earlier table slot, as the heap's (distance, slot) order decides them.
  - `Run`: the sequence of states that starts from the singletons. Each state
    merges the closest pair of the one before.
  - `BestDunn`: the judged state with the best Dunn index, which is the one
    the criterion keeps.
- **agglomerate.dfy** (`Agglomerative`): the `reduce` loop of `agglomerate`.
  - Each round takes the closest pair of live clusters off the heap. It
    merges the later slot into the earlier one and re-keys the heap with the
    single linkage of the merged cluster (`unmerged_pairs`).
  - The loop stops at the target number of clusters or when the criterion
    refuses a merge.
  - The result is sorted into the order the caller receives.

The merge loop keeps two invariants:

- `Agglomerative.Merging` is about the data structures.
  - The cluster slots are a partition of the points.
  - Each live slot is anchored at its smallest point.
  - The heap holds exactly one entry per pair of live clusters.
  - Each entry is keyed by the single linkage of the two clusters.
- `Agglomerative.Traced` is about what the loop has done: its rounds so far
  are a single-linkage `Run`.

The first invariant makes the top of the heap the closest pair
(`TopIsClosest`), so each round extends the run. The result is then the
`Outcome` of the target:

- For a fixed k, it is the state of the run with `ExpectedCount(n, k)`
  clusters.
- Under the Dunn criterion, it is the best judged state of the run.

`RunUnique` shows that the run is determined by the distance table. Sorted,
the result is an ordered partition of the points (`Agglomerate`).

## Model

| member | source | states |
|---|---|---|
| PairIndex.IndexBounds | mathics/algorithm/clusters.py:40-46 | row i of the triangle occupies slots Triangle(i) up to Triangle(i+1) |
| PairIndex.IndexInjective | mathics/algorithm/clusters.py:40-46 | distinct pairs i > j get distinct slots |
| PairIndex.LookupPair | mathics/algorithm/clusters.py:805 | every slot of the lookup table holds a pair i > j below n whose index is that slot |
| PairIndex.LookupIndex | mathics/algorithm/clusters.py:805 | conversely, the pair (i, j) sits in the lookup table at its own index, so index and lookup are inverse |
| Helpers.RobustMin | mathics/algorithm/clusters.py:49-54 | None exactly for an empty input; otherwise an element of the input no greater than any element |
| Helpers.Components | mathics/algorithm/clusters.py:57-63 | n labels; point x gets the 1-based number of the last cluster containing it, 0 if none |
| Helpers.LabelOfMember | mathics/algorithm/clusters.py:57-63 | when the clusters are disjoint, a point of cluster c is labelled c+1 |
| Helpers.LabelZero | mathics/algorithm/clusters.py:57-63 | the label is 0 exactly when no cluster contains the point |
| Helpers.RatioBiggerThan | mathics/algorithm/clusters.py:66-70 | with positive denominators, the cross-multiplied comparison agrees with comparing the quotients; with a zero left denominator, it compares the left numerator with 0 |
| Sampling.ShuffledRange | mathics/algorithm/clusters.py:131-154 | for n > 0, the sparse-map shuffle yields exactly the dense Fisher-Yates shuffle of 0..n-1 under the same draws, a permutation of 0..n-1; for n = 0, it yields [-1] |
| Sampling.DenseShufflePermutes | mathics/algorithm/clusters.py:131-154 | the reference shuffle keeps length and multiset and preserves distinctness |
| Sampling.RangeIsPermutation | mathics/algorithm/clusters.py:131-154 | shuffling 0..n-1 gives each of 0..n-1 exactly once |
| Sampling.DecodeIndex | mathics/algorithm/clusters.py:173-176 | the digit loop computes the mixed-radix decoding of the index |
| Sampling.DecodeEncode | mathics/algorithm/clusters.py:173-176 | every tuple of the box encodes to an index below the product and decodes back to itself |
| Sampling.EncodeDecode | mathics/algorithm/clusters.py:173-176 | decoding then encoding an index below the product gives the index back |
| Sampling.ShuffledTuples | mathics/algorithm/clusters.py:157-178 | Product(radices) tuples, each inside the box, no tuple twice, and every tuple of the box present; position p holds the mixed-radix decoding of the p-th index of the Fisher-Yates shuffle of 0 .. Product-1 under the given draws (DecodedShuffle) |
| Agoras.Unmapped | mathics/algorithm/clusters.py:181-199 | the result is v restricted to the points marked as someone's nearest; it is a subsequence of v, no longer than u or v, and non-empty when u is |
| Agoras.Nearest | mathics/algorithm/clusters.py:186-194 | the scan returns the nearest-point position defined by NearestIn |
| Agoras.NearestInLeast | mathics/algorithm/clusters.py:186-194 | the chosen point is at least as close as every point of v, and strictly closer than every earlier point, so ties go to the first |
| Agoras.KeepMarked | mathics/algorithm/clusters.py:199 | the comprehension keeps exactly the marked points of v, in order |
| Agoras.MarksMeaning | mathics/algorithm/clusters.py:181-199 | a point of v is marked exactly when it is the nearest point of some point of u |
| Agoras.KeepIsSubsequence | mathics/algorithm/clusters.py:199 | the kept points form a subsequence of v |
| Agoras.MarksCount | mathics/algorithm/clusters.py:181-199 | at most one mark per point of u, and at least one when u is non-empty |
| Clarans.Medoids.constructor | mathics/algorithm/clusters.py:322-336 | the medoids are the seed sorted: a strictly ascending list of distinct points below n, a permutation of the seed. For k < n the swap stream has k*(n-k) pairs (medoid rank, non-medoid rank), none twice and every pair present, in the order of the decoded shuffle the draws determine (DecodedShuffle over the radices [k, n-k]); for k == n it is empty |
| Clarans.Medoids.ResetRandomSwap | mathics/algorithm/clusters.py:365-366 | for k < n, a stream of k*(n-k) pairs (medoid rank, non-medoid rank) with no repetition and every pair present, in the order of the decoded shuffle the draws determine (DecodedShuffle over the radices [k, n-k]); for k == n an empty stream |
| Clarans.Medoids.Unselected | mathics/algorithm/clusters.py:348-363 | the non-medoids in ascending order: exactly the points below n that are not selected, n-k of them |
| Clarans.ComplementMembers | mathics/algorithm/clusters.py:348-363 | the complement holds exactly the points below n that are not medoids |
| Clarans.ComplementAscending | mathics/algorithm/clusters.py:348-363 | the complement is strictly ascending |
| Clarans.Medoids.NextRandomSwap | mathics/algorithm/clusters.py:368-378 | consumes the head pair (ni, h) and returns the medoid of rank ni with the h-th non-medoid; an exhausted stream gives None |
| Clarans.TranslateRank | mathics/algorithm/clusters.py:374-376 | stepping h over the medoids at or below it yields the h-th non-medoid, a point below n that is not a medoid |
| Clarans.Delete | mathics/algorithm/clusters.py:454 | deleting medoid i leaves a strictly ascending list one shorter, holding exactly the other medoids |
| Clarans.InsertSorted | mathics/algorithm/clusters.py:455 | insort keeps the list strictly ascending, one longer, holding exactly the old members and h |
| Clarans.Medoids.ReplaceMedoid | mathics/algorithm/clusters.py:453-455 | after the swap, the medoids are the old ones without i plus h, still a valid sorted medoid list |
| Linkage.MinCrossLeast | mathics/algorithm/clusters.py:838-844 | the single linkage of two clusters is the smallest distance between their points, and some cross pair attains it |
| Linkage.MinCrossJoin | mathics/algorithm/clusters.py:838-844 | the single linkage of a merged cluster to r is the smaller of the two linkages, which is the re-keying rule |
| Linkage.MinCrossSymmetric | mathics/algorithm/clusters.py:620-622 | the linkage does not depend on argument order, as the table lookup by max/min makes distance symmetric |
| Linkage.CrossMaxGreatest | mathics/algorithm/clusters.py:661 | the new diameter is the largest cross distance, and some cross pair attains it |
| Linkage.DiameterGreatest | mathics/algorithm/clusters.py:660-666 | a diameter is non-negative, no smaller than any distance within the cluster, and 0 or attained by a pair |
| Linkage.DiameterJoin | mathics/algorithm/clusters.py:664 | the diameter of a union is the largest of the two diameters and the farthest cross pair |
| Heap.PairHeap.constructor | mathics/algorithm/clusters.py:807-812 | heapify yields a heap-ordered, correctly indexed heap holding exactly one entry (distance, slot) per table slot |
| Heap.PairHeap.ShiftDown | mathics/algorithm/clusters.py:703-726 | sinking the entry at s restores heap order below the given level and keeps the index current and the multiset unchanged |
| Heap.PairHeap.ShiftUp | mathics/algorithm/clusters.py:728-747 | lifting the entry at s restores heap order and keeps the index current and the multiset unchanged |
| Heap.PairHeap.Update | mathics/algorithm/clusters.py:749-758 | replacing the entry at s by xp leaves a valid heap whose contents are the old ones with that entry replaced by xp |
| Heap.PairHeap.Remove | mathics/algorithm/clusters.py:760-769 | removing the entry at s leaves a valid heap, one shorter, holding exactly the other entries |
| Heap.RootIsLeast | mathics/algorithm/clusters.py:826 | in a heap-ordered sequence, the root is no greater than any entry |
| Dunn.MergedDiameter | mathics/algorithm/clusters.py:660-664 | the recorded diameter of the merge is the diameter of the union, at least either old diameter |
| Dunn.DunnMergeCriterion.constructor | mathics/algorithm/clusters.py:628-641 | every point starts as its own cluster of diameter 0, with maximum diameter 0 and nothing remembered |
| Dunn.DunnMergeCriterion.SaveAndMerge | mathics/algorithm/clusters.py:646-668 | see below |
| Dunn.DunnMergeCriterion.RecordMerge | mathics/algorithm/clusters.py:660-666 | after the merge the diameters track the merged slots, and the largest diameter never shrinks |
| Agglomerative.InitialHolds | mathics/algorithm/clusters.py:804-812 | the initial heap holds exactly one entry per pair of singleton clusters, keyed by their distance |
| SingleLinkage.ClosestUnique | mathics/algorithm/clusters.py:685-689 | comparing (distance, slot) leaves at most one closest pair of live clusters |
| SingleLinkage.RunUnique | mathics/algorithm/clusters.py:825-854 | two single-linkage runs over the same table agree state by state and pair by pair, as far as both go |
| SingleLinkage.LargestDiameterBounds | mathics/algorithm/clusters.py:666 | the largest diameter of the slots is non-negative, bounds every slot's diameter, and is 0 or attained by a live slot |
| SingleLinkage.BestDunnUnique | mathics/algorithm/clusters.py:649-653 | there is at most one best judged state |
| SingleLinkage.RememberStep | mathics/algorithm/clusters.py:646-653 | applying the save rule to one more judged state keeps the remembered partition that of the best judged state, and the remembered index its Dunn index when positive |
| SingleLinkage.RememberedLonger | mathics/algorithm/clusters.py:651 | further merges do not change what was remembered |
| Agglomerative.TopIsClosest | mathics/algorithm/clusters.py:826-831 | the top of the heap names the closest pair of live clusters (ties to the earlier slot), and its key is their single linkage |
| Agglomerative.TopBelow | mathics/algorithm/clusters.py:826 | the top entry is no greater in (distance, slot) order than the entry of any live pair |
| Agglomerative.ClosestPair | mathics/algorithm/clusters.py:826-831 | returns the closest pair (i, j), i < j, of live clusters with their single linkage d |
| Agglomerative.HeapNotEmpty | mathics/algorithm/clusters.py:825 | with two live clusters the heap is not empty, so the loop can only stop at the target or by the criterion |
| Agglomerative.MoveKey | mathics/algorithm/clusters.py:839-844 | the entry of pair b leaves the heap, and pair a's key becomes the smaller of the two; all other keys are unchanged |
| Agglomerative.PendingPair | mathics/algorithm/clusters.py:771-788 | for each live r other than i and j, the pairs (i, r) and (j, r) are distinct table slots carrying the two linkages |
| Agglomerative.PendingAdvance | mathics/algorithm/clusters.py:838-844 | one zip step turns the pending keys before r into those after r |
| Agglomerative.PendingFinal | mathics/algorithm/clusters.py:838-844 | after the walk, every pending key is the key of the merged slots |
| Agglomerative.Rekey | mathics/algorithm/clusters.py:838-844 | after re-keying, the heap holds exactly the single-linkage keys of the merged slots |
| Agglomerative.MergeState | mathics/algorithm/clusters.py:851-852 | merging slot j into the earlier slot i keeps the slots an anchored partition with one live cluster fewer |
| Agglomerative.MergePair | mathics/algorithm/clusters.py:836-854 | a merge preserves the loop invariant with one cluster fewer |
| Agglomerative.Step | mathics/algorithm/clusters.py:826-854 | takes the closest pair (i, j) at its linkage d. It merges j into i, one cluster fewer, exactly when d is within the merge limit; otherwise the slots are unchanged and only the criterion refuses. The criterion then remembers the best judged state |
| Agglomerative.Judge | mathics/algorithm/clusters.py:833-834 | the criterion judges the Dunn index (d, largest diameter of the slots) and refuses exactly when d exceeds the merge limit |
| Agglomerative.Round | mathics/algorithm/clusters.py:825-854 | a merging round keeps the loop state with a smaller count; a refusing round leaves a stopped run |
| Agglomerative.Extend | mathics/algorithm/clusters.py:825-854 | the closest pair of the last state extends the run, with the merge when within the limit, and as the stopping pair otherwise |
| Agglomerative.LargestIsMax | mathics/algorithm/clusters.py:636-666 | the criterion's maximum diameter is the largest diameter of the slots |
| Agglomerative.RunSlotState | mathics/algorithm/clusters.py:851-852 | every state of a run is an anchored partition of the points |
| Agglomerative.OutcomePartitions | mathics/algorithm/clusters.py:856-861 | every outcome lists the clusters of an anchored partition |
| Agglomerative.Exhausted | mathics/algorithm/clusters.py:825 | a loop that runs out without a refusal leaves at most one cluster, and has judged a state if there were two points |
| Agglomerative.AutomaticOutcome | mathics/algorithm/clusters.py:856-857 | the criterion keeps a partition exactly when the run judged a state, and that partition is the best judged state |
| Agglomerative.AutomaticEnd | mathics/algorithm/clusters.py:825-857 | under the criterion a partition is kept exactly when n >= 2, and it is the outcome of the automatic target |
| Agglomerative.FinalCount | mathics/algorithm/clusters.py:825 | a loop for a fixed k ends with ExpectedCount(n, k) clusters, the outcome of that target |
| Agglomerative.MergeClusters | mathics/algorithm/clusters.py:794-857 | the result is the Outcome of the target: for a fixed k, the state of the single-linkage run with ExpectedCount(n, k) clusters; under the criterion, the live clusters of the run's best Dunn state in a run stopped by the merge limit or at one cluster. With the criterion and at most one point there is no partition |
| Agglomerative.SortByFirst | mathics/algorithm/clusters.py:861 | the clusters reordered (same multiset), ascending by first point |
| Agglomerative.InsertByFirstOrdered | mathics/algorithm/clusters.py:861 | inserting a cluster by its first point into clusters ordered by first point keeps them ordered |
| Agglomerative.SortByFirstOrdered | mathics/algorithm/clusters.py:861 | sorting clusters that already have increasing first points leaves them in place |
| Agglomerative.NormalizeOrdered | mathics/algorithm/clusters.py:861 | the sorted result is an ordered partition: non-empty, strictly ascending clusters of points below n, ordered by first point, disjoint and covering every point |
| Agglomerative.Labelled | mathics/algorithm/clusters.py:863-864 | labelling an ordered partition gives each point the number of the cluster it is in |
| Agglomerative.Agglomerate | mathics/algorithm/clusters.py:790-870 | the dominant mode is exactly the error case. Otherwise the result fails only under the criterion with n <= 1. It is the sorted Outcome of the target, an ordered partition with ExpectedCount(n, k) clusters for a fixed k, or the labels of that partition |

`Dunn.DunnMergeCriterion.SaveAndMerge` states the following:

- The live clusters are remembered exactly when no Dunn index is kept yet, or
  when (dMin, maxDiameter) beats the kept one.
- The new index is kept only when maxDiameter is positive.
- The merge is refused exactly when dMin exceeds the merge limit.
- After a merge, the diameters track the merged slots.

## Left out

- Floating point: distances, diameters and Dunn indices are `real`, so
  rounding and NaN are not modelled.
- The random number generator: every call to `random.randint(i, n - 1)` is
  an element of a `draws` input. `ValidDraws` constrains it to the range
  `randint` returns.
- `_agoras` is not modelled beyond its reduction step `_unmapped`. The
  CLARANS seed that it computes is an input of `Clarans.Medoids.constructor`.
- The CLARANS drivers (`_Clusterer.with_k`, `_Clusterer.without_k`, the
  swap cost evaluation in `_Medoids.swap`, `_update_clusters`, `clusters()`)
  are not modelled. Neither are the float statistics, the
  silhouette and the debug output.
- Points are represented by their indices 0..n-1. The final mapping of
  indices back to points in the 'clusters' mode is not modelled. The point
  payload of a heap entry is dropped: ids are unique, so it never decides a
  comparison.
- `Agglomerative.Agglomerate`: the 'dominant' mode is modelled as its
  outcome, an error, without running the merge loop first. The source runs
  the loop and only then fails.
  - With a fixed k, the `dominant` list reaches line 861. If it still holds
    a non-zero point index, `sorted` of that integer raises TypeError there.
    Otherwise every entry is 0 or None, the filter keeps nothing, and line
    868 raises ValueError.
  - Under the criterion, the kept partition replaces that list (line 857).
    With two points or more it sorts fine, and line 868 raises ValueError.
    With at most one point no partition is kept, and iterating None raises
    TypeError at line 861. An illegal `mode` or `k`
  (lines 802 and 823) cannot be represented in the `Mode`/`Target`
  datatypes.
- Other `MergeCriterion` subclasses are not modelled; only the Dunn
  criterion is.
- Generators are modelled as whole sequences.
  - `Sampling.ShuffledTuples` returns all `Product(radices)` tuples. The
    source's `while True` would then fail on the next `next`.
  - `Clarans.Medoids.NextRandomSwap` returns None on an exhausted stream,
    where the source's `next` raises StopIteration.
  - `Clarans.Medoids.ResetRandomSwap` gives an empty stream when every point
    is a medoid (k == n). The source's first `next` would divide by zero
    there.
- `Agoras.Unmapped` requires v to be non-empty when u is. With an empty v,
  the source indexes `mapped[None]` and raises.
- `Helpers.Components` requires every point to be below n, where the source
  would raise IndexError. Its callers only pass partitions of 0..n-1.
- `Helpers.RatioBiggerThan` states the quotient comparison only for the
  denominators the criterion produces (the kept index always has a positive
  one).
