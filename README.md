# avlhist-go, modelled in Dafny

avlhist-go is a sliding-window histogram. A FIFO window of values (`Queue`, at
most `QueueSize` long) is mirrored in an augmented AVL tree (`HistogramItem`).
Each node of the tree holds:

- a value and its multiplicity (`Duplications`);
- the number of values in its subtree (`Count`);
- its `Height`;
- parent and child links, plus `Smaller`/`Larger` links that thread the nodes in
  ascending order.

Beside the tree, the `Histogram` keeps:

- the leftmost and rightmost nodes (`MinItem`, `MaxItem`);
- a set of tracked percentiles, each pointing at a node;
- a two-level bucket index from value to node (`BucketHistogram`, whose slots are
  `SubBucketHistogram`s).

A `CDF` builds, on first request, a histogram from a list of (percentile, value)
points and caches it. `CalcPercentileOfProduct` starts a search for a percentile
of the product of several histograms. A Python script,
`histogram_scalability_test.py`, folds benchmark log lines into a table of
running mean latencies and prints one line per row.

The project models these parts, module by module:

| module | models |
|---|---|
| `HistogramItem` | the tree as a datatype `Item`; its invariants (`Ordered`, `CountsOk`, `HeightsOk`, `Balanced`, `IsAvl`); `NewHistogramItem`, `Find`, `CalcHeight`, `LeftRotate`, `RightRotate`, one iteration of `UpdateHeight` (`Step`); the `Smaller`/`Larger` links (`Below`, `Above`) |
| `RotationLemmas` | what the rotations and a rebalancing step preserve, and when a step restores AVL balance |
| `Insertion` | `Insert(v, count)`, with the walk up the tree done by `UpdateHeight(true)` |
| `Deletion` | `Delete()`, with its replacement node (`FindLargestInLeft`, else `FindSmallestInRight`) and `UpdateHeight(false)` |
| `Queries` | `FindSmallestInRight`, `FindLargestInLeft`, `FindNoLargerThan` and `CumulativeCount` as loops; the threaded list as the in-order traversal |
| `HistogramBuckets` | `SubBucketHistogram` and `BucketHistogram` as classes over sequences, with `CalcPosition`, `GetLowerAndUpperBoundaries`, `Insert` and `Delete`; the table of all bucket lists (`Table`), and why distinct values on the bucket grid never share a bucket (`DistinctPositions`) |
| `SlidingWindow` | what `Enqueue` and `Dequeue` compute on the values of a histogram's fields, the invariant (`Window`) that ties the queue, the tree, `Count` and the extremes together, and the invariant (`Indexed`) that the bucket index holds exactly the tree's nodes, each in its own bucket |
| `Histograms` | the `Histogram` class: `NewHistogram`, `GetWaterMark`, `UnifiedValue`, `AddPercentilePoint`, `GetPercentileItem`, `Enqueue` with its eviction loop, and `Dequeue` |
| `Percentiles` | `GetValueAtPercentile` and `CalcPercentileOfProduct` up to the hand-over to `SearchPercentileByMultiply` |
| `Cdf` | `NewCDF`, the memoised `CDF.Histogram()`, and `SearchCDFProduct` |
| `Scalability` | `new_perf_obj`, `save_to_row`, the marker filter, the main loop over the log files, the report loop, and the discarded sort |
| `Findings` | concrete runs of the tree code as written that break the invariants the rest of the model proves |

Modelling choices:

- The tree is a value, not a heap of linked nodes. The parent, `Smaller` and
  `Larger` links are derived from it:
  - the threaded list is the in-order traversal (`InOrder`);
  - a node's `Smaller` and `Larger` are `Below` and `Above`;
  - the walk towards the root is the way back out of the recursion, applying
    one `Step` at each ancestor.
- A node is identified by its value, because the tree holds one node per value.
  So queue entries, `MinItem`, `MaxItem` and percentile items are values.
- Values are exact reals. `math.Round` and Go's float-to-int conversion are
  written out (`Round`, `Trunc`).
- `UpdateHeight`'s rotation rule and the `Count` of a new node (`NewLeaf`) have a
  parameter `Variant`:
  - `AsWritten` follows the source;
  - `Intended` repairs the three defects of the tree code listed under Findings.

  The histogram, the window and the CDF use `Intended`, also for the root that
  `Enqueue` creates on an empty tree.
- The histogram's state is a class with fields. `Enqueue` and `Dequeue` compute
  the new field values in `SlidingWindow` and then assign them.
- The bucket index keeps its own objects (`BucketHistogram` and
  `SubBucketHistogram`), which `Insert` updates in place.
- The Python script's `rows` dict is the `Aggregator` class. Its methods keep
  `Table(order, rows)` equal to a fold (`FoldLines`) of the lines read so far.
- Where the source panics (a nil dereference, a negative slice index), the model
  states the condition as a precondition:
  - `Indexable` for the bucket index;
  - `Pointed` for the percentiles;
  - `Buildable` for a CDF's points.

Two places where the code and its own evident intent part ways are modelled both
ways (see Findings):

- The Python report is printed in row-insertion order. Yet
  histogram_scalability_test.py:82 computes `sorted(lines, ...)` by hist_count
  and then discards it.
- A new node made for `count > 1` copies keeps the `Count` of 1 that
  `NewHistogramItem` gave it, both inside the tree (histogram-item.go:170-171)
  and as the root of an empty histogram (histogram.go:216-220). Every other
  `Count` is its `Duplications` plus its children's `Count`s.

## Model

| member | source | states |
|---|---|---|
| HistogramItem.NewHistogramItem | histogram-item.go:25-37 | a new item is a one-node AVL tree of height 1 holding exactly one copy of v |
| HistogramItem.Find | histogram-item.go:54-63 | the node found holds v; in an ordered tree a node is found exactly when v is stored, and it holds all stored copies of v |
| HistogramItem.Leftmost | histogram-item.go:70-72 | the node reached by always going left is stored, and in an ordered tree it holds the smallest value |
| HistogramItem.Rightmost | histogram-item.go:81-83 | the node reached by always going right is stored, and in an ordered tree it holds the largest value |
| HistogramItem.Below | histogram-item.go:174-190 | the Smaller link: a stored value below x, the largest such in an ordered tree; none exactly when no stored value is below x |
| HistogramItem.Above | histogram-item.go:174-190 | the Larger link: a stored value above x, the smallest such in an ordered tree; none exactly when no stored value is above x |
| Queries.FindSmallestInRight | histogram-item.go:66-75 | none exactly when there is no right child; otherwise a node with no left child holding the smallest value of the right subtree, which in an ordered tree is the successor of t's value |
| Queries.FindLargestInLeft | histogram-item.go:77-86 | none exactly when there is no left child; otherwise a node with no right child holding the largest value of the left subtree, the predecessor in an ordered tree |
| Queries.FindNoLargerThan | histogram-item.go:88-129 | the result is a stored value at most v; in an ordered tree it is the largest such, and nothing is returned only when every stored value exceeds v |
| Queries.CumulativeCount | histogram-item.go:131-153 | in an ordered tree with exact Counts, the result is the number of stored copies of values up to the node's value |
| Queries.CountIsSize | histogram-item.go:192-194 | with exact Counts the root's Count is the number of stored values |
| Queries.InOrderHoldsKeys | histogram-item.go:174-190 | the threaded list holds exactly the tree's values |
| Queries.InOrderAscends | histogram-item.go:174-190 | in an ordered tree the threaded list is strictly ascending |
| Queries.SameKeysSameList | histogram-item.go:339-353 | two ordered trees with the same values have the same in-order list |
| RotationLemmas.CalcHeightKeepsValues | histogram-item.go:382-397 | CalcHeight changes only the height: children, value, copies, values and order are kept |
| RotationLemmas.LeftRotateKeepsValues | histogram-item.go:455-493 | a left rotation keeps the in-order sequence, the set of values and the stored copies |
| RotationLemmas.LeftRotateKeepsOrder | histogram-item.go:455-493 | a left rotation keeps the search order |
| RotationLemmas.LeftRotateKeepsCounts | histogram-item.go:467-476 | the incremental Count arithmetic leaves every Count exact and the subtree's Count unchanged |
| RotationLemmas.LeftRotateKeepsHeights | histogram-item.go:489-490 | the two moved nodes get exact heights |
| RotationLemmas.RightRotateKeepsValues | histogram-item.go:495-533 | a right rotation keeps the in-order sequence, the set of values and the stored copies |
| RotationLemmas.RightRotateKeepsOrder | histogram-item.go:495-533 | a right rotation keeps the search order |
| RotationLemmas.RightRotateKeepsCounts | histogram-item.go:506-515 | the incremental Count arithmetic leaves every Count exact and the subtree's Count unchanged |
| RotationLemmas.RightRotateKeepsHeights | histogram-item.go:529-530 | the two moved nodes get exact heights |
| RotationLemmas.FixLeftHeavyKeepsValues | histogram-item.go:412-429 | the right rotation of a left-heavy node, with or without a first left rotation of its child, keeps the in-order sequence and the values |
| RotationLemmas.FixLeftHeavyKeepsOrder | histogram-item.go:412-429 | ... and the search order |
| RotationLemmas.FixRightHeavyKeepsValues | histogram-item.go:430-448 | the mirror image for a right-heavy node |
| RotationLemmas.FixRightHeavyKeepsOrder | histogram-item.go:430-448 | ... and the search order |
| RotationLemmas.StepKeepsValues | histogram-item.go:404-451 | one iteration of UpdateHeight, whichever rotations it chooses, keeps the values, the copies and the search order |
| RotationLemmas.StepKeepsOccurrences | histogram-item.go:404-451 | ... the number of copies of each value |
| RotationLemmas.StepKeepsAllOccurrences | histogram-item.go:404-451 | ... for all values at once |
| RotationLemmas.StepKeepsInOrder | histogram-item.go:404-451 | ... and the threaded list |
| RotationLemmas.StepKeepsCounts | histogram-item.go:404-451 | one iteration keeps the Counts exact and the subtree's Count |
| RotationLemmas.StepKeepsHeights | histogram-item.go:382-397 | with exact heights below, one iteration leaves every height it touches exact |
| RotationLemmas.SingleRightBalance | histogram-item.go:426 | a right rotation balances a node whose left child is two higher and does not lean right, with the resulting height |
| RotationLemmas.DoubleRightBalance | histogram-item.go:417-426 | a left rotation of the child and then a right rotation balance a node whose left child is two higher and leans right |
| RotationLemmas.SingleLeftBalance | histogram-item.go:444 | the mirror image of SingleRightBalance |
| RotationLemmas.DoubleLeftBalance | histogram-item.go:435-444 | the mirror image of DoubleRightBalance |
| RotationLemmas.StepBalances | histogram-item.go:412-448 | with the intended rotation rule, one iteration at a node with AVL subtrees differing by at most two in height leaves an AVL subtree, with its height bounded by the children's |
| Insertion.Resume | histogram-item.go:196-199 | after a child changed: the walk of UpdateHeight(true) when it is under way, keeping values, copies, order, Counts and heights; nothing otherwise |
| Insertion.InsertAt | histogram-item.go:158-224 | Insert(v, count) at a node adds exactly count copies of v and changes no other value; order and heights stay exact; Counts stay exact and an AVL tree stays one under the intended rule |
| Insertion.InsertInto | histogram-item.go:169-200 | hanging a new leaf or descending on v's side meets the same promise for the child |
| Insertion.Insert | histogram-item.go:158-224 | the tree after root.Insert(v, count) holds count more copies of v; order and heights stay exact; a value already present only gets its Duplications and the Counts on its search path bumped, with no new node and no rebalancing; Counts stay exact under the intended rule, and as written too when count is 1 or v is present; under the intended rule an AVL tree stays one and its height grows by at most one |
| Insertion.InsertContents | histogram-item.go:162-168 | as a multiset, Insert adds exactly count copies of v |
| Deletion.Decrement | histogram-item.go:230-237 | Delete on a node with more than one copy removes one copy of v and keeps shape, values, order and balance; Counts drop by one |
| Deletion.DecrementContents | histogram-item.go:230-237 | as a multiset, Decrement removes one copy of v |
| Deletion.RemoveMax | histogram-item.go:274-283 | unlinking FindLargestInLeft's node: the node holds the largest value, its copies leave the subtree and nothing else does; order, Counts and heights stay exact; under the intended rule an AVL subtree stays one and shrinks by at most one |
| Deletion.RemoveMin | histogram-item.go:284-293 | the mirror image for FindSmallestInRight's node |
| Deletion.PredecessorInPlace | histogram-item.go:310-337 | the predecessor put in t's place (Count t.Count - t.Duplications, t's Height, t's right child) gives a subtree without t's value whose order and Counts are exact |
| Deletion.SuccessorInPlace | histogram-item.go:310-337 | the same for the successor replacing a node without a left child |
| Deletion.Unlink | histogram-item.go:244-359 | what takes the place of the deleted node: t's value and its copies are gone and nothing else; order, Counts and heights stay exact; an AVL subtree stays one under the intended rule |
| Deletion.RemoveNode | histogram-item.go:240-378 | deleting the node holding v: all its copies and the value go, nothing else changes; Counts and heights stay exact; AVL kept under the intended rule |
| Deletion.RemoveNodeContents | histogram-item.go:240-374 | as a multiset, removing a node holding one copy removes exactly one copy of v |
| Deletion.Delete | histogram-item.go:229-379 | Delete() on the node holding v removes one copy of v (the value itself with its last copy); order, Counts and heights stay exact; under the intended rule an AVL tree stays one and its height drops by at most one |
| HistogramBuckets.Trunc | histogram-buckets.go:34 | Go's int64(x): the integer toward zero within one of x |
| HistogramBuckets.Round | histogram-buckets.go:32 | math.Round: the nearest integer, halves away from zero |
| HistogramBuckets.Position | histogram-buckets.go:26-38 | the index shared by both CalcPosition functions: -1 for a zero size |
| HistogramBuckets.Put | histogram-buckets.go:50-58 | nil-padding to hold index i and storing x there: the length grows to i + 1 if needed, slot i holds x, the old slots are kept and the new ones are nil |
| HistogramBuckets.SubBucketHistogram.constructor | histogram-buckets.go:17-24 | an empty bucket list with the given size and boundaries |
| HistogramBuckets.SubBucketHistogram.Insert | histogram-buckets.go:40-59 | nothing for nil; otherwise the list padded to hold the node's position with the node stored there and every other slot kept; stored nodes stay in their own buckets |
| HistogramBuckets.SubBucketHistogram.Delete | histogram-buckets.go:61-67 | the node's slot cleared when it is within the list, nothing otherwise; the node is no longer in the list |
| HistogramBuckets.BucketHistogram.constructor | histogram-buckets.go:77-83 | no intervals, with the given sizes |
| HistogramBuckets.BucketHistogram.GetLowerAndUpperBoundaries | histogram-buckets.go:98-102 | interval idx starts at idx * SubBucketHistogramSize and is that wide |
| HistogramBuckets.BucketHistogram.CalcPosition | histogram-buckets.go:85-96 | (-1, -1, -1) for a zero interval size; otherwise an index with that index's boundaries |
| HistogramBuckets.BucketHistogram.Insert | histogram-buckets.go:104-126 | nothing for nil; otherwise the interval list padded to hold the index, an interval created with that index's boundaries only where the slot was nil, and the node inserted into it; every other interval unchanged; in the table of all bucket lists, the node's place holds the node and no other place changes |
| HistogramBuckets.BucketHistogram.Pad | histogram-buckets.go:112-115 | the loop appends exactly enough nil intervals to hold idx, which adds empty rows to the table of bucket lists |
| HistogramBuckets.BucketHistogram.Provide | histogram-buckets.go:117-119 | a new empty interval with idx's boundaries only where slot idx was nil; an existing one is kept; the table of bucket lists is unchanged |
| HistogramBuckets.BucketHistogram.Fill | histogram-buckets.go:124 | the interval's Insert changes that interval's bucket list, and so that row of the table, and no other interval |
| HistogramBuckets.BucketHistogram.Delete | histogram-buckets.go:128-136 | nothing for nil, an index past the end or a missing interval; otherwise that interval's Delete; in the table of all bucket lists, the node's place is empty and no other place changes |
| HistogramBuckets.DistinctPositions | histogram-buckets.go:26-38 | two distinct values on the grid of the bucket width, both with non-negative indices, get different places (interval, bucket), so the index never stores two nodes in one bucket |
| HistogramBuckets.AdjacentBoundaries | histogram-buckets.go:98-102 | interval idx ends where interval idx + 1 starts |
| HistogramBuckets.NonNegativeIndexable | histogram-buckets.go:85-96 | with intervals at least one unit wide, every non-negative value has non-negative indices |
| HistogramBuckets.TenthsIndexable | histogram-buckets.go:85-96 | with intervals and buckets a tenth wide, the value k/10 is in interval k, bucket 0 |
| HistogramBuckets.RoundedIntervalBelowValue | histogram-buckets.go:89-93 | rounding the interval index can put 0.06 in interval [0.1, 0.2), where its bucket index is -40 |
| SlidingWindow.WalkPercentiles | histogram.go:169-213 | the percentile walk keeps the tracked percentiles and leaves each pointing at a node of the tree |
| SlidingWindow.MinAfterInsert | histogram.go:161-163 | after an insert, the old minimum's Smaller link (when present) is the new leftmost node |
| SlidingWindow.MaxAfterInsert | histogram.go:164-166 | after an insert, the old maximum's Larger link (when present) is the new rightmost node |
| SlidingWindow.MinAfterDelete | histogram.go:272-274 | after a delete, the tree is empty exactly when the last node went; a minimum whose node went is replaced by that node's Larger |
| SlidingWindow.MaxAfterDelete | histogram.go:269-271 | a maximum whose node went is replaced by that node's Smaller |
| SlidingWindow.LatestIsWindow | histogram.go:246-248 | a window of size n keeps a suffix of the values: all of them when they fit or the window is unbounded, otherwise exactly n |
| SlidingWindow.LatestOfLatest | histogram.go:246-248 | evicting after every Enqueue keeps what evicting once after all of them would |
| SlidingWindow.LastEvicted | histogram.go:246-248 | a last evicted value exists exactly when the window dropped something |
| SlidingWindow.WindowCount | histogram.go:235-236 | in a window, Count == RootItem.Count == len(Queue) |
| SlidingWindow.AddToTree | histogram.go:156-220 | Enqueue's tree steps: copies copies of v added, a new node created exactly when v was absent, the window invariant (exact Counts included, with the corrected Count of a new root) kept with MinItem and MaxItem updated |
| SlidingWindow.TakeFromTree | histogram.go:258-274 | Dequeue's tree steps: one copy of the front value removed, its node removed exactly when the value is gone, the window invariant kept |
| SlidingWindow.EnqueueValues | histogram.go:150-236 | Enqueue on the field values: queue and Count grow by the copies, the value is stored, tracked percentiles set outright on an empty tree (node, count, 1) and walked otherwise |
| SlidingWindow.EnqueueStep | histogram.go:150-236 | ... and a new node placed in its bucket: afterwards the bucket index holds exactly the tree's nodes, each in its own place (Indexed) |
| SlidingWindow.DequeueValues | histogram.go:257-345 | Dequeue of a non-empty queue: the front value leaves the queue and one copy of it leaves the tree; Count drops by one; percentiles walked while values remain |
| SlidingWindow.DequeueStep | histogram.go:257-345 | ... and a removed node's bucket cleared: afterwards the bucket index holds exactly the remaining tree's nodes, each in its own place (Indexed) |
| SlidingWindow.AppendCopies | histogram.go:230-232 | the loop appends exactly copies copies of v to the back of the queue |
| SlidingWindow.IndexNode | histogram.go:227-229 | a value that got a node of its own is inserted into the bucket index, which then holds exactly the nodes of the tree that gained it; nothing changes otherwise |
| SlidingWindow.UnindexNode | histogram.go:275 | a value whose node went has its bucket cleared, and the index then holds exactly the nodes of the tree that lost it; nothing changes otherwise |
| SlidingWindow.TabledAfterInsert | histogram.go:227-229 | storing v in its place and changing no other place keeps the table exact for the tree that gained v, when no stored value shares v's place |
| SlidingWindow.TabledAfterDelete | histogram.go:275 | clearing v's place and changing no other place keeps the table exact for the tree that lost v |
| SlidingWindow.PlacesApart | histogram-buckets.go:85-96 | a new grid value with non-negative indices has a place no stored value has |
| SlidingWindow.TabledIndexable | histogram-buckets.go:40-59 | a value held in its own bucket has non-negative indices |
| SlidingWindow.DropsToWindow | histogram.go:246-248 | the eviction loop continues exactly while fewer than the values to evict have gone, and ends with the window and the last evicted value |
| SlidingWindow.Repeat | histogram.go:230-232 | n copies of v |
| SlidingWindow.RepeatIsCopies | histogram.go:230-232 | the appended copies are, as a multiset, n copies of v |
| Histograms.Pow10 | histogram.go:51 | math.Pow(10, a) is positive, and at least 1 for a non-negative exponent |
| Histograms.UnifiedIdempotent | histogram.go:99-104 | unifying a unified value changes nothing |
| Histograms.UnifiedIsClose | histogram.go:99-104 | a unified value is within half a step of the value |
| Histograms.UnifiedOnGrid | histogram.go:99-104 | a unified value is a whole number of buckets from zero when the bucket width is 1/Accuracy |
| Histograms.WaterMark | histogram.go:71-76 | 0 for an unbounded window, otherwise Count/QueueSize, between 0 and 1 and 1 exactly when the window is full |
| Histograms.Histogram.GetWaterMark | histogram.go:71-76 | the fraction of the window in use |
| Histograms.Histogram.constructor | histogram.go:49-69 | an empty window of the given size, nil root, Count 0, no percentiles, buckets 10^-accuracy wide (1 for accuracy 0), intervals 10 wide when the size given is 0 |
| Histograms.Histogram.AddPercentilePoint | histogram.go:106-121 | p is tracked afresh, pointing at no node, and GetPercentileItem(p) returns it; nothing else changes |
| Histograms.Histogram.Enqueue | histogram.go:145-250 | with the corrected root Count: the window holds the latest QueueSize of the old values followed by copies copies of the unified value; the result is the last value evicted; Count == RootItem.Count == len(Queue); on an empty tree every percentile points at the new node with its count and 1 |
| Histograms.Histogram.Append | histogram.go:150-232 | Enqueue before its eviction loop: copies copies of v appended to the queue, the histogram's invariant kept, percentiles set outright on an empty tree |
| Histograms.Histogram.Evict | histogram.go:246-248 | the eviction loop keeps the latest QueueSize values and returns the last one it dequeued; Count == RootItem.Count == len(Queue) afterwards; with nothing to evict the percentiles do not change |
| Histograms.Histogram.Dequeue | histogram.go:253-363 | on an empty queue nil and no change; otherwise the front value is returned and removed from the queue and, one copy, from the tree; Count drops by one |
| Percentiles.Pointee | histogram.go:114-121 | a value exactly when p is tracked and its item is set |
| Percentiles.GetValueAtPercentile | histogram.go:123-130 | the tracked item's value when there is one; otherwise CalcPercentileOfProduct over the histogram alone, 0 for a histogram with no intervals |
| Percentiles.NonNil | histogram.go:574-577 | the good histograms are no more than the list |
| Percentiles.NonNilKeepsHistograms | histogram.go:574-577 | the good histograms are exactly the list's non-nil entries |
| Percentiles.TrackedByAllMeansEach | histogram.go:578-584 | the tracked flag holds exactly when every good histogram tracks p |
| Percentiles.MaxLengthIsLargest | histogram.go:585-588 | max_subhistogram_length is the largest interval count, 0 for no histograms |
| Percentiles.StartIsLargest | histogram.go:593-608 | the start point is the largest value percentile p points at, -1 when none is larger, and the start index is its interval index |
| Percentiles.CalcPercentileOfProduct | histogram.go:548-616 | 0 for no histograms or a single nil one; a single histogram's tracked node value; otherwise the search over the non-nil histograms from the start point and index (-1 and 0 unless all track p) up to the last interval index, or 0 when the start index is already past it |
| Percentiles.Gather | histogram.go:572-589 | the loop collects the non-nil histograms, whether all track p, and the largest interval count |
| Percentiles.StartPoint | histogram.go:593-608 | the loop computes the start point and index |
| Percentiles.NoHistogramsAnswerZero | histogram.go:550-557 | an empty list or a list of nil histograms gives 0 |
| Percentiles.EmptyIndexAnswersZero | histogram.go:379-381 | a histogram with no intervals and no pointed percentile gives 0, the search's initial answer |
| Cdf.Tenths | cdf.go:47-49 | one rounded value per point |
| Cdf.TenthsInOrder | cdf.go:47-49 | each point's value, rounded to tenths, in the points' order |
| Cdf.CDF.constructor | cdf.go:25-30 | n points, all nil, Amount n, no histogram |
| Cdf.CDF.Histogram | cdf.go:32-53 | the cached histogram when there is one, unchanged; otherwise a new one of window count_zero + Amount, intervals and buckets 0.1 wide, tracking 0.99, holding the latest of count_zero zeros and the points' values, which becomes the cache |
| Cdf.Build | cdf.go:39-50 | the histogram holds the latest window of count_zero zeros followed by the points' values rounded to tenths |
| Cdf.Seed | cdf.go:42-44 | the histogram before the points: window and sizes as built, 0.99 tracked, count_zero zeros |
| Cdf.Feed | cdf.go:47-49 | one iteration of the loop keeps the histogram holding the zeros and the points so far |
| Cdf.HistogramOf | cdf.go:33-35 | nil for a nil CDF; otherwise its histogram, the cached one when there was one |
| Cdf.Built | cdf.go:61-66 | one histogram per CDF, nil for a nil CDF |
| Cdf.SearchCDFProduct | cdf.go:56-70 | 0 for no CDFs; otherwise every non-nil CDF has its histogram and the answer is CalcPercentileOfProduct over them |
| Scalability.Merge | histogram_scalability_test.py:43-45 | the merged cell keeps hist_count, window_size and percentile, counts both, and latency times count is the old total plus the new latency |
| Scalability.MergeIsWeightedMean | histogram_scalability_test.py:44 | the merged latency is the count-weighted mean exactly when the new count is 1 or its latency is 0 |
| Scalability.MergeMean | histogram_scalability_test.py:43-45 | merging a count-1 measurement into the mean of s gives the mean of s with it |
| Scalability.SaveCell | histogram_scalability_test.py:40-45 | a row stays well formed: column keys once each, each with a cell of count at least 1 |
| Scalability.Save | histogram_scalability_test.py:37-45 | the table stays well formed: a row created when new, row keys in first-save order |
| Scalability.SavedCell | histogram_scalability_test.py:37-45 | saving changes only the cell under its keys: a new cell holds perf as is, an existing one Merges it |
| Scalability.Step | histogram_scalability_test.py:56-70 | a marked line is saved under its keys with count 1; the table stays well formed |
| Scalability.FoldLines | histogram_scalability_test.py:56-70 | folding lines keeps the table well formed |
| Scalability.OnlyMarkedLinesCount | histogram_scalability_test.py:57 | lines without the marker contribute nothing |
| Scalability.CellIsMean | histogram_scalability_test.py:50-70 | every cell exists exactly when a line was saved under its keys, counts those lines, holds the arithmetic mean of their latencies, and the keys' hist_count, percentile and window_size |
| Scalability.FoldAppend | histogram_scalability_test.py:50-56 | folding file after file is folding all their lines |
| Scalability.ColLatencies | histogram_scalability_test.py:75-79 | one latency per column, each the cell's, in column order |
| Scalability.ReportOf | histogram_scalability_test.py:72-80 | one report line per row |
| Scalability.Aggregator.constructor | histogram_scalability_test.py:48 | an empty table |
| Scalability.Aggregator.SaveToRow | histogram_scalability_test.py:37-45 | save_to_row updates the table to Save of it |
| Scalability.Aggregator.Consume | histogram_scalability_test.py:56-70 | the loop over one file's lines leaves the fold of those lines |
| Scalability.Aggregator.Aggregate | histogram_scalability_test.py:50-70 | the loop over all files leaves the fold of all their lines |
| Scalability.Aggregator.Report | histogram_scalability_test.py:72-80 | the output loop builds the report lines in row-insertion order |
| Scalability.RowReport | histogram_scalability_test.py:74-80 | the inner loop builds a row's line: the first cell's hist_count, then each column's latency |
| Scalability.ReportIsUnsorted | histogram_scalability_test.py:82-84 | rows saved for 4 and then 2 histograms are reported as 4, 2 |
| Scalability.InsertLine | histogram_scalability_test.py:82 | inserting a line adds exactly that line |
| Scalability.InsertKeepsAscending | histogram_scalability_test.py:82 | inserting into ascending lines keeps them ascending |
| Scalability.SortedReport | histogram_scalability_test.py:82 | the sorted report is a permutation of the lines |
| Scalability.SortedReportIsAscending | histogram_scalability_test.py:82 | the sorted report is in ascending hist_count |
| Scalability.ReportLinesHaveCounts | histogram_scalability_test.py:77-78 | every report line of a saved table starts with its hist_count |
| Findings.NewLeafCountAsWritten | histogram-item.go:170-171 | inserting three copies of a new value as written gives the new node Count 1, so Counts are no longer exact |
| Findings.EmptyEnqueueCountAsWritten | histogram.go:216-220 | enqueueing copies ≠ 1 copies into an empty histogram as written gives the root Duplications copies and Count 1, so no window invariant holds |
| Findings.InsertUnbalancesAsWritten | histogram-item.go:417-424 | inserting 50, 30, 60, 20, 40, then 10 as written leaves an unbalanced tree |
| Findings.DeleteUnbalancesAsWritten | histogram-item.go:412-429 | deleting 60 from the tree of 50, 30, 60, 40 as written leaves an unbalanced tree |

## Left out

- SearchPercentileByMultiply (histogram.go:365-546): float products of ratios with a 30-iteration cap. `CalcPercentileOfProduct` is modelled up to the arguments it passes to the search (`Product.Search`), plus the case where the search returns its initial 0 at once.
- SlidingWindow.WalkPercentiles: the percentile walks of Enqueue and Dequeue (histogram.go:169-213, 283-343) compare float ratios. The model promises only that each tracked percentile stays and ends on a node of the tree. It does not model which node, nor `Count` and `RealPercentage` after the walk, except where Enqueue sets them outright on an empty tree.
- Histograms.Histogram.Dequeue: it does not say which node the percentiles point at afterwards (see WalkPercentiles).
- The running `Mean` and `Variance` (histogram.go:234-244, 348-360), including their reset to 0 when the queue empties: floating-point numerics.
- `GetPercentileForValue`, `GetIndexOfSubHistogram`, `GetLengthOfSubHistograms`, `GetMaximumSizeOfSubHistograms`, `GetValueOfBucket` (histogram.go:78-95, 132-139): thin accessors outside the modelled operations.
- `PercentileKey` (`strconv.FormatFloat`): the percentile map is keyed by the percentile itself, as if the key function were injective.
- The `sync.Mutex` of Enqueue: no concurrency is modelled.
- `Describe`, `GetRoot`, and the `DEBUG` and `log.Printf` output: diagnostics.
- The parent, `Smaller` and `Larger` pointers as mutable fields: they are derived from the tree value. So the model does not capture in-place update, aliasing between a queue entry and a tree node, or a node object that outlives its deletion.
- The Smaller/Larger splice code of Insert and Delete (histogram-item.go:174-190, 260-265, 339-353) is not verified. The links are derived from the in-order traversal, so the model assumes the splices keep the threaded list equal to it.
- Insert's "identical child" repair branches (histogram-item.go:202-205, 213-216): they cannot be reached in an ordered tree.
- Insert's `recursion_level` argument: only logging uses it.
- Float rounding of values: values are exact reals. `UnifiedValue` rounds them exactly, to the nearest multiple of 1/Accuracy.
- `CDF.Histogram()` on a nil receiver is modelled by `Cdf.HistogramOf`, because a Dafny method cannot have a null receiver.
- Cdf.CDF.Histogram: requires `Buildable`. That means every point set, `StartPoint != 1`, a non-negative `count_zero`, and values with non-negative bucket positions. The excluded cases behave differently in the source:
  - An unset point makes it panic on a nil dereference, and a negative bucket position on a negative slice index.
  - `StartPoint == 1` makes `count_zero` the int conversion of +Inf, a value Go leaves to the platform.
  - A negative `count_zero` does not panic. For example, StartPoint 0.5 with Amount 0 gives -1: the window is unbounded, and Enqueue(0, -1) makes a root with Duplications -1. The model's Enqueue takes a natural number of copies, so it does not cover this case.
- Histograms.Histogram.Enqueue: requires a non-negative bucket position for a new value, and pointed percentiles on a non-empty tree. The source indexes with a negative index and dereferences a nil item otherwise.
- Histograms.Histogram.Enqueue: `copies` is a natural number. The source's `count` is an int, and a negative one appends nothing to the queue but stores negative Duplications.
- Histograms.Histogram.Enqueue: the window runs on the corrected tree. On an empty tree the new root gets Count `copies`, where the source leaves it at 1 (see Findings). So Count == RootItem.Count == len(Queue) is proved for the corrected root only; Findings.EmptyEnqueueCountAsWritten shows the source's root breaking it.
- SlidingWindow.AddToTree: the same corrected root Count on an empty tree, and the corrected Count of a new node inside the tree (Insertion.Insert under the intended rule).
- SlidingWindow.EnqueueValues: its window invariant includes exact Counts, which hold for the corrected tree of AddToTree and not for the source's when a new value comes with copies other than 1.
- Cdf.Seed: Enqueue(0, count_zero) on the empty histogram gives the root Count count_zero, where the source leaves it at 1.
- Queries.CumulativeCount: requires that v is stored, so that the walk starts at a node. On a nil receiver the source returns 0 (histogram-item.go:132), a case the modelled callers never reach.
- The Python script's argument parsing, file reading, regex whitespace collapsing, splitting of the line into numbers, float parsing and rounding of the latency, and `print`. A line is given with its numbers already read out.
- The Python script's row and column keys are strings built from the numbers. They are modelled by the numbers themselves, as if formatting were injective.
- Scalability.Aggregator.SaveToRow: requires an incoming count of at least 1. The script always passes 1, and the division needs a non-zero sum.
- Scalability.Merge: it is the weighted mean only for an incoming count of 1, as MergeIsWeightedMean proves. The script's formula is modelled as written.

## Findings

| source | as written | input that shows it | evidently intended | confidence | as-written member | corrected member |
|---|---|---|---|---|---|---|
| histogram-item.go:170-171 | a new node for `count` copies gets `Duplications = count` but keeps the `Count` of 1 that NewHistogramItem gave it | inserting 3 copies of 2 into a tree holding 1: the new node has Count 1, the root Count 4 | the new node's `Count` is `count`, so every Count is its Duplications plus its children's | high, not executed | Findings.NewLeafCountAsWritten | Insertion.Insert |
| histogram.go:216-220 | Enqueue on an empty tree makes the root with NewHistogramItem (Count 1) and sets only `Duplications = count` | NewHistogram(10, 0, 1).Enqueue(5, 3): RootItem.Count is 1 while Count and len(Queue) are 3 | the root's `Count` is `count`, so that Count == RootItem.Count == len(Queue), as Histograms.Histogram.Enqueue then proves | high, not executed | Findings.EmptyEnqueueCountAsWritten | SlidingWindow.AddToTree |
| histogram-item.go:417-424 | on insert, the child is rotated first whenever it has an inner child (`c.Left.Right != nil`), even when it leans outward | inserting 50, 30, 60, 20, 40, then 10: node 30 ends with a left subtree of height 2 and no right subtree | rotate the child first only when its inner subtree is higher | high, not executed | Findings.InsertUnbalancesAsWritten | RotationLemmas.StepBalances |
| histogram-item.go:412-448 | on delete (`isInserting` false) the child is never rotated first, so an inward-leaning child gets a single rotation | inserting 50, 30, 60, 40, then deleting 60: root 30 with no left subtree and a right subtree of height 2 | a double rotation when the heavy child leans inward, on delete as well | high, not executed | Findings.DeleteUnbalancesAsWritten | Deletion.Delete |
| histogram_scalability_test.py:82 | `sorted(lines, ...)` is computed and discarded, and the unsorted lines are printed | rows saved for 4 and then 2 histograms print as 4, then 2 | print the lines in ascending hist_count | high, not executed | Scalability.ReportIsUnsorted | Scalability.SortedReportIsAscending |
