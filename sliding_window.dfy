/**
 * What Enqueue and Dequeue of histogram.go compute, on the values of a Histogram's
 * fields: the tree steps with the MinItem and MaxItem bookkeeping, the percentile
 * walks, the queue updates, and the invariant (Window) tying the queue, the tree,
 * Count and the extremes together.
 *
 * Tree nodes are identified by their values, as the tree keeps one node per
 * value: a queue entry, MinItem, MaxItem and a percentile's Item are values.
 * The tree operations are the intended ones (Variant Intended).
 */
module SlidingWindow {
  import opened Wrappers
  import opened HistogramItem
  import Insertion
  import Deletion
  import opened HistogramBuckets
  import Queries

  /** A tracked percentile: the node it points at, the number of values up to that
      node and the fraction of all values that is. The source keys the map by the
      percentile's text (PercentileKey); here it is keyed by the percentile itself. */
  datatype PercentileItem = PercentileItem(percentile: real, item: Option<real>, count: int, realPercentage: real)

  /** NewPercentileItem: a percentile that points at no node yet. */
  function NewPercentileItem(p: real): PercentileItem
  {
    PercentileItem(p, None, 0, 0.0)
  }

  /** MinItem and MaxItem are the leftmost and rightmost nodes, nil with the tree. */
  ghost predicate HasExtremes(t: Item, minItem: Option<real>, maxItem: Option<real>)
  {
    && (t.Nil? ==> minItem.None? && maxItem.None?)
    && (t.Node? ==> minItem == Some(Leftmost(t)) && maxItem == Some(Rightmost(t)))
  }

  /** Every tracked percentile points at a node. */
  predicate Pointed(m: map<real, PercentileItem>)
  {
    forall p :: p in m ==> m[p].item.Some?
  }

  /** What the percentile walks of Enqueue and Dequeue are allowed to do in this
      model: keep the set of tracked percentiles and leave each pointing at a node
      of the tree t. */
  predicate Walked(before: map<real, PercentileItem>, after: map<real, PercentileItem>, t: Item)
  {
    && after.Keys == before.Keys
    && (forall p :: p in after ==> after[p].percentile == before[p].percentile && after[p].item.Some?)
    && (forall p :: p in after ==> after[p].item.value in Keys(t))
  }

  /** Each tracked percentile sits under its own key. */
  predicate Keyed(m: map<real, PercentileItem>)
  {
    forall p :: p in m ==> m[p].percentile == p
  }

  /** A table of buckets lists holds exactly the values stored in t, each in the
      bucket `pos` gives it: every stored value is found there, and every bucket
      that holds a node holds a stored value whose place it is. */
  ghost predicate Tabled(table: seq<seq<Option<real>>>, t: Item, pos: real -> (int, int))
  {
    && (forall k {:trigger pos(k)} :: k in Keys(t) ==> At(table, pos(k).0, pos(k).1) == Some(k))
    && (forall i, j :: At(table, i, j).Some? ==> At(table, i, j).value in Keys(t) && pos(At(table, i, j).value) == (i, j))
  }

  /** Every value stored in t is on the grid of the bucket width. */
  ghost predicate Placeable(buckets: BucketHistogram, t: Item)
  {
    && buckets.bucketSize > 0.0
    && forall k :: k in Keys(t) ==> OnGrid(k, buckets.bucketSize)
  }

  /** A value that the table holds in its own bucket has non-negative indices. */
  lemma TabledIndexable(buckets: BucketHistogram, table: seq<seq<Option<real>>>, k: real)
    requires At(table, buckets.Pos(k).0, buckets.Pos(k).1) == Some(k)
    ensures buckets.Indexable(k)
  {
  }

  /** A grid value with a place in the index has a place no stored value has. */
  lemma PlacesApart(buckets: BucketHistogram, table: seq<seq<Option<real>>>, t: Item, v: real)
    requires Placeable(buckets, t) && Tabled(table, t, buckets.Pos)
    requires OnGrid(v, buckets.bucketSize) && buckets.Indexable(v)
    ensures forall k :: k in Keys(t) && k != v ==> buckets.Pos(k) != buckets.Pos(v)
  {
    var pos := buckets.Pos;
    forall k | k in Keys(t) && k != v
      ensures buckets.Pos(k) != buckets.Pos(v)
    {
      assert At(table, pos(k).0, pos(k).1) == Some(k);
      TabledIndexable(buckets, table, k);
      DistinctPositions(buckets, k, v);
    }
  }

  /** The bucket index holds exactly the tree's nodes, each in its own place. */
  ghost predicate Indexed(buckets: BucketHistogram, t: Item)
    reads buckets, buckets.subs
  {
    Placeable(buckets, t) && Tabled(buckets.Table(), t, buckets.Pos)
  }

  /** Storing a node for v in its bucket, and changing no other bucket, keeps the
      table exact for the tree that gained v, as long as no other stored value has
      v's place. */
  lemma TabledAfterInsert(table: seq<seq<Option<real>>>, table': seq<seq<Option<real>>>,
                          t: Item, t': Item, v: real, pos: real -> (int, int))
    requires Tabled(table, t, pos) && Keys(t') == Keys(t) + {v}
    requires forall k :: k in Keys(t) && k != v ==> pos(k) != pos(v)
    requires At(table', pos(v).0, pos(v).1) == Some(v)
    requires forall i, j :: (i, j) != pos(v) ==> At(table', i, j) == At(table, i, j)
    ensures Tabled(table', t', pos)
  {
    forall i, j | At(table', i, j).Some?
      ensures At(table', i, j).value in Keys(t') && pos(At(table', i, j).value) == (i, j)
    {
      if (i, j) != pos(v) {
        assert At(table', i, j) == At(table, i, j);
      }
    }
  }

  /** Clearing the bucket of v, and changing no other bucket, keeps the table exact
      for the tree that lost v. */
  lemma TabledAfterDelete(table: seq<seq<Option<real>>>, table': seq<seq<Option<real>>>,
                          t: Item, t': Item, v: real, pos: real -> (int, int))
    requires Tabled(table, t, pos) && v in Keys(t) && Keys(t') == Keys(t) - {v}
    requires At(table', pos(v).0, pos(v).1) == None
    requires forall i, j :: (i, j) != pos(v) ==> At(table', i, j) == At(table, i, j)
    ensures Tabled(table', t', pos)
  {
    forall k | k in Keys(t')
      ensures At(table', pos(k).0, pos(k).1) == Some(k)
    {
      assert At(table, pos(k).0, pos(k).1) == Some(k);
      assert At(table, pos(v).0, pos(v).1) == Some(v);
    }
    forall i, j | At(table', i, j).Some?
      ensures At(table', i, j).value in Keys(t') && pos(At(table', i, j).value) == (i, j)
    {
      assert At(table', i, j) == At(table, i, j);
    }
  }

  /** Everything a Histogram keeps true of its window, bucket index and percentiles:
      the queue holds exactly the tree's values and Count is their number, the tree
      is an AVL tree with the extremes recorded, the bucket index holds exactly the
      tree's nodes, and each tracked percentile sits under its own key. */
  ghost predicate Consistent(buckets: BucketHistogram, queue: seq<real>, root: Item, count: int,
                             minItem: Option<real>, maxItem: Option<real>, percentiles: map<real, PercentileItem>)
    reads buckets, buckets.Repr
  {
    && buckets.Valid()
    && Window(queue, root, count, minItem, maxItem)
    && Indexed(buckets, root)
    && Keyed(percentiles)
  }

  /** The percentile walks of Enqueue and Dequeue over a non-empty tree t. Their
      float ratio arithmetic is not modelled: each tracked percentile ends on some
      node of t. */
  method WalkPercentiles(ps: map<real, PercentileItem>, t: Item) returns (walked: map<real, PercentileItem>)
    requires t.Node?
    ensures Walked(ps, walked, t)
  {
    var w: map<real, PercentileItem> :| Walked(ps, w, t) by {
      var some := map p | p in ps :: ps[p].(item := Some(t.value));
      assert Walked(ps, some, t);
    }
    walked := w;
  }

  /** In an ordered tree the leftmost value is the one no stored value is below. */
  lemma LeftmostIsMin(t: Item, m: real)
    requires t.Node? && Ordered(t) && m in Keys(t) && forall k :: k in Keys(t) ==> m <= k
    ensures Leftmost(t) == m
  {
    assert Leftmost(t) <= m;
  }

  /** In an ordered tree the rightmost value is the one no stored value is above. */
  lemma RightmostIsMax(t: Item, m: real)
    requires t.Node? && Ordered(t) && m in Keys(t) && forall k :: k in Keys(t) ==> k <= m
    ensures Rightmost(t) == m
  {
    assert m <= Rightmost(t);
  }

  /** Enqueue's MinItem update: after inserting v, the old minimum's Smaller link,
      when there is one, leads to the new minimum. */
  lemma MinAfterInsert(t: Item, r: Item, v: real)
    requires t.Node? && Ordered(t) && Ordered(r) && Keys(r) == Keys(t) + {v}
    ensures r.Node?
    ensures Leftmost(r) == match Below(r, Leftmost(t)) case Some(k) => k case None => Leftmost(t)
  {
    assert v in Keys(r);
    var m := Leftmost(t);
    match Below(r, m)
    case Some(k) =>
      assert k == v;
      LeftmostIsMin(r, v);
    case None =>
      LeftmostIsMin(r, m);
  }

  /** Enqueue's MaxItem update: the mirror image of MinAfterInsert. */
  lemma MaxAfterInsert(t: Item, r: Item, v: real)
    requires t.Node? && Ordered(t) && Ordered(r) && Keys(r) == Keys(t) + {v}
    ensures r.Node?
    ensures Rightmost(r) == match Above(r, Rightmost(t)) case Some(k) => k case None => Rightmost(t)
  {
    assert v in Keys(r);
    var m := Rightmost(t);
    match Above(r, m)
    case Some(k) =>
      assert k == v;
      RightmostIsMax(r, v);
    case None =>
      RightmostIsMax(r, m);
  }

  /** Dequeue's MinItem update: when the node holding v goes, a minimum that was v
      moves to v's Larger link; a tree that keeps its values keeps its minimum. */
  lemma MinAfterDelete(t: Item, r: Item, v: real, removed: bool)
    requires t.Node? && Ordered(t) && Ordered(r) && v in Keys(t)
    requires Keys(r) == if removed then Keys(t) - {v} else Keys(t)
    ensures r.Nil? <==> removed && Above(t, v).None? && Below(t, v).None?
    ensures r.Node? ==> Leftmost(r) == if removed && Leftmost(t) == v then Above(t, v).value else Leftmost(t)
  {
    var m := Leftmost(t);
    if r.Node? {
      if removed && m == v {
        var k :| k in Keys(r);
        assert Above(t, v).Some?;
        LeftmostIsMin(r, Above(t, v).value);
      } else {
        LeftmostIsMin(r, m);
      }
    } else {
      assert Keys(r) == {};
      assert forall k :: k in Keys(t) ==> k == v;
    }
    if r.Node? && removed {
      var k :| k in Keys(r);
      assert k != v && k in Keys(t);
    }
  }

  /** Dequeue's MaxItem update: the mirror image of MinAfterDelete. */
  lemma MaxAfterDelete(t: Item, r: Item, v: real, removed: bool)
    requires t.Node? && Ordered(t) && Ordered(r) && v in Keys(t)
    requires Keys(r) == if removed then Keys(t) - {v} else Keys(t)
    ensures r.Node? ==> Rightmost(r) == if removed && Rightmost(t) == v then Below(t, v).value else Rightmost(t)
  {
    var m := Rightmost(t);
    if r.Node? {
      if removed && m == v {
        var k :| k in Keys(r);
        assert Below(t, v).Some?;
        RightmostIsMax(r, Below(t, v).value);
      } else {
        RightmostIsMax(r, m);
      }
    }
  }

  /** A stored copy of v means a node holding v. */
  lemma StoredIsKey(t: Item, v: real)
    requires Contents(t)[v] > 0
    ensures v in Keys(t)
  {
    if v !in Keys(t) {
      NotInKeys(t, v);
    }
  }

  /** The queue, the tree, Count and the extremes agree: the queue holds exactly the
      tree's values, Count is their number and the root's Count, the tree is an AVL
      tree and MinItem and MaxItem are its leftmost and rightmost nodes. */
  ghost predicate Window(queue: seq<real>, root: Item, count: int, minItem: Option<real>, maxItem: Option<real>)
  {
    && IsAvl(root)
    && count == |queue| && multiset(queue) == Contents(root)
    && HasExtremes(root, minItem, maxItem)
  }

  /** What a window of `size` values keeps of the values s enqueued in order: the
      last `size` of them, all of them when the window is unbounded. */
  function Latest(s: seq<real>, size: int): seq<real>
  {
    if size > 0 && |s| > size then s[|s| - size..] else s
  }

  /** Latest is a suffix of the values: all of them when they fit the window, and
      otherwise exactly as many as the window holds. */
  lemma LatestIsWindow(s: seq<real>, size: int)
    ensures var r := Latest(s, size);
      && |r| <= |s| && r == s[|s| - |r|..]
      && (size > 0 ==> |r| <= size)
      && (size <= 0 || |s| <= size ==> r == s)
      && (size > 0 && |s| > size ==> |r| == size)
  {
  }

  /** Enqueueing into a window that already dropped its oldest values keeps the same
      values as enqueueing everything into it. */
  lemma LatestOfLatest(s: seq<real>, t: seq<real>, size: int)
    ensures Latest(Latest(s, size) + t, size) == Latest(s + t, size)
  {
    if size > 0 && |s| > size {
      var l := s[|s| - size..];
      if |l + t| > size {
        assert (l + t)[|l + t| - size..] == (s + t)[|s + t| - size..];
      } else {
        assert t == [];
        assert s + t == s;
      }
    }
  }

  /** Dropping values from the front of s while more than `size` remain: another
      drop is due exactly while fewer than the evicted ones have gone, and once no
      more is due, the rest is the window and the last value dropped the last one
      evicted. */
  lemma DropsToWindow(s: seq<real>, k: nat, size: int)
    requires k <= |s| - |Latest(s, size)|
    ensures size > 0 && |s| - k > size ==> k < |s| - |Latest(s, size)|
    ensures size <= 0 || |s| - k <= size ==>
      s[k..] == Latest(s, size) && LastEvicted(s, size) == if k == 0 then None else Some(s[k - 1])
  {
  }

  /** The last value a window of `size` evicts while the values s are enqueued in
      order, if it evicts any. */
  function LastEvicted(s: seq<real>, size: int): (r: Option<real>)
    ensures r.Some? <==> Latest(s, size) != s
  {
    if size > 0 && |s| > size then Some(s[|s| - size - 1]) else None
  }

  /** In a Window the root's Count is the length of the queue (the source's
      Count == RootItem.Count == len(Queue)). */
  lemma WindowCount(queue: seq<real>, root: Item, count: int, minItem: Option<real>, maxItem: Option<real>)
    requires Window(queue, root, count, minItem, maxItem)
    ensures Count(root) == count == |queue|
  {
    Queries.CountIsSize(root);
  }

  /** Enqueue's tree steps: insert `copies` copies of v into the tree, or make a leaf
      of them that is root, minimum and maximum of an empty tree, and move MinItem and
      MaxItem along their Smaller and Larger links when those now lead somewhere.
      With the copies appended to the queue, the Window holds again. `created` is the
      source's test `item.Duplications == count`: v had no copies before. */
  method AddToTree(ghost queue: seq<real>, root: Item, ghost count: int, minItem: Option<real>, maxItem: Option<real>, v: real, copies: nat)
    returns (r: Item, newMin: Option<real>, newMax: Option<real>, created: bool)
    requires Window(queue, root, count, minItem, maxItem)
    ensures Window(queue + Repeat(v, copies), r, count + copies, newMin, newMax)
    ensures Keys(r) == Keys(root) + {v} && Count(r) == count + copies
    ensures created <==> Contents(root)[v] == 0
  {
    RepeatIsCopies(v, copies);
    if root.Node? {
      r := Insertion.Insert(root, v, copies, Intended);
      MinAfterInsert(root, r, v);
      MaxAfterInsert(root, r, v);
      newMin, newMax := minItem, maxItem;
      var below := Below(r, minItem.value);
      if below.Some? {
        newMin := below;
      }
      var above := Above(r, maxItem.value);
      if above.Some? {
        newMax := above;
      }
    } else {
      r := NewLeaf(v, copies, Intended);
      newMin, newMax := Some(v), Some(v);
    }
    assert Contents(r) == Contents(root) + Copies(v, copies);
    assert multiset(queue + Repeat(v, copies)) == multiset(queue) + Copies(v, copies);
    assert v in Keys(r);
    created := Find(r, v).dups == copies;
    Queries.CountIsSize(r);
  }

  /** Dequeue's tree steps for the front value v: take one copy of v out of the tree;
      when its node goes, a MaxItem that was that node moves to its Smaller neighbour
      and a MinItem to its Larger neighbour. With v taken off the queue, the Window
      holds again. `removed` says whether the node went. */
  method TakeFromTree(ghost queue: seq<real>, root: Item, ghost count: int, minItem: Option<real>, maxItem: Option<real>, v: real)
    returns (r: Item, newMin: Option<real>, newMax: Option<real>, removed: bool)
    requires Window(queue, root, count, minItem, maxItem) && queue != [] && v == queue[0]
    ensures Window(queue[1..], r, count - 1, newMin, newMax)
    ensures Contents(r) == Contents(root) - multiset{v} && Count(r) == count - 1
    ensures v in Keys(root) && Keys(r) == if removed then Keys(root) - {v} else Keys(root)
    ensures removed <==> v !in Keys(r)
  {
    assert queue == [v] + queue[1..];
    StoredIsKey(root, v);
    var smaller := Below(root, v);
    var larger := Above(root, v);
    removed := Find(root, v).dups <= 1;
    r := Deletion.Delete(root, v, Intended);
    MinAfterDelete(root, r, v, removed);
    MaxAfterDelete(root, r, v, removed);
    newMin, newMax := minItem, maxItem;
    if removed {
      if maxItem == Some(v) {
        newMax := smaller;
      }
      if minItem == Some(v) {
        newMin := larger;
      }
    }
    Queries.CountIsSize(r);
    assert multiset(queue[1..]) == multiset(queue) - multiset{v};
  }

  /** Enqueue on the values of the histogram's fields: the tree steps of AddToTree,
      the percentiles set outright on an empty tree and walked otherwise, the loop
      appending the copies to the queue, and the bucket index of a new node. */
  method EnqueueStep(buckets: BucketHistogram, queue: seq<real>, root: Item, count: int,
                     minItem: Option<real>, maxItem: Option<real>, ps: map<real, PercentileItem>, v: real, copies: nat)
    returns (queue': seq<real>, root': Item, count': int, minItem': Option<real>, maxItem': Option<real>,
             ps': map<real, PercentileItem>)
    requires Consistent(buckets, queue, root, count, minItem, maxItem, ps)
    requires v in Keys(root) || (OnGrid(v, buckets.bucketSize) && buckets.Indexable(v))
    modifies buckets, buckets.Repr
    ensures Consistent(buckets, queue', root', count', minItem', maxItem', ps')
    ensures fresh(buckets.Repr - old(buckets.Repr))
    ensures queue' == queue + Repeat(v, copies) && count' == count + copies
    ensures Keys(root') == Keys(root) + {v}
    ensures root.Nil? ==> ps' == map p | p in ps :: ps[p].(item := Some(v), count := copies, realPercentage := 1.0)
    ensures root.Node? ==> Walked(ps, ps', root')
    ensures Pointed(ps')
  {
    var created;
    queue', root', count', minItem', maxItem', ps', created := EnqueueValues(queue, root, count, minItem, maxItem, ps, v, copies);
    if !created {
      StoredIsKey(root, v);
    }
    IndexNode(buckets, root, root', v, created);
  }

  /** The part of EnqueueStep that touches no object: the new window and percentiles,
      and whether the value got a node of its own. */
  method EnqueueValues(queue: seq<real>, root: Item, count: int, minItem: Option<real>, maxItem: Option<real>,
                       ps: map<real, PercentileItem>, v: real, copies: nat)
    returns (queue': seq<real>, root': Item, count': int, minItem': Option<real>, maxItem': Option<real>,
             ps': map<real, PercentileItem>, created: bool)
    requires Window(queue, root, count, minItem, maxItem) && Keyed(ps)
    ensures Window(queue', root', count', minItem', maxItem') && Keyed(ps')
    ensures queue' == queue + Repeat(v, copies) && count' == count + copies
    ensures Keys(root') == Keys(root) + {v}
    ensures created <==> Contents(root)[v] == 0
    ensures root.Nil? ==> ps' == map p | p in ps :: ps[p].(item := Some(v), count := copies, realPercentage := 1.0)
    ensures root.Node? ==> Walked(ps, ps', root')
    ensures Pointed(ps')
  {
    root', minItem', maxItem', created := AddToTree(queue, root, count, minItem, maxItem, v, copies);
    if root.Nil? {
      ps' := map p | p in ps :: ps[p].(item := Some(v), count := copies, realPercentage := 1.0);
    } else {
      ps' := WalkPercentiles(ps, root');
    }
    queue' := AppendCopies(queue, v, copies);
    count' := count + copies;
  }

  /** Dequeue of a non-empty queue on the values of the histogram's fields: the tree
      steps of TakeFromTree, the percentile walk while values remain, and the bucket
      index cleared when the node goes. */
  method DequeueStep(buckets: BucketHistogram, queue: seq<real>, root: Item, count: int,
                     minItem: Option<real>, maxItem: Option<real>, ps: map<real, PercentileItem>)
    returns (queue': seq<real>, root': Item, count': int, minItem': Option<real>, maxItem': Option<real>,
             ps': map<real, PercentileItem>)
    requires Consistent(buckets, queue, root, count, minItem, maxItem, ps) && queue != []
    modifies buckets.Repr
    ensures Consistent(buckets, queue', root', count', minItem', maxItem', ps')
    ensures buckets.Repr == old(buckets.Repr)
    ensures queue' == queue[1..] && count' == count - 1
    ensures Contents(root') == Contents(root) - multiset{queue[0]}
    ensures queue[0] in Keys(root) && Keys(root) - {queue[0]} <= Keys(root') <= Keys(root)
    ensures if Count(root') > 0 then Walked(ps, ps', root') else ps' == ps
  {
    var removed;
    queue', root', count', minItem', maxItem', ps', removed := DequeueValues(queue, root, count, minItem, maxItem, ps);
    UnindexNode(buckets, root, root', queue[0], removed);
  }

  /** The part of DequeueStep that touches no object: the new window and percentiles,
      and whether the front value's node went. */
  method DequeueValues(queue: seq<real>, root: Item, count: int, minItem: Option<real>, maxItem: Option<real>,
                       ps: map<real, PercentileItem>)
    returns (queue': seq<real>, root': Item, count': int, minItem': Option<real>, maxItem': Option<real>,
             ps': map<real, PercentileItem>, removed: bool)
    requires Window(queue, root, count, minItem, maxItem) && Keyed(ps) && queue != []
    ensures Window(queue', root', count', minItem', maxItem') && Keyed(ps')
    ensures queue' == queue[1..] && count' == count - 1
    ensures Contents(root') == Contents(root) - multiset{queue[0]}
    ensures queue[0] in Keys(root) && Keys(root') == if removed then Keys(root) - {queue[0]} else Keys(root)
    ensures removed <==> queue[0] !in Keys(root')
    ensures if Count(root') > 0 then Walked(ps, ps', root') else ps' == ps
  {
    var v := queue[0];
    root', minItem', maxItem', removed := TakeFromTree(queue, root, count, minItem, maxItem, v);
    queue' := queue[1..];
    count' := count - 1;
    ps' := ps;
    if Count(root') > 0 {
      ps' := WalkPercentiles(ps, root');
    }
  }

  /** Enqueue's loop appending `copies` copies of v to the back of the queue. */
  method AppendCopies(queue: seq<real>, v: real, copies: nat) returns (queue': seq<real>)
    ensures queue' == queue + Repeat(v, copies)
    ensures |queue'| == |queue| + copies && queue'[..|queue|] == queue
    ensures forall i :: |queue| <= i < |queue'| ==> queue'[i] == v
  {
    queue' := queue;
    var i := 0;
    while i < copies
      invariant 0 <= i <= copies && queue' == queue + Repeat(v, i)
    {
      queue' := queue' + [v];
      i := i + 1;
    }
  }

  /** Enqueue's bucket step: a value that got a node of its own is inserted into the
      bucket index. Afterwards the index holds exactly the nodes of the tree that
      gained v, each in its own bucket: grid values never share a bucket, so no
      other node is overwritten. */
  method IndexNode(buckets: BucketHistogram, t: Item, t': Item, v: real, created: bool)
    requires buckets.Valid() && Indexed(buckets, t) && Keys(t') == Keys(t) + {v}
    requires created || v in Keys(t)
    requires v in Keys(t) || (OnGrid(v, buckets.bucketSize) && buckets.Indexable(v))
    modifies buckets, buckets.Repr
    ensures buckets.Valid() && Indexed(buckets, t') && fresh(buckets.Repr - old(buckets.Repr))
    ensures !created ==> unchanged(buckets) && forall o :: o in buckets.Repr ==> unchanged(o)
  {
    if created {
      ghost var table := buckets.Table();
      if v in Keys(t) {
        TabledIndexable(buckets, table, v);
      }
      PlacesApart(buckets, table, t, v);
      buckets.Insert(Some(v));
      TabledAfterInsert(table, buckets.Table(), t, t', v, buckets.Pos);
    }
  }

  /** Dequeue's bucket step: when the node of v went, its bucket is cleared.
      Afterwards the index holds exactly the nodes of the tree that lost v. */
  method UnindexNode(buckets: BucketHistogram, t: Item, t': Item, v: real, removed: bool)
    requires buckets.Valid() && Indexed(buckets, t) && v in Keys(t)
    requires Keys(t') == if removed then Keys(t) - {v} else Keys(t)
    modifies buckets.Repr
    ensures buckets.Valid() && Indexed(buckets, t') && buckets.Repr == old(buckets.Repr)
    ensures !removed ==> forall o :: o in buckets.Repr ==> unchanged(o)
  {
    if removed {
      ghost var table := buckets.Table();
      TabledIndexable(buckets, table, v);
      buckets.Delete(Some(v));
      TabledAfterDelete(table, buckets.Table(), t, t', v, buckets.Pos);
    }
  }

  /** The `n` copies of v that Enqueue appends to the queue. */
  function Repeat(v: real, n: nat): (r: seq<real>)
    ensures |r| == n && forall i :: 0 <= i < n ==> r[i] == v
  {
    seq(n, _ => v)
  }

  /** The queue's `n` appended copies of v are `n` copies of v. */
  lemma {:induction false} RepeatIsCopies(v: real, n: nat)
    ensures multiset(Repeat(v, n)) == Copies(v, n)
  {
    if n > 0 {
      RepeatIsCopies(v, n - 1);
      assert Repeat(v, n) == Repeat(v, n - 1) + [v];
    }
  }
}
