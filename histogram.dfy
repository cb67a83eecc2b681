/**
 * The sliding-window Histogram of histogram.go: a FIFO queue of the enqueued
 * values, the AVL tree holding them (HistogramItem), the extreme nodes, the
 * two-level bucket index and the tracked percentiles.
 * The computations of Enqueue and Dequeue are in SlidingWindow.
 */
module Histograms {
  import opened Wrappers
  import opened HistogramItem
  import opened HistogramBuckets
  import opened SlidingWindow

  /** math.Pow(10, a) for an integer exponent. */
  function Pow10(a: int): (r: real)
    ensures r > 0.0
    ensures a >= 0 ==> r >= 1.0
    decreases if a < 0 then -a else a
  {
    if a == 0 then 1.0
    else if a > 0 then 10.0 * Pow10(a - 1)
    else Pow10(a + 1) / 10.0
  }

  /** UnifiedValue with accuracy factor a: v rounded to the nearest multiple of 1/a. */
  function Unified(v: real, a: real): (u: real)
    requires a > 0.0
  {
    Round(v * a) as real / a
  }

  /** Unifying is idempotent: a unified value is its own unified value. */
  lemma UnifiedIdempotent(v: real, a: real)
    requires a > 0.0
    ensures Unified(Unified(v, a), a) == Unified(v, a)
  {
    var k := Round(v * a);
    assert Unified(v, a) * a == k as real;
    RoundInteger(k);
  }

  /** A unified value is a whole number of steps 1/a from zero: it lies on the grid
      of buckets 1/a wide. */
  lemma UnifiedOnGrid(v: real, a: real, bs: real)
    requires a > 0.0 && bs * a == 1.0
    ensures OnGrid(Unified(v, a), bs)
  {
    var k := Round(v * a);
    var u := Unified(v, a);
    assert u == k as real / a;
    assert u / bs == u * a by {
      assert bs * a == 1.0;
    }
    assert u * a == k as real;
  }

  /** An integer rounds to itself. */
  lemma RoundInteger(k: int)
    ensures Round(k as real) == k
  {
  }

  /** A unified value is within half a step of the value it unifies. */
  lemma UnifiedIsClose(v: real, a: real)
    requires a > 0.0
    ensures -0.5 / a <= Unified(v, a) - v <= 0.5 / a
  {
    var k := Round(v * a);
    assert -0.5 <= k as real - v * a <= 0.5;
    assert Unified(v, a) - v == (k as real - v * a) / a;
  }

  /** GetWaterMark for `count` values in a window of `queueSize`: the fraction of the
      window in use, 0 for an unbounded window. */
  function WaterMark(count: int, queueSize: int): (r: real)
    requires count >= 0 && (queueSize > 0 ==> count <= queueSize)
    ensures queueSize <= 0 ==> r == 0.0
    ensures queueSize > 0 ==> r * queueSize as real == count as real
    ensures 0.0 <= r <= 1.0
    ensures r == 1.0 <==> queueSize > 0 && count == queueSize
  {
    if queueSize <= 0 then 0.0 else count as real / queueSize as real
  }

  class Histogram {
    var queue: seq<real>
    var root: Item
    const queueSize: int
    var count: int
    const buckets: BucketHistogram
    const accuracy: real
    var minItem: Option<real>
    var maxItem: Option<real>
    var percentiles: map<real, PercentileItem>

    /** The fields are Consistent, the bucket index is separate from the histogram,
        and the accuracy factor is positive and the inverse of the bucket width. */
    ghost predicate Sound()
      reads this, buckets, buckets.Repr
    {
      && this !in buckets.Repr && accuracy > 0.0 && buckets.bucketSize * accuracy == 1.0
      && Consistent(buckets, queue, root, count, minItem, maxItem, percentiles)
    }

    /** Between operations, also: a bounded window holds at most QueueSize values. */
    ghost predicate Valid()
      reads this, buckets, buckets.Repr
    {
      Sound() && (queueSize > 0 ==> count <= queueSize)
    }

    /** NewHistogram: an empty window of `size` values (unbounded when size <= 0);
        buckets 10^-accuracy wide (1 for accuracy 0) in intervals
        subBucketHistogramSize wide (10 when that is 0). */
    constructor (size: int, subBucketHistogramSize: real, accuracy: int)
      ensures Valid() && fresh(buckets) && fresh(buckets.Repr)
      ensures queue == [] && root == Nil && count == 0 && queueSize == size
      ensures minItem.None? && maxItem.None? && percentiles == map[]
      ensures this.accuracy == Pow10(accuracy)
      ensures buckets.subs == []
      ensures buckets.bucketSize == if accuracy != 0 then 1.0 / Pow10(accuracy) else 1.0
      ensures buckets.subSize == if subBucketHistogramSize == 0.0 then 10.0 else subBucketHistogramSize
    {
      var bs := if accuracy != 0 then 1.0 / Pow10(accuracy) else 1.0;
      var sbs := if subBucketHistogramSize == 0.0 then 10.0 else subBucketHistogramSize;
      var b := new BucketHistogram(sbs, bs);
      queue := [];
      root := Nil;
      queueSize := size;
      count := 0;
      buckets := b;
      this.accuracy := Pow10(accuracy);
      minItem := None;
      maxItem := None;
      percentiles := map[];
    }

    /** GetWaterMark: the fraction of the window in use. */
    function GetWaterMark(): (r: real)
      reads this, buckets, buckets.Repr
      requires Valid()
      ensures r == WaterMark(count, queueSize)
    {
      WaterMark(count, queueSize)
    }

    /** UnifiedValue: the value rounded to this histogram's accuracy. */
    function UnifiedValue(v: real): (u: real)
      requires accuracy > 0.0
    {
      Unified(v, accuracy)
    }

    /** GetPercentileItem: the tracked percentile p, or nil. */
    function GetPercentileItem(p: real): (item: Option<PercentileItem>)
      reads this
    {
      if p in percentiles then Some(percentiles[p]) else None
    }

    /** AddPercentilePoint: track p afresh, pointing at no node (a percentile already
        tracked starts over). */
    method AddPercentilePoint(p: real)
      requires Valid()
      modifies this
      ensures Valid()
      ensures percentiles == old(percentiles)[p := NewPercentileItem(p)]
      ensures GetPercentileItem(p) == Some(NewPercentileItem(p))
      ensures queue == old(queue) && root == old(root) && count == old(count)
      ensures minItem == old(minItem) && maxItem == old(maxItem)
    {
      percentiles := percentiles[p := NewPercentileItem(p)];
    }

    /** The fields Enqueue and Dequeue rewrite, set together. */
    method SetWindow(q: seq<real>, r: Item, c: int, mi: Option<real>, ma: Option<real>, ps: map<real, PercentileItem>)
      modifies this
      ensures queue == q && root == r && count == c && minItem == mi && maxItem == ma && percentiles == ps
    {
      queue, root, count, minItem, maxItem, percentiles := q, r, c, mi, ma, ps;
    }

    /** Enqueue: add `copies` copies of the unified value to the tree (making it root,
        minimum and maximum of an empty one), give a new node its place in the bucket
        index, append the copies to the queue, and then, in a bounded window, dequeue
        from the front until Count fits. Returns the last value dequeued, if any.
        The source dereferences every tracked percentile's node when the tree is not
        empty, and indexes the bucket lists with the new node's position. */
    method Enqueue(incomingValue: real, copies: nat) returns (result: Option<real>)
      requires Valid()
      requires root.Node? ==> Pointed(percentiles)
      requires UnifiedValue(incomingValue) in Keys(root) || buckets.Indexable(UnifiedValue(incomingValue))
      modifies this, buckets, buckets.Repr
      ensures Valid() && fresh(buckets.Repr - old(buckets.Repr))
      ensures var all := old(queue) + Repeat(UnifiedValue(incomingValue), copies);
        queue == Latest(all, queueSize) && result == LastEvicted(all, queueSize)
      ensures Count(root) == count == |queue|
      ensures percentiles.Keys == old(percentiles).Keys && Pointed(percentiles)
      ensures old(root).Nil? && (queueSize <= 0 || copies <= queueSize) ==>
        percentiles == map p | p in old(percentiles) ::
          old(percentiles)[p].(item := Some(UnifiedValue(incomingValue)), count := copies, realPercentage := 1.0)
    {
      var v := UnifiedValue(incomingValue);
      assert buckets.bucketSize * accuracy == 1.0;
      UnifiedOnGrid(incomingValue, accuracy, buckets.bucketSize);
      Append(v, copies);
      result := Evict();
    }

    /** Enqueue before its eviction loop: the tree, bucket and queue steps for
        `copies` copies of the unified value v. */
    method Append(v: real, copies: nat)
      requires Sound()
      requires root.Node? ==> Pointed(percentiles)
      requires v in Keys(root) || (OnGrid(v, buckets.bucketSize) && buckets.Indexable(v))
      modifies this, buckets, buckets.Repr
      ensures Sound() && Pointed(percentiles) && fresh(buckets.Repr - old(buckets.Repr))
      ensures queue == old(queue) + Repeat(v, copies)
      ensures percentiles.Keys == old(percentiles).Keys
      ensures old(root).Nil? ==>
        percentiles == map p | p in old(percentiles) :: old(percentiles)[p].(item := Some(v), count := copies, realPercentage := 1.0)
    {
      var q, t, c, mi, ma, ps := EnqueueStep(buckets, queue, root, count, minItem, maxItem, percentiles, v, copies);
      SetWindow(q, t, c, mi, ma, ps);
    }

    /** Enqueue's eviction loop: in a bounded window, dequeue from the front until
        Count fits. Returns the last value dequeued, if any. */
    method Evict() returns (result: Option<real>)
      requires Sound() && Pointed(percentiles)
      modifies this, buckets, buckets.Repr
      ensures Valid() && buckets.Repr == old(buckets.Repr)
      ensures queue == Latest(old(queue), queueSize) && result == LastEvicted(old(queue), queueSize)
      ensures Count(root) == count == |queue|
      ensures queueSize <= 0 || |old(queue)| <= queueSize ==> percentiles == old(percentiles)
      ensures percentiles.Keys == old(percentiles).Keys && Pointed(percentiles)
    {
      ghost var q0, ps0, repr0 := queue, percentiles, buckets.Repr;
      ghost var n := |q0| - |Latest(q0, queueSize)|;
      ghost var k := 0;
      result := None;
      while queueSize > 0 && count > queueSize
        invariant Sound() && buckets.Repr == repr0
        invariant percentiles.Keys == ps0.Keys && Pointed(percentiles)
        invariant k <= n && queue == q0[k..]
        invariant result == if k == 0 then None else Some(q0[k - 1])
        invariant k == 0 ==> percentiles == ps0
        decreases |queue|
      {
        WindowCount(queue, root, count, minItem, maxItem);
        DropsToWindow(q0, k, queueSize);
        result := Dequeue();
        k := k + 1;
      }
      WindowCount(queue, root, count, minItem, maxItem);
      DropsToWindow(q0, k, queueSize);
    }

    /** Dequeue: nothing on an empty queue; otherwise take the front value off the
        queue and one copy of it out of the tree, moving an extreme that was its node
        to the node's neighbour and clearing its bucket when the node goes. The source
        dereferences every tracked percentile's node when values remain. */
    method Dequeue() returns (r: Option<real>)
      requires Sound()
      requires count > 1 ==> Pointed(percentiles)
      modifies this, buckets, buckets.Repr
      ensures Sound() && buckets.Repr == old(buckets.Repr)
      ensures old(Valid()) ==> Valid()
      ensures old(queue) == [] ==> r.None? && unchanged(this) && unchanged(buckets) && forall o :: o in buckets.Repr ==> unchanged(o)
      ensures old(queue) != [] ==>
        && r == Some(old(queue)[0]) && queue == old(queue)[1..] && count == old(count) - 1
        && Contents(root) == old(Contents(root)) - multiset{r.value}
      ensures percentiles.Keys == old(percentiles).Keys
      ensures old(Pointed(percentiles)) ==> Pointed(percentiles)
    {
      if |queue| == 0 {
        return None;
      }
      r := Some(queue[0]);
      var q, t, c, mi, ma, ps := DequeueStep(buckets, queue, root, count, minItem, maxItem, percentiles);
      SetWindow(q, t, c, mi, ma, ps);
    }
  }
}
