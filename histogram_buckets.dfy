/**
 * The two-level bucket index of histogram-buckets.go: a BucketHistogram holds a
 * list of SubBucketHistograms, one per interval of width SubBucketHistogramSize,
 * and each of those holds a list of tree nodes, one per bucket of width BucketSize.
 * Lists grow by padding with nil; a node pointer is represented by the value of
 * the node it points at. The arithmetic is exact (real numbers): Go's float64
 * rounding is not modelled, but its rounding and truncating conversions are.
 */
module HistogramBuckets {
  import opened Wrappers

  /** Go's conversion of a float64 to int64: truncation toward zero. */
  function Trunc(x: real): (r: int)
    ensures 0.0 <= x ==> r as real <= x < r as real + 1.0
    ensures x < 0.0 ==> r as real - 1.0 < x <= r as real
  {
    if x >= 0.0 then x.Floor else -((-x).Floor)
  }

  /** math.Round: to the nearest integer, halves away from zero. */
  function Round(x: real): (r: int)
    ensures 0.0 <= x ==> r as real - 0.5 <= x < r as real + 0.5
    ensures x < 0.0 ==> r as real - 0.5 < x <= r as real + 0.5
  {
    if x >= 0.0 then (x + 0.5).Floor else -((-x + 0.5).Floor)
  }

  function Abs(x: real): real { if x < 0.0 then -x else x }

  /** The index both CalcPosition functions compute for v in a list whose buckets
      of width `size` start at `lower`: -1 without a width; the quotient rounded to
      the nearest integer when the width is below one, and truncated otherwise. */
  function Position(v: real, lower: real, size: real): (r: int)
    ensures size == 0.0 ==> r == -1
  {
    if size == 0.0 then -1
    else
      var q := (v - lower) / size;
      if Abs(size) < 1.0 then Trunc(Round(q) as real) else Trunc(q)
  }

  /** What bucket j of interval i holds in a table of buckets lists: nil where
      there is no interval or no such bucket. */
  function At(table: seq<seq<Option<real>>>, i: int, j: int): Option<real>
  {
    if 0 <= i < |table| && 0 <= j < |table[i]| then table[i][j] else None
  }

  /** A table whose row idx is the old row with x put at j, and whose other rows
      are the old ones or new empty ones, differs from the old table only at
      (idx, j). */
  lemma TablePut(before: seq<seq<Option<real>>>, after: seq<seq<Option<real>>>, idx: nat, j: nat, x: Option<real>)
    requires |after| == if idx < |before| then |before| else idx + 1
    requires forall i :: 0 <= i < |after| && i != idx ==> after[i] == if i < |before| then before[i] else []
    requires after[idx] == Put(if idx < |before| then before[idx] else [], j, x)
    ensures At(after, idx, j) == x
    ensures forall i, k :: (i, k) != (idx, j) ==> At(after, i, k) == At(before, i, k)
  {
  }

  /** A buckets list grown by nil-padding to hold index i, with x stored there. */
  function Put(list: seq<Option<real>>, i: nat, x: Option<real>): (r: seq<Option<real>>)
    ensures |r| == if i < |list| then |list| else i + 1
    ensures r[i] == x
    ensures forall j :: 0 <= j < |r| && j != i ==> r[j] == if j < |list| then list[j] else None
  {
    if i < |list| then list[i := x] else list + seq(i - |list|, _ => None) + [x]
  }

  /** SubBucketHistogram: the buckets of one interval [lower, upper). */
  class SubBucketHistogram {
    var bucketList: seq<Option<real>>
    const bucketSize: real
    const lower: real
    const upper: real

    /** NewSubBucketHistogram: no buckets yet. */
    constructor (unit: real, lower: real, upper: real)
      ensures bucketList == [] && bucketSize == unit && this.lower == lower && this.upper == upper
    {
      bucketList := [];
      bucketSize := unit;
      this.lower := lower;
      this.upper := upper;
    }

    /** CalcPosition: the bucket index of v in this interval. */
    function CalcPosition(v: real): int
    {
      Position(v, lower, bucketSize)
    }

    /** Every stored node sits in the bucket its value maps to. */
    ghost predicate Placed()
      reads this
    {
      forall j :: 0 <= j < |bucketList| && bucketList[j].Some? ==> CalcPosition(bucketList[j].value) == j
    }

    /** Insert: nothing for a nil node; otherwise pad the list with nil up to the
        node's index and store the node there, replacing whatever was there. A
        negative index is an index error in the source and is excluded here. */
    method Insert(n: Option<real>)
      requires n.Some? ==> CalcPosition(n.value) >= 0
      modifies this
      ensures n.None? ==> bucketList == old(bucketList)
      ensures n.Some? ==> bucketList == Put(old(bucketList), CalcPosition(n.value), n)
      ensures old(Placed()) ==> Placed()
    {
      if n.None? {
        return;
      }
      var idx := CalcPosition(n.value);
      var curLen := |bucketList|;
      var i := 0;
      while i < idx - curLen + 1
        invariant 0 <= i && (i <= idx - curLen + 1 || i == 0)
        invariant bucketList == old(bucketList) + seq(i, _ => None)
      {
        bucketList := bucketList + [None];
        i := i + 1;
      }
      bucketList := bucketList[idx := n];
      assert bucketList == Put(old(bucketList), idx, n);
    }

    /** Delete: nothing for a nil node or an index past the end; otherwise the
        node's bucket becomes nil. A negative index is an index error in the source
        and is excluded here. */
    method Delete(n: Option<real>)
      requires n.Some? && CalcPosition(n.value) < |bucketList| ==> CalcPosition(n.value) >= 0
      modifies this
      ensures n.Some? && CalcPosition(n.value) < old(|bucketList|) ==> bucketList == old(bucketList)[CalcPosition(n.value) := None]
      ensures n.None? || CalcPosition(n.value) >= old(|bucketList|) ==> bucketList == old(bucketList)
      ensures old(Placed()) ==> Placed()
      ensures n.Some? && old(Placed()) ==> n !in bucketList
    {
      if n.None? {
        return;
      }
      var idx := CalcPosition(n.value);
      if idx < |bucketList| {
        bucketList := bucketList[idx := None];
      }
    }
  }

  /** BucketHistogram: one SubBucketHistogram per interval of width subSize. */
  class BucketHistogram {
    var subs: seq<SubBucketHistogram?>
    const subSize: real
    const bucketSize: real
    ghost var Repr: set<object>

    /** NewBucketHistogram: no intervals yet. */
    constructor (subhistogramSize: real, bucketSize: real)
      ensures Valid() && fresh(Repr)
      ensures subs == [] && subSize == subhistogramSize && this.bucketSize == bucketSize
    {
      subs := [];
      subSize := subhistogramSize;
      this.bucketSize := bucketSize;
      Repr := {};
    }

    /** Every interval present is in Repr, appears once, has this histogram's bucket
        width and the boundaries of its index, and has its nodes in place. */
    ghost predicate Valid()
      reads this, Repr
    {
      && (forall i :: 0 <= i < |subs| && subs[i] != null ==>
            && subs[i] in Repr
            && subs[i].bucketSize == bucketSize
            && (subs[i].lower, subs[i].upper) == GetLowerAndUpperBoundaries(i)
            && subs[i].Placed())
      && (forall i, j :: 0 <= i < j < |subs| && subs[i] != null ==> subs[i] != subs[j])
    }

    /** GetLowerAndUpperBoundaries: the interval of index idx. */
    function GetLowerAndUpperBoundaries(idx: int): (r: (real, real))
      ensures r.1 - r.0 == subSize
      ensures r.0 == idx as real * subSize
    {
      (idx as real * subSize, (idx + 1) as real * subSize)
    }

    /** CalcPosition: the interval index of v and that interval's boundaries;
        (-1, -1, -1) without an interval width. */
    function CalcPosition(v: real): (r: (int, real, real))
      ensures subSize == 0.0 ==> r == (-1, -1.0, -1.0)
      ensures subSize != 0.0 ==> (r.1, r.2) == GetLowerAndUpperBoundaries(r.0)
    {
      if subSize == 0.0 then (-1, -1.0, -1.0)
      else
        var idx := Position(v, 0.0, subSize);
        var (lower, upper) := GetLowerAndUpperBoundaries(idx);
        (idx, lower, upper)
    }

    /** The bucket index of v inside its interval. */
    function SubPosition(v: real): int
    {
      Position(v, CalcPosition(v).1, bucketSize)
    }

    /** The place of v in the index: its interval and its bucket there. */
    function Pos(v: real): (int, int)
    {
      (CalcPosition(v).0, SubPosition(v))
    }

    /** The buckets lists of all intervals, a missing interval as an empty list. */
    ghost function Table(): (r: seq<seq<Option<real>>>)
      reads this, subs
      ensures |r| == |subs|
      ensures forall i :: 0 <= i < |subs| ==> r[i] == if subs[i] != null then subs[i].bucketList else []
    {
      seq(|subs|, i reads this, subs => if 0 <= i < |subs| && subs[i] != null then subs[i].bucketList else [])
    }

    /** Both indices of v are non-negative, so that Insert does not fail on it. */
    predicate Indexable(v: real)
    {
      CalcPosition(v).0 >= 0 && SubPosition(v) >= 0
    }

    /** Insert: nothing for a nil node; otherwise pad the interval list with nil up to
        the node's interval, create that interval's SubBucketHistogram if there is
        none yet, and insert the node there. */
    method Insert(n: Option<real>)
      requires Valid()
      requires n.Some? ==> Indexable(n.value)
      modifies this, Repr
      ensures Valid() && fresh(Repr - old(Repr))
      ensures n.None? ==> subs == old(subs) && forall o :: o in old(Repr) ==> unchanged(o)
      ensures n.Some? ==>
        var idx := CalcPosition(n.value).0;
        var had := idx < old(|subs|) && old(subs[idx]) != null;
        && |subs| == (if idx < old(|subs|) then old(|subs|) else idx + 1)
        && (forall i :: 0 <= i < |subs| && i != idx ==> subs[i] == if i < old(|subs|) then old(subs[i]) else null)
        && subs[idx] != null
        && (had ==> subs[idx] == old(subs[idx]))
        && subs[idx].bucketList == Put(if had then old(subs[idx].bucketList) else [], SubPosition(n.value), n)
        && (forall i :: 0 <= i < |subs| && i != idx && subs[i] != null ==> unchanged(subs[i]))
      ensures n.Some? ==> At(Table(), Pos(n.value).0, Pos(n.value).1) == n
      ensures n.Some? ==> forall i, j :: (i, j) != Pos(n.value) ==> At(Table(), i, j) == At(old(Table()), i, j)
    {
      if n.None? {
        return;
      }
      ghost var before := Table();
      var position := CalcPosition(n.value);
      var idx, lower, upper := position.0, position.1, position.2;
      Pad(idx);
      Provide(idx, lower, upper);
      Fill(idx, n);
      TablePut(before, Table(), idx, SubPosition(n.value), n);
    }

    /** Insert's last step: the node goes into the SubBucketHistogram of interval idx,
        which changes that interval's row of the table and nothing else. */
    method Fill(idx: int, n: Option<real>)
      requires Valid() && 0 <= idx < |subs| && subs[idx] != null
      requires n.Some? && idx == CalcPosition(n.value).0 && SubPosition(n.value) >= 0
      modifies Repr
      ensures Valid() && Repr == old(Repr) && subs == old(subs)
      ensures subs[idx].bucketList == Put(old(subs[idx].bucketList), SubPosition(n.value), n)
      ensures forall i :: 0 <= i < |subs| && i != idx && subs[i] != null ==> unchanged(subs[i])
      ensures Table() == old(Table())[idx := Put(old(Table())[idx], SubPosition(n.value), n)]
    {
      subs[idx].Insert(n);
      forall i | 0 <= i < |subs| && i != idx
        ensures Table()[i] == old(Table())[i]
      {
        assert subs[i] != subs[idx];
      }
    }

    /** Insert's loop: append nil intervals until index idx exists. */
    method Pad(idx: int)
      requires Valid() && idx >= 0
      modifies this
      ensures Valid() && Repr == old(Repr)
      ensures subs == old(subs) + seq(if idx < old(|subs|) then 0 else idx + 1 - old(|subs|), _ => null)
      ensures Table() == old(Table()) + seq(if idx < old(|subs|) then 0 else idx + 1 - old(|subs|), _ => [])
    {
      var curLen := |subs|;
      var i := 0;
      while i < 1 + idx - curLen
        invariant 0 <= i && (i <= 1 + idx - curLen || i == 0)
        invariant subs == old(subs) + seq(i, _ => null)
        invariant Valid() && Repr == old(Repr)
      {
        subs := subs + [null];
        i := i + 1;
      }
    }

    /** Insert's creation step: a new, empty SubBucketHistogram with the boundaries of
        idx when that slot is nil; an existing one is kept. */
    method Provide(idx: int, lower: real, upper: real)
      requires Valid() && 0 <= idx < |subs| && (lower, upper) == GetLowerAndUpperBoundaries(idx)
      modifies this
      ensures Valid() && fresh(Repr - old(Repr)) && |subs| == old(|subs|) && subs[idx] != null
      ensures old(subs[idx]) != null ==> subs == old(subs) && Repr == old(Repr)
      ensures old(subs[idx]) == null ==>
        && subs == old(subs)[idx := subs[idx]] && Repr == old(Repr) + {subs[idx]}
        && subs[idx].bucketList == []
      ensures Table() == old(Table())
    {
      if subs[idx] == null {
        var sub := new SubBucketHistogram(bucketSize, lower, upper);
        subs := subs[idx := sub];
        Repr := Repr + {sub};
      }
    }

    /** Delete: nothing for a nil node, an interval index past the end or an interval
        with no SubBucketHistogram; otherwise delete the node from its interval. */
    method Delete(n: Option<real>)
      requires Valid()
      requires n.Some? && CalcPosition(n.value).0 < |subs| ==>
        var idx := CalcPosition(n.value).0;
        idx >= 0 && (subs[idx] != null && SubPosition(n.value) < |subs[idx].bucketList| ==> SubPosition(n.value) >= 0)
      modifies Repr
      ensures Valid() && Repr == old(Repr) && subs == old(subs)
      ensures n.None? || CalcPosition(n.value).0 >= |subs| || subs[CalcPosition(n.value).0] == null ==>
        forall o :: o in Repr ==> unchanged(o)
      ensures n.Some? && CalcPosition(n.value).0 < |subs| && subs[CalcPosition(n.value).0] != null ==>
        var sub := subs[CalcPosition(n.value).0];
        && (forall o :: o in Repr && o != sub ==> unchanged(o))
        && sub.bucketList == (if SubPosition(n.value) < old(|sub.bucketList|)
                              then old(sub.bucketList)[SubPosition(n.value) := None]
                              else old(sub.bucketList))
        && n !in sub.bucketList
      ensures n.Some? ==> At(Table(), Pos(n.value).0, Pos(n.value).1) == None
      ensures n.Some? ==> forall i, j :: (i, j) != Pos(n.value) ==> At(Table(), i, j) == At(old(Table()), i, j)
    {
      if n.None? {
        return;
      }
      var position := CalcPosition(n.value);
      var idx := position.0;
      if idx < |subs| {
        if subs[idx] != null {
          subs[idx].Delete(n);
        }
      }
    }
  }

  /** v is a whole number of buckets of width `size` away from zero, as the values
      UnifiedValue produces are for the histogram's bucket width. */
  predicate OnGrid(v: real, size: real)
  {
    size != 0.0 && (v / size).Floor as real == v / size
  }

  /** An integer truncates to itself. */
  lemma TruncInteger(k: int)
    ensures Trunc(k as real) == k
  {
  }

  /** Values at least one apart round to different integers. */
  lemma RoundApart(x: real, y: real)
    requires Abs(x - y) >= 1.0
    ensures Round(x) != Round(y)
  {
  }

  /** Values at least one apart, on the same side of zero, truncate to different
      integers. */
  lemma TruncApart(x: real, y: real)
    requires Abs(x - y) >= 1.0
    requires (0.0 <= x && 0.0 <= y) || (x <= 0.0 && y <= 0.0)
    ensures Trunc(x) != Trunc(y)
  {
  }

  /** Distinct values on the grid of `size` are a whole, non-zero number of buckets
      apart. */
  lemma GridApart(k1: real, k2: real, size: real)
    requires size > 0.0 && OnGrid(k1, size) && OnGrid(k2, size) && k1 != k2
    ensures (k1 / size - k2 / size).Floor as real == k1 / size - k2 / size
    ensures Abs(k1 / size - k2 / size) >= 1.0 && Abs(k1 - k2) >= size
  {
    var n1, n2 := (k1 / size).Floor, (k2 / size).Floor;
    assert k1 == n1 as real * size && k2 == n2 as real * size;
    assert n1 != n2;
    assert k1 - k2 == (n1 - n2) as real * size;
    assert k1 / size - k2 / size == (n1 - n2) as real;
    if n1 > n2 {
      assert (n1 - n2) as real * size >= 1.0 * size;
      assert Abs(k1 - k2) == k1 - k2;
    } else {
      assert k2 - k1 == (n2 - n1) as real * size;
      assert (n2 - n1) as real * size >= 1.0 * size;
      assert Abs(k1 - k2) == k2 - k1;
    }
  }

  /** Shifting two values by the same amount keeps the difference of their
      quotients. */
  lemma ShiftedQuotients(a: real, b: real, c: real, d: real)
    requires d != 0.0
    ensures (a - c) / d - (b - c) / d == a / d - b / d
  {
    assert (a - c) / d == a / d - c / d;
    assert (b - c) / d == b / d - c / d;
  }

  /** A quotient by an interval narrower than one unit is at least one unit for a
      dividend that is. */
  lemma WideQuotient(a: real, s: real)
    requires 0.0 < Abs(s) < 1.0 && Abs(a) >= 1.0
    ensures Abs(a / s) >= 1.0
  {
    assert Abs(a / s) * Abs(s) == Abs(a);
  }

  /** The interval index of k: rounded for intervals narrower than one unit,
      truncated otherwise. */
  lemma IntervalIndex(b: BucketHistogram, k: real)
    requires b.subSize != 0.0
    ensures b.CalcPosition(k).0 == if Abs(b.subSize) < 1.0 then Round(k / b.subSize) else Trunc(k / b.subSize)
    ensures b.CalcPosition(k).1 == b.CalcPosition(k).0 as real * b.subSize
  {
    assert (k - 0.0) / b.subSize == k / b.subSize;
    TruncInteger(Round(k / b.subSize));
  }

  /** The bucket index of k in an interval starting at `lower`: rounded for buckets
      narrower than one unit, truncated otherwise. */
  lemma BucketIndex(b: BucketHistogram, k: real)
    requires b.bucketSize > 0.0
    ensures var x := (k - b.CalcPosition(k).1) / b.bucketSize;
      b.SubPosition(k) == if b.bucketSize < 1.0 then Round(x) else Trunc(x)
  {
    var x := (k - b.CalcPosition(k).1) / b.bucketSize;
    TruncInteger(Round(x));
  }

  /** With buckets at least one unit wide and intervals narrower than one unit,
      distinct grid values fall into different intervals. */
  lemma NarrowIntervalsApart(b: BucketHistogram, k1: real, k2: real)
    requires b.subSize != 0.0 && Abs(b.subSize) < 1.0 && Abs(k1 - k2) >= 1.0
    ensures b.CalcPosition(k1).0 != b.CalcPosition(k2).0
  {
    var s := b.subSize;
    var q1, q2 := k1 / s, k2 / s;
    assert q1 - q2 == (k1 - k2) / s;
    WideQuotient(k1 - k2, s);
    RoundApart(q1, q2);
    IntervalIndex(b, k1);
    IntervalIndex(b, k2);
  }

  /** With intervals at least one unit wide, interval idx >= 1 starts at or below
      the values it holds when the width is positive, at or above them when it is
      negative, and interval 0 starts at zero. */
  lemma IntervalSide(s: real, k: real)
    requires Abs(s) >= 1.0 && Trunc(k / s) >= 0
    ensures var lower := Trunc(k / s) as real * s;
      || lower == 0.0
      || (s > 0.0 && lower <= k)
      || (s < 0.0 && k <= lower)
  {
    var idx := Trunc(k / s);
    if idx != 0 {
      assert 0.0 < k / s && idx as real <= k / s;
      if s > 0.0 {
        assert idx as real * s <= (k / s) * s;
      } else {
        assert idx as real * s >= (k / s) * s;
      }
    }
  }

  /** In one interval with buckets at least one unit wide, the offsets of its values
      from the interval's start all have the sign of the interval width, unless the
      interval starts at zero. */
  lemma SameSide(b: BucketHistogram, k1: real, k2: real)
    requires b.subSize != 0.0 && Abs(b.subSize) >= 1.0
    requires b.CalcPosition(k1).0 == b.CalcPosition(k2).0 >= 0
    ensures var lower := b.CalcPosition(k1).1;
      || lower == 0.0
      || (lower <= k1 && lower <= k2)
      || (k1 <= lower && k2 <= lower)
  {
    IntervalIndex(b, k1);
    IntervalIndex(b, k2);
    IntervalSide(b.subSize, k1);
    IntervalSide(b.subSize, k2);
  }

  /** With buckets narrower than one unit, values whole buckets apart in one
      interval fall into different buckets. */
  lemma SameIntervalRounded(b: BucketHistogram, k1: real, k2: real)
    requires 0.0 < b.bucketSize < 1.0 && b.CalcPosition(k1) == b.CalcPosition(k2)
    requires Abs(k1 / b.bucketSize - k2 / b.bucketSize) >= 1.0
    ensures b.SubPosition(k1) != b.SubPosition(k2)
  {
    var bs, lower := b.bucketSize, b.CalcPosition(k1).1;
    var x1, x2 := (k1 - lower) / bs, (k2 - lower) / bs;
    ShiftedQuotients(k1, k2, lower, bs);
    RoundApart(x1, x2);
    BucketIndex(b, k1);
    BucketIndex(b, k2);
  }

  /** Truncation tells apart whole numbers of buckets: distinct grid values
      counted from zero are in different buckets. */
  lemma GridTruncated(k1: real, k2: real, bs: real)
    requires bs > 0.0 && OnGrid(k1, bs) && OnGrid(k2, bs) && k1 != k2
    ensures Trunc(k1 / bs) != Trunc(k2 / bs)
  {
    var n1, n2 := (k1 / bs).Floor, (k2 / bs).Floor;
    TruncInteger(n1);
    TruncInteger(n2);
    assert k1 == n1 as real * bs && k2 == n2 as real * bs;
  }

  /** With buckets and intervals at least one unit wide, distinct grid values in one
      interval fall into different buckets. */
  lemma SameIntervalTruncated(b: BucketHistogram, k1: real, k2: real)
    requires b.bucketSize >= 1.0 && b.subSize != 0.0 && Abs(b.subSize) >= 1.0
    requires b.CalcPosition(k1).0 == b.CalcPosition(k2).0 >= 0
    requires OnGrid(k1, b.bucketSize) && OnGrid(k2, b.bucketSize) && k1 != k2
    ensures b.SubPosition(k1) != b.SubPosition(k2)
  {
    var bs, lower := b.bucketSize, b.CalcPosition(k1).1;
    var x1, x2 := (k1 - lower) / bs, (k2 - lower) / bs;
    SameSide(b, k1, k2);
    BucketIndex(b, k1);
    BucketIndex(b, k2);
    if lower == 0.0 {
      assert x1 == k1 / bs && x2 == k2 / bs;
      GridTruncated(k1, k2, bs);
    } else {
      OffsetsApart(k1, k2, lower, bs);
      OffsetsApart(k2, k1, lower, bs);
      if lower <= k1 && lower <= k2 {
        TruncApart(x1, x2);
      } else {
        TruncApart(x1, x2);
      }
    }
  }

  /** The offsets from a common start of distinct grid values, counted in buckets,
      are at least one apart and have the sign their position relative to the start
      gives them. */
  lemma OffsetsApart(k1: real, k2: real, lower: real, bs: real)
    requires bs > 0.0 && OnGrid(k1, bs) && OnGrid(k2, bs) && k1 != k2
    ensures Abs((k1 - lower) / bs - (k2 - lower) / bs) >= 1.0
    ensures lower <= k1 ==> 0.0 <= (k1 - lower) / bs
    ensures k1 <= lower ==> (k1 - lower) / bs <= 0.0
  {
    GridApart(k1, k2, bs);
    ShiftedQuotients(k1, k2, lower, bs);
  }

  /** Distinct values on the grid of the bucket width that both have a place in the
      index have different places: no bucket is shared, so inserting a node never
      overwrites another one. */
  lemma DistinctPositions(b: BucketHistogram, k1: real, k2: real)
    requires b.bucketSize > 0.0 && OnGrid(k1, b.bucketSize) && OnGrid(k2, b.bucketSize)
    requires b.Indexable(k1) && b.Indexable(k2) && k1 != k2
    ensures b.Pos(k1) != b.Pos(k2)
  {
    GridApart(k1, k2, b.bucketSize);
    if b.bucketSize >= 1.0 && Abs(b.subSize) < 1.0 {
      NarrowIntervalsApart(b, k1, k2);
    } else if b.CalcPosition(k1).0 == b.CalcPosition(k2).0 {
      if b.bucketSize < 1.0 {
        SameIntervalRounded(b, k1, k2);
      } else {
        SameIntervalTruncated(b, k1, k2);
      }
    }
  }

  /** Adjacent intervals share a boundary: the index space tiles the line. */
  lemma AdjacentBoundaries(b: BucketHistogram, idx: int)
    ensures b.GetLowerAndUpperBoundaries(idx).1 == b.GetLowerAndUpperBoundaries(idx + 1).0
  {
  }

  /** With intervals at least one unit wide, every non-negative value has
      non-negative indices at both levels. */
  lemma NonNegativeIndexable(b: BucketHistogram, v: real)
    requires b.subSize >= 1.0 && b.bucketSize > 0.0 && v >= 0.0
    ensures b.Indexable(v)
  {
    var idx := b.CalcPosition(v).0;
    assert idx == Trunc(v / b.subSize);
    assert idx as real <= v / b.subSize;
    assert idx as real * b.subSize <= v;
    assert (v - idx as real * b.subSize) / b.bucketSize >= 0.0;
  }

  /** Values on the grid of tenths, with intervals and buckets a tenth wide (the
      shape CDF.Histogram builds), sit at bucket 0 of their own interval. */
  lemma TenthsIndexable(b: BucketHistogram, k: nat)
    requires b.subSize == 0.1 && b.bucketSize == 0.1
    ensures b.CalcPosition(k as real / 10.0).0 == k && b.SubPosition(k as real / 10.0) == 0
    ensures b.Indexable(k as real / 10.0)
  {
    var v := k as real / 10.0;
    assert v / 0.1 == k as real;
    assert Round(k as real) == k;
    assert b.CalcPosition(v).1 == v;
    assert Round((v - v) / 0.1) == 0;
  }

  /** Intervals narrower than one unit are found by rounding, so a value can lie below
      its interval's lower boundary and get a negative bucket index: with intervals of
      0.1 and buckets of 0.001, the value 0.06 maps to interval 1, which starts at 0.1,
      and to bucket -40 there. */
  lemma RoundedIntervalBelowValue(b: BucketHistogram)
    requires b.subSize == 0.1 && b.bucketSize == 0.001
    ensures b.CalcPosition(0.06) == (1, 0.1, 0.2)
    ensures b.SubPosition(0.06) == -40 && !b.Indexable(0.06)
  {
    assert 0.06 / 0.1 == 0.6;
    assert Round(0.6) == 1;
    assert (0.06 - 0.1) / 0.001 == -40.0;
    assert Round(-40.0) == -40;
  }
}
