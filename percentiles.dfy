/**
 * GetValueAtPercentile and CalcPercentileOfProduct of histogram.go, up to the
 * point where CalcPercentileOfProduct hands over to its search
 * (SearchPercentileByMultiply, which is not part of this model): the early
 * returns, the gathering of the non-nil histograms, and the start point.
 */
module Percentiles {
  import opened Wrappers
  import opened HistogramItem
  import opened SlidingWindow
  import opened Histograms

  /** GetValueAtPercentile on histogram h: the value of the node the tracked
      percentile p points at; otherwise CalcPercentileOfProduct over h alone, which
      answers 0 while the bucket index has no intervals (a new histogram, say). */
  method GetValueAtPercentile(h: Histogram, p: real) returns (r: Product)
    ensures Pointee(h, p).Some? ==> r == Answer(Pointee(h, p).value)
    ensures Pointee(h, p).None? ==> r == Decided(p, [h])
    ensures Pointee(h, p).None? && h.buckets.subs == [] ==> r == Answer(0.0)
  {
    var item := h.GetPercentileItem(p);
    if item.Some? && item.value.item.Some? {
      return Answer(item.value.item.value);
    }
    r := CalcPercentileOfProduct(p, [h]);
    EmptyIndexAnswersZero(p, h);
  }

  /** How CalcPercentileOfProduct ends without searching (an Answer), or the search
      it starts (SearchPercentileByMultiply): over the non-nil histograms, from
      startPoint, between interval indices startIndex and upper. */
  datatype Product = Answer(value: real) | Search(good: seq<Histogram>, startPoint: real, startIndex: int, upper: int)

  /** The value of the node the tracked percentile p of h points at, if any. */
  function Pointee(h: Histogram, p: real): (r: Option<real>)
    reads h
    ensures r.Some? <==> p in h.percentiles && h.percentiles[p].item.Some?
  {
    match h.GetPercentileItem(p)
    case Some(pi) => pi.item
    case None => None
  }

  /** The histograms of the list that are not nil, in order. */
  function NonNil(list: seq<Histogram?>): (r: seq<Histogram>)
    ensures |r| <= |list|
  {
    if list == [] then []
    else NonNil(list[..|list| - 1]) + (if list[|list| - 1] == null then [] else [list[|list| - 1]])
  }

  /** NonNil keeps exactly the histograms of the list that are not nil. */
  lemma {:induction false} NonNilKeepsHistograms(list: seq<Histogram?>)
    ensures forall i :: 0 <= i < |NonNil(list)| ==> NonNil(list)[i] in list
    ensures forall i :: 0 <= i < |list| && list[i] != null ==> list[i] in NonNil(list)
  {
    if list != [] {
      var init := list[..|list| - 1];
      NonNilKeepsHistograms(init);
      assert forall i :: 0 <= i < |init| ==> init[i] == list[i];
    }
  }

  /** Every histogram of the list tracks p. */
  predicate TrackedByAll(p: real, good: seq<Histogram>)
    reads set h | h in good
  {
    good == [] || (TrackedByAll(p, good[..|good| - 1]) && p in good[|good| - 1].percentiles)
  }

  /** TrackedByAll holds exactly when each of the histograms tracks p. */
  lemma {:induction false} TrackedByAllMeansEach(p: real, good: seq<Histogram>)
    ensures TrackedByAll(p, good) <==> forall i :: 0 <= i < |good| ==> p in good[i].percentiles
  {
    if good != [] {
      var init := good[..|good| - 1];
      TrackedByAllMeansEach(p, init);
      assert forall i :: 0 <= i < |init| ==> init[i] == good[i];
    }
  }

  /** The largest number of intervals in the bucket indexes of the histograms. */
  function MaxLength(good: seq<Histogram>): (r: int)
    reads set h | h in good :: h.buckets
  {
    if good == [] then 0
    else Max(MaxLength(good[..|good| - 1]), |good[|good| - 1].buckets.subs|)
  }

  /** MaxLength is the largest number of intervals among the histograms, 0 without
      any. */
  lemma {:induction false} MaxLengthIsLargest(good: seq<Histogram>)
    ensures forall i :: 0 <= i < |good| ==> |good[i].buckets.subs| <= MaxLength(good)
    ensures (good == [] && MaxLength(good) == 0) ||
            exists i :: 0 <= i < |good| && |good[i].buckets.subs| == MaxLength(good)
  {
    if good != [] {
      var init := good[..|good| - 1];
      MaxLengthIsLargest(init);
      assert forall i :: 0 <= i < |init| ==> init[i] == good[i];
    }
  }

  /** The start point loop of CalcPercentileOfProduct over the histograms in order:
      a value a percentile points at replaces the start point when it is larger,
      and the start index becomes that value's interval index. */
  function Start(p: real, good: seq<Histogram>): (start: (real, int))
    reads set h | h in good
  {
    if good == [] then (-1.0, 0)
    else
      var (point, index) := Start(p, good[..|good| - 1]);
      var h := good[|good| - 1];
      var v := if Pointee(h, p).Some? then Pointee(h, p).value else point;
      if v > point then (v, h.buckets.CalcPosition(v).0) else (point, index)
  }

  /** The start point is the largest value the histograms' percentile p points at
      (-1 when there is none above -1), and the start index is that value's
      interval index in a histogram holding it. */
  lemma {:induction false} StartIsLargest(p: real, good: seq<Histogram>)
    ensures var (point, index) := Start(p, good);
      && (forall h :: h in good && Pointee(h, p).Some? ==> Pointee(h, p).value <= point)
      && ((point == -1.0 && index == 0) ||
          (point > -1.0 && exists h :: h in good && Pointee(h, p) == Some(point) && index == h.buckets.CalcPosition(point).0))
  {
    if good != [] {
      var init := good[..|good| - 1];
      StartIsLargest(p, init);
      assert forall h :: h in good ==> h in init || h == good[|good| - 1];
    }
  }

  /** What CalcPercentileOfProduct does before its search: 0 for an empty list or a
      single nil histogram, the pointed value of a single histogram's tracked
      percentile; otherwise the start point and index over the non-nil histograms
      (only when all of them track p), and 0 when the start index is already past
      the last interval, which is where the search returns its initial 0. */
  function Decided(p: real, list: seq<Histogram?>): (answer: Product)
    reads set h | h in list && h != null
    reads set h | h in list && h != null :: h.buckets
  {
    if list == [] then Answer(0.0)
    else if |list| == 1 && list[0] == null then Answer(0.0)
    else if |list| == 1 && Pointee(list[0], p).Some? then Answer(Pointee(list[0], p).value)
    else
      NonNilKeepsHistograms(list);
      Begin(p, NonNil(list))
  }

  /** The search over the non-nil histograms good: from the start point, when all of
      them track p, and between the start index and the last interval index; 0
      when the start index is already past the last interval. */
  function Begin(p: real, good: seq<Histogram>): (search: Product)
    reads set h | h in good
    reads set h | h in good :: h.buckets
  {
    var start := if TrackedByAll(p, good) then Start(p, good) else (-1.0, 0);
    var upper := MaxLength(good) - 1;
    if start.1 > upper then Answer(0.0) else Search(good, start.0, start.1, upper)
  }

  /** CalcPercentileOfProduct up to its search: the early returns, the loop over the
      list gathering the non-nil histograms, whether all track p and the largest
      number of intervals, and the start point loop. */
  method CalcPercentileOfProduct(p: real, list: seq<Histogram?>) returns (r: Product)
    ensures r == Decided(p, list)
  {
    if |list| == 0 {
      return Answer(0.0);
    }
    if |list| == 1 {
      if list[0] == null {
        return Answer(0.0);
      }
      var item := list[0].GetPercentileItem(p);
      if item.Some? && item.value.item.Some? {
        return Answer(item.value.item.value);
      }
    }
    ghost var answer := Decided(p, list);
    assert answer == Begin(p, NonNil(list));
    var good, tracked, maxLength := Gather(p, list);
    var point, index := -1.0, 0;
    if tracked {
      point, index := StartPoint(p, good);
    }
    if index > maxLength - 1 {
      r := Answer(0.0);
    } else {
      r := Search(good, point, index, maxLength - 1);
    }
    assert r == Begin(p, good);
  }

  /** CalcPercentileOfProduct's loop over the list: the non-nil histograms, whether
      all of them track p, and the largest number of intervals among them. */
  method Gather(p: real, list: seq<Histogram?>) returns (good: seq<Histogram>, tracked: bool, maxLength: int)
    ensures good == NonNil(list)
    ensures tracked == TrackedByAll(p, good)
    ensures maxLength == MaxLength(good)
  {
    maxLength := 0;
    tracked := true;
    good := [];
    for i := 0 to |list|
      invariant good == NonNil(list[..i])
      invariant tracked == TrackedByAll(p, good)
      invariant maxLength == MaxLength(good)
    {
      assert list[..i + 1][..i] == list[..i];
      assert NonNil(list[..i + 1]) == NonNil(list[..i]) + (if list[i] == null then [] else [list[i]]);
      if list[i] != null {
        var h: Histogram := list[i];
        assert (good + [h])[..|good|] == good;
        good := good + [h];
        if tracked && p !in h.percentiles {
          tracked := false;
        }
        maxLength := Max(maxLength, |h.buckets.subs|);
      }
    }
    assert list[..|list|] == list;
  }

  /** CalcPercentileOfProduct's loop over the histograms, all tracking p: the
      largest value their p percentiles point at, starting from -1, and its
      interval index in the histogram it comes from. */
  method StartPoint(p: real, good: seq<Histogram>) returns (point: real, index: int)
    ensures (point, index) == Start(p, good)
  {
    point, index := -1.0, 0;
    for i := 0 to |good|
      invariant (point, index) == Start(p, good[..i])
    {
      assert good[..i + 1][..i] == good[..i];
      var h := good[i];
      var item := h.GetPercentileItem(p);
      var v := point;
      if item.Some? && item.value.item.Some? {
        v := item.value.item.value;
      }
      if v > point {
        point := v;
        index := h.buckets.CalcPosition(v).0;
      }
    }
    assert good[..|good|] == good;
  }

  /** CalcPercentileOfProduct answers 0 for an empty list and for a list of nil
      histograms. */
  lemma {:induction false} NoHistogramsAnswerZero(p: real, list: seq<Histogram?>)
    requires forall i :: 0 <= i < |list| ==> list[i] == null
    ensures Decided(p, list) == Answer(0.0)
  {
    NoneNonNil(list);
  }

  lemma {:induction false} NoneNonNil(list: seq<Histogram?>)
    requires forall i :: 0 <= i < |list| ==> list[i] == null
    ensures NonNil(list) == []
  {
    if list != [] {
      NoneNonNil(list[..|list| - 1]);
    }
  }

  /** A histogram without intervals in its bucket index and with p not pointing at
      a node gets 0 from CalcPercentileOfProduct: the search has no interval to
      search. */
  lemma EmptyIndexAnswersZero(p: real, h: Histogram)
    ensures Pointee(h, p).None? && h.buckets.subs == [] ==> Decided(p, [h]) == Answer(0.0)
  {
    if Pointee(h, p).None? && h.buckets.subs == [] {
      assert [h][..|[h]| - 1] == [];
      assert NonNil([h]) == [h];
      assert MaxLength([h]) == 0;
      assert Start(p, [h]) == (-1.0, 0);
    }
  }
}
