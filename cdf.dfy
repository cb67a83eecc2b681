/**
 * The CDF wrapper of cdf.go: a list of (percentile, value) points that builds, on
 * first request, a Histogram holding `count_zero` zeros followed by the points'
 * values, and keeps it for later requests.
 */
module Cdf {
  import opened Wrappers
  import opened HistogramBuckets
  import opened SlidingWindow
  import opened Histograms
  import opened Percentiles

  datatype CDFPoint = CDFPoint(percentile: real, value: real)

  /** count_zero: the number of zeros that go in front of the points,
      round(1/(1 - startPoint) - 1) for each point after the first. */
  function CountZero(startPoint: real, amount: int): int
    requires startPoint != 1.0
  {
    Round(1.0 / (1.0 - startPoint) - 1.0) * (amount - 1)
  }

  /** The values of the points as the histogram of accuracy 1 stores them: rounded to
      tenths. */
  function Tenths(points: seq<Option<CDFPoint>>): (r: seq<real>)
    requires forall i :: 0 <= i < |points| ==> points[i].Some?
    ensures |r| == |points|
  {
    if points == [] then []
    else Tenths(points[..|points| - 1]) + [Unified(points[|points| - 1].value.value, 10.0)]
  }

  /** Tenths holds each point's value rounded to tenths, in the points' order. */
  lemma {:induction false} TenthsInOrder(points: seq<Option<CDFPoint>>)
    requires forall i :: 0 <= i < |points| ==> points[i].Some?
    ensures forall i :: 0 <= i < |points| ==> Tenths(points)[i] == Unified(points[i].value.value, 10.0)
  {
    if points != [] {
      var init := points[..|points| - 1];
      TenthsInOrder(init);
      assert forall i :: 0 <= i < |init| ==> Tenths(points)[i] == Tenths(init)[i];
    }
  }

  /** One more point's value, rounded to tenths, behind s. */
  lemma TenthsStep(s: seq<real>, points: seq<Option<CDFPoint>>, i: nat)
    requires i < |points| && forall j :: 0 <= j < |points| ==> points[j].Some?
    ensures s + Tenths(points[..i + 1]) == s + Tenths(points[..i]) + [Unified(points[i].value.value, 10.0)]
  {
    assert points[..i + 1][..i] == points[..i];
  }

  class CDF {
    var points: seq<Option<CDFPoint>>
    var startPoint: real
    var increment: real
    var amount: int
    var histogram: Histogram?

    /** NewCDF: room for n points, none of them set yet, and no histogram. */
    constructor (n: nat)
      ensures |points| == n && forall i :: 0 <= i < n ==> points[i].None?
      ensures amount == n && startPoint == 0.0 && increment == 0.0 && histogram == null
    {
      points := seq(n, _ => None);
      amount := n;
      startPoint := 0.0;
      increment := 0.0;
      histogram := null;
    }

    /** What building the histogram needs: every point set (a nil one is
        dereferenced), a start point other than 1, a number of zeros that is not
        negative, and values whose bucket positions are not negative. */
    predicate Buildable()
      reads this
    {
      && startPoint != 1.0
      && CountZero(startPoint, amount) >= 0
      && forall i :: 0 <= i < |points| ==> points[i].Some? && Round(points[i].value.value * 10.0) >= 0
    }

    /** Histogram: the cached histogram if there is one; otherwise a new histogram
        with a window of count_zero + Amount values, intervals and buckets 0.1 wide
        and the 0.99 percentile tracked, fed count_zero zeros and then each point's
        value, which becomes the cached one. */
    method Histogram() returns (h: Histogram)
      requires histogram != null || Buildable()
      modifies this
      ensures histogram == h
      ensures points == old(points) && startPoint == old(startPoint) && increment == old(increment) && amount == old(amount)
      ensures old(histogram) != null ==> h == old(histogram)
      ensures old(histogram) == null ==>
        && fresh(h) && h.Valid()
        && h.queueSize == CountZero(startPoint, amount) + amount
        && h.accuracy == 10.0 && h.buckets.subSize == 0.1 && h.buckets.bucketSize == 0.1
        && 0.99 in h.percentiles
        && h.queue == Latest(Repeat(0.0, CountZero(startPoint, amount)) + Tenths(points), h.queueSize)
    {
      if histogram != null {
        return histogram;
      }
      var countZero := CountZero(startPoint, amount);
      h := Build(countZero, amount, points);
      histogram := h;
    }
  }

  /** The histogram Histogram() builds for countZero zeros and the points. */
  method Build(countZero: nat, amount: int, points: seq<Option<CDFPoint>>) returns (h: Histogram)
    requires forall i :: 0 <= i < |points| ==> points[i].Some? && Round(points[i].value.value * 10.0) >= 0
    ensures fresh(h) && h.Valid()
    ensures h.queueSize == countZero + amount
    ensures h.accuracy == 10.0 && h.buckets.subSize == 0.1 && h.buckets.bucketSize == 0.1
    ensures 0.99 in h.percentiles
    ensures h.queue == Latest(Repeat(0.0, countZero) + Tenths(points), h.queueSize)
  {
    h := Seed(countZero, amount, points);
    ghost var zeros := Repeat(0.0, countZero);
    for i := 0 to |points|
      invariant fresh(h.buckets.Repr)
      invariant Fed(h, zeros, points, i)
    {
      Feed(h, points, i, zeros);
    }
    assert points[..|points|] == points;
  }

  /** The state of the histogram after the zeros and the first i points: a window
      holding the latest of them, with the 0.99 percentile tracked. */
  ghost predicate Fed(h: Histogram, zeros: seq<real>, points: seq<Option<CDFPoint>>, i: nat)
    reads h, h.buckets, h.buckets.Repr
  {
    && i <= |points| && (forall j :: 0 <= j < |points| ==> points[j].Some?)
    && h.Valid() && (h.root.Node? ==> Pointed(h.percentiles)) && 0.99 in h.percentiles
    && h.queue == Latest(zeros + Tenths(points[..i]), h.queueSize)
  }

  /** The histogram before the points: a window of countZero + amount values,
      accuracy 1 (intervals 0.1 wide), the 0.99 percentile tracked, countZero zeros. */
  method Seed(countZero: nat, amount: int, points: seq<Option<CDFPoint>>) returns (h: Histogram)
    requires forall i :: 0 <= i < |points| ==> points[i].Some?
    ensures fresh(h) && fresh(h.buckets) && fresh(h.buckets.Repr)
    ensures Fed(h, Repeat(0.0, countZero), points, 0)
    ensures h.queueSize == countZero + amount
    ensures h.accuracy == 10.0 && h.buckets.subSize == 0.1 && h.buckets.bucketSize == 0.1
  {
    h := new Histogram(countZero + amount, 0.1, 1);
    h.AddPercentilePoint(0.99);
    TenthsIndexable(h.buckets, 0);
    UnifiedZero(h.accuracy);
    var none := h.Enqueue(0.0, countZero);
    assert [] + Repeat(0.0, countZero) == Repeat(0.0, countZero) + Tenths(points[..0]);
  }

  /** One iteration of the loop over the points: Enqueue(value, 1) of point i into a
      histogram of accuracy 1. */
  method Feed(h: Histogram, points: seq<Option<CDFPoint>>, i: nat, ghost zeros: seq<real>)
    requires i < |points| && Fed(h, zeros, points, i)
    requires Round(points[i].value.value * 10.0) >= 0
    requires h.accuracy == 10.0 && h.buckets.subSize == 0.1 && h.buckets.bucketSize == 0.1
    modifies h, h.buckets, h.buckets.Repr
    ensures Fed(h, zeros, points, i + 1) && fresh(h.buckets.Repr - old(h.buckets.Repr))
  {
    var v := points[i].value.value;
    ghost var fed := zeros + Tenths(points[..i]);
    LatestOfLatest(fed, [Unified(v, 10.0)], h.queueSize);
    TenthsStep(zeros, points, i);
    var k := Round(v * 10.0);
    TenthsIndexable(h.buckets, k);
    assert h.UnifiedValue(v) == k as real / 10.0;
    var none := h.Enqueue(v, 1);
    assert Repeat(Unified(v, 10.0), 1) == [Unified(v, 10.0)];
  }

  /** The unified zero is zero. */
  lemma UnifiedZero(a: real)
    requires a > 0.0
    ensures Unified(0.0, a) == 0.0
  {
  }

  /** Histogram on a CDF that may be nil: nil for nil. */
  method HistogramOf(c: CDF?) returns (h: Histogram?)
    requires c != null ==> c.histogram != null || c.Buildable()
    modifies c
    ensures c == null ==> h == null
    ensures c != null ==> h != null && h == c.histogram
    ensures c != null && old(c.histogram) != null ==> h == old(c.histogram)
  {
    if c == null {
      return null;
    }
    h := c.Histogram();
  }

  /** The histograms of the CDFs, nil for a nil CDF. */
  function Built(list: seq<CDF?>): (r: seq<Histogram?>)
    reads set c | c in list && c != null
    ensures |r| == |list|
  {
    seq(|list|, i requires 0 <= i < |list| reads list => if list[i] == null then null else list[i].histogram)
  }

  /** SearchCDFProduct: 0 for no CDFs; otherwise CalcPercentileOfProduct over the
      CDFs' histograms, built on first use, with nil for a nil CDF. */
  method SearchCDFProduct(list: seq<CDF?>, p: real) returns (r: Product)
    requires forall i :: 0 <= i < |list| && list[i] != null ==> list[i].histogram != null || list[i].Buildable()
    modifies set c | c in list && c != null
    ensures list == [] ==> r == Answer(0.0)
    ensures forall i :: 0 <= i < |list| && list[i] != null ==> list[i].histogram != null
    ensures list != [] ==> r == Decided(p, Built(list))
  {
    if |list| == 0 {
      return Answer(0.0);
    }
    var hists: seq<Histogram?> := [];
    for i := 0 to |list|
      invariant |hists| == i
      invariant forall j :: 0 <= j < i ==> hists[j] == (if list[j] == null then null else list[j].histogram)
      invariant forall j :: 0 <= j < i && list[j] != null ==> list[j].histogram != null
      invariant forall j :: 0 <= j < |list| && list[j] != null ==> list[j].histogram != null || list[j].Buildable()
    {
      var h := HistogramOf(list[i]);
      hists := hists + [h];
    }
    assert hists == Built(list);
    r := CalcPercentileOfProduct(p, hists);
  }
}
