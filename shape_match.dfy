/** The width-height ratio test between ground-truth shapes and anchor shapes: the filter of
    build_targets (`max(r, 1/r) < anchor_t`) and its dual, the ratio metric `min(r, 1/r)` of the
    `metric` closures in check_anchors and kmean_anchors. */
module ShapeMatch {
  import opened RealMath
  import opened Boxes
  import opened Wrappers

  /** One axis of build_targets' filter: r = g / a, kept when max(r, 1/r) < thr. A zero on
      either side makes torch produce inf or nan there, and the comparison is then false. */
  predicate AxisFits(g: real, a: real, thr: real)
  {
    g != 0.0 && a != 0.0 && var r := g / a; Max(r, 1.0 / r) < thr
  }

  /** A (ground truth, anchor) pair survives the filter when both axes pass. */
  predicate Fits(gt: WH, anchor: WH, thr: real)
  {
    AxisFits(gt.w, anchor.w, thr) && AxisFits(gt.h, anchor.h, thr)
  }

  /** Anchor shapes are positive; ground-truth extents are not negative. */
  predicate PositiveShapes(k: seq<WH>)
  {
    forall j :: 0 <= j < |k| ==> k[j].w > 0.0 && k[j].h > 0.0
  }

  predicate NonNegativeShapes(wh: seq<WH>)
  {
    forall i :: 0 <= i < |wh| ==> wh[i].w >= 0.0 && wh[i].h >= 0.0
  }

  /** torch.min(r, 1/r) on one axis, r = g / a; with g = 0 torch has min(0, inf) = 0. */
  function AxisRatio(g: real, a: real): (x: real)
    requires g >= 0.0 && a > 0.0
    ensures 0.0 <= x <= 1.0
  {
    if g == 0.0 then 0.0 else var r := g / a; ReciprocalPositive(r); RatioMinAtMostOne(r); Min(r, 1.0 / r)
  }

  /** The ratio metric of one pair: the worse of the two axes. */
  function RatioMetric(gt: WH, anchor: WH): (x: real)
    requires gt.w >= 0.0 && gt.h >= 0.0 && anchor.w > 0.0 && anchor.h > 0.0
    ensures 0.0 <= x <= 1.0
  {
    Min(AxisRatio(gt.w, anchor.w), AxisRatio(gt.h, anchor.h))
  }

  lemma ReciprocalPositive(r: real)
    requires r > 0.0
    ensures 1.0 / r > 0.0 && 1.0 / (1.0 / r) == r
  {
    assert 1.0 / r * r == 1.0;
  }

  lemma RatioMinAtMostOne(r: real)
    requires r > 0.0
    ensures Min(r, 1.0 / r) <= 1.0
  {
    if r > 1.0 {
      ReciprocalOrder(1.0, r);
    }
  }

  /** For positive reals, x < t exactly when 1/t < 1/x. */
  lemma ReciprocalOrder(x: real, t: real)
    requires x > 0.0 && t > 0.0
    ensures x < t <==> 1.0 / t < 1.0 / x
  {
    var ix, it := 1.0 / x, 1.0 / t;
    assert ix * x == 1.0 && it * t == 1.0;
    if x < t {
      assert it * x < it * t by {
        MulPositive(it, t - x);
      }
      assert it * x < ix * x;
    } else {
      assert it * x >= it * t by {
        MulNonNegative(it, x - t);
      }
      assert it * x >= ix * x;
    }
  }

  /** The filter on one axis and the ratio metric on that axis are duals: max(r, 1/r) < thr
      exactly when min(r, 1/r) > 1/thr. */
  lemma AxisFitsIffRatio(g: real, a: real, thr: real)
    requires g >= 0.0 && a > 0.0 && thr > 0.0
    ensures AxisFits(g, a, thr) <==> AxisRatio(g, a) > 1.0 / thr
  {
    assert 1.0 / thr > 0.0 by {
      ReciprocalPositive(thr);
    }
    if g > 0.0 {
      var r := g / a;
      ReciprocalPositive(r);
      ReciprocalOrder(r, thr);
      ReciprocalOrder(1.0 / r, thr);
    }
  }

  /** A pair passes build_targets' filter exactly when its ratio metric exceeds 1/thr. */
  lemma FitsIffMetric(gt: WH, anchor: WH, thr: real)
    requires gt.w >= 0.0 && gt.h >= 0.0 && anchor.w > 0.0 && anchor.h > 0.0 && thr > 0.0
    ensures Fits(gt, anchor, thr) <==> RatioMetric(gt, anchor) > 1.0 / thr
  {
    AxisFitsIffRatio(gt.w, anchor.w, thr);
    AxisFitsIffRatio(gt.h, anchor.h, thr);
  }

  /** One row of the metric closures' `x`: the ratio metric of a shape against every anchor. */
  function MetricRow(gt: WH, k: seq<WH>): (x: seq<real>)
    requires gt.w >= 0.0 && gt.h >= 0.0 && PositiveShapes(k)
    ensures |x| == |k| && forall j :: 0 <= j < |k| ==> x[j] == RatioMetric(gt, k[j])
  {
    seq(|k|, j requires 0 <= j < |k| => RatioMetric(gt, k[j]))
  }

  /** `x.max(1)[0]` on one row. */
  function MaxOf(s: seq<real>): (m: real)
    requires |s| > 0
    ensures forall j :: 0 <= j < |s| ==> s[j] <= m
    ensures exists j :: 0 <= j < |s| && s[j] == m
  {
    if |s| == 1 then s[0] else Max(s[0], MaxOf(s[1..]))
  }

  /** `(row > t).float().sum()`. */
  function CountAbove(s: seq<real>, t: real): (c: nat)
    ensures c <= |s|
  {
    if |s| == 0 then 0 else (if s[0] > t then 1 else 0) + CountAbove(s[1..], t)
  }

  /** The per-shape results of kmean_anchors' `metric(k, wh)`: the matrix x and its row maxima. */
  datatype RatioMetrics = RatioMetrics(x: seq<seq<real>>, best: seq<real>)

  function KmeanMetric(k: seq<WH>, wh: seq<WH>): (m: RatioMetrics)
    requires |k| > 0 && PositiveShapes(k) && NonNegativeShapes(wh)
    ensures |m.x| == |wh| && |m.best| == |wh|
    ensures forall i :: 0 <= i < |wh| ==> m.x[i] == MetricRow(wh[i], k) && m.best[i] == MaxOf(m.x[i])
  {
    var x := seq(|wh|, i requires 0 <= i < |wh| => MetricRow(wh[i], k));
    RatioMetrics(x, seq(|wh|, i requires 0 <= i < |wh| => MaxOf(x[i])))
  }

  /** Some anchor takes the shape through build_targets' filter. */
  predicate SomeAnchorFits(gt: WH, k: seq<WH>, thr: real)
  {
    exists j :: 0 <= j < |k| && Fits(gt, k[j], thr)
  }

  /** A shape's best ratio metric clears 1/thr exactly when some anchor would keep it in build_targets. */
  lemma BestIffSomeAnchorFits(gt: WH, k: seq<WH>, thr: real)
    requires |k| > 0 && PositiveShapes(k) && gt.w >= 0.0 && gt.h >= 0.0 && thr > 0.0
    ensures MaxOf(MetricRow(gt, k)) > 1.0 / thr <==> SomeAnchorFits(gt, k, thr)
  {
    var row := MetricRow(gt, k);
    if MaxOf(row) > 1.0 / thr {
      var j :| 0 <= j < |row| && row[j] == MaxOf(row);
      FitsIffMetric(gt, k[j], thr);
    }
    if SomeAnchorFits(gt, k, thr) {
      var j :| 0 <= j < |k| && Fits(gt, k[j], thr);
      FitsIffMetric(gt, k[j], thr);
    }
  }

  /** Per shape, the number of anchors whose metric clears 1/thr is the number that fit. */
  lemma {:induction false} CountAboveCountsFits(gt: WH, k: seq<WH>, thr: real)
    requires PositiveShapes(k) && gt.w >= 0.0 && gt.h >= 0.0 && thr > 0.0
    ensures CountAbove(MetricRow(gt, k), 1.0 / thr) == FitCount(gt, k, thr)
    decreases |k|
  {
    if |k| > 0 {
      assert MetricRow(gt, k)[1..] == MetricRow(gt, k[1..]);
      FitsIffMetric(gt, k[0], thr);
      CountAboveCountsFits(gt, k[1..], thr);
    }
  }

  /** The number of anchors that keep a shape through build_targets' filter. */
  function FitCount(gt: WH, k: seq<WH>, thr: real): (c: nat)
    ensures c <= |k|
  {
    if |k| == 0 then 0 else (if Fits(gt, k[0], thr) then 1 else 0) + FitCount(gt, k[1..], thr)
  }

  /** The number of shapes some anchor keeps. */
  function CoveredCount(wh: seq<WH>, k: seq<WH>, thr: real): (c: nat)
    ensures c <= |wh|
  {
    if |wh| == 0 then 0 else (if SomeAnchorFits(wh[0], k, thr) then 1 else 0) + CoveredCount(wh[1..], k, thr)
  }

  /** The total number of fitting (shape, anchor) pairs. */
  function PairCount(wh: seq<WH>, k: seq<WH>, thr: real): nat
  {
    if |wh| == 0 then 0 else FitCount(wh[0], k, thr) + PairCount(wh[1..], k, thr)
  }

  /** check_anchors' `metric(k)`: best possible recall and anchors above threshold. */
  datatype AnchorFit = AnchorFit(bpr: real, aat: real)

  /** `(x > t).float().sum(1)` summed over the rows. */
  function RowCounts(x: seq<seq<real>>, t: real): nat
  {
    if |x| == 0 then 0 else CountAbove(x[0], t) + RowCounts(x[1..], t)
  }

  /** Both results are means over the shapes, so an empty label set (nan in numpy) has none. */
  function CheckAnchorsMetric(k: seq<WH>, wh: seq<WH>, thr: real): (r: Option<AnchorFit>)
    requires |k| > 0 && PositiveShapes(k) && NonNegativeShapes(wh) && thr > 0.0
    ensures r.None? <==> |wh| == 0
  {
    if |wh| == 0 then None
    else
      var m := KmeanMetric(k, wh);
      var n := |wh| as real;
      Some(AnchorFit(CountAbove(m.best, 1.0 / thr) as real / n, RowCounts(m.x, 1.0 / thr) as real / n))
  }

  /** The best-row count of the metric is the number of shapes some anchor keeps. */
  lemma {:induction false} BestCountIsCovered(k: seq<WH>, wh: seq<WH>, thr: real)
    requires |k| > 0 && PositiveShapes(k) && NonNegativeShapes(wh) && thr > 0.0
    ensures CountAbove(KmeanMetric(k, wh).best, 1.0 / thr) == CoveredCount(wh, k, thr)
    decreases |wh|
  {
    if |wh| > 0 {
      assert KmeanMetric(k, wh).best[1..] == KmeanMetric(k, wh[1..]).best;
      BestIffSomeAnchorFits(wh[0], k, thr);
      BestCountIsCovered(k, wh[1..], thr);
    }
  }

  /** The row counts of the metric add up to the number of fitting pairs. */
  lemma {:induction false} RowCountsArePairs(k: seq<WH>, wh: seq<WH>, thr: real)
    requires |k| > 0 && PositiveShapes(k) && NonNegativeShapes(wh) && thr > 0.0
    ensures RowCounts(KmeanMetric(k, wh).x, 1.0 / thr) == PairCount(wh, k, thr)
    decreases |wh|
  {
    if |wh| > 0 {
      assert KmeanMetric(k, wh).x[1..] == KmeanMetric(k, wh[1..]).x;
      CountAboveCountsFits(wh[0], k, thr);
      RowCountsArePairs(k, wh[1..], thr);
    }
  }

  /** m added up n times. */
  function Repeated(n: nat, m: real): real
  {
    if n == 0 then 0.0 else Repeated(n - 1, m) + m
  }

  lemma {:induction false} RepeatedIsProduct(n: nat, m: real)
    ensures Repeated(n, m) == n as real * m
  {
    if n > 0 {
      RepeatedIsProduct(n - 1, m);
      assert n as real * m == (n - 1) as real * m + m;
    }
  }

  /** There are no more fitting pairs than pairs: at most |k| per shape. */
  lemma {:induction false} PairCountBound(wh: seq<WH>, k: seq<WH>, thr: real)
    ensures PairCount(wh, k, thr) as real <= Repeated(|wh|, |k| as real)
    decreases |wh|
  {
    if |wh| > 0 {
      PairCountBound(wh[1..], k, thr);
      assert |wh[1..]| == |wh| - 1;
    }
  }

  /** The two results of check_anchors' metric, written out as counts over the shapes: BPR is the
      fraction of shapes that some anchor keeps through build_targets' filter, and AAT is the mean
      number of anchors that keep a shape. */
  lemma CheckAnchorsMetricCounts(k: seq<WH>, wh: seq<WH>, thr: real)
    requires |k| > 0 && PositiveShapes(k) && NonNegativeShapes(wh) && thr > 0.0 && |wh| > 0
    ensures CheckAnchorsMetric(k, wh, thr).Some?
    ensures CheckAnchorsMetric(k, wh, thr).value.bpr == CoveredCount(wh, k, thr) as real / |wh| as real
    ensures CheckAnchorsMetric(k, wh, thr).value.aat == PairCount(wh, k, thr) as real / |wh| as real
  {
    BestCountIsCovered(k, wh, thr);
    RowCountsArePairs(k, wh, thr);
  }

  /** So BPR is in [0, 1] and AAT in [0, |k|]. */
  lemma CheckAnchorsMetricBounds(k: seq<WH>, wh: seq<WH>, thr: real)
    requires |k| > 0 && PositiveShapes(k) && NonNegativeShapes(wh) && thr > 0.0 && |wh| > 0
    ensures CheckAnchorsMetric(k, wh, thr).Some?
    ensures 0.0 <= CheckAnchorsMetric(k, wh, thr).value.bpr <= 1.0
    ensures 0.0 <= CheckAnchorsMetric(k, wh, thr).value.aat <= |k| as real
  {
    CheckAnchorsMetricCounts(k, wh, thr);
    AnchorFitBounds(CheckAnchorsMetric(k, wh, thr).value, k, wh, thr);
  }

  lemma AnchorFitBounds(fit: AnchorFit, k: seq<WH>, wh: seq<WH>, thr: real)
    requires |wh| > 0
    requires fit.bpr == CoveredCount(wh, k, thr) as real / |wh| as real
    requires fit.aat == PairCount(wh, k, thr) as real / |wh| as real
    ensures 0.0 <= fit.bpr <= 1.0 && 0.0 <= fit.aat <= |k| as real
  {
    PairCountBound(wh, k, thr);
    MeanBounds(fit.bpr, fit.aat, CoveredCount(wh, k, thr) as real, PairCount(wh, k, thr) as real,
      |wh|, |k| as real);
  }

  lemma MeanBounds(bpr: real, aat: real, covered: real, pairs: real, n: nat, m: real)
    requires n > 0 && 0.0 <= covered <= n as real && 0.0 <= pairs <= Repeated(n, m)
    requires bpr == covered / n as real && aat == pairs / n as real
    ensures 0.0 <= bpr <= 1.0 && 0.0 <= aat <= m
  {
    RepeatedIsProduct(n, m);
    FractionBounds(covered, n as real, 1.0);
    FractionBounds(pairs, n as real, m);
  }

  /** c / n lies in [0, b] when 0 <= c <= n * b. */
  lemma FractionBounds(c: real, n: real, b: real)
    requires n > 0.0 && 0.0 <= c <= n * b
    ensures 0.0 <= c / n <= b
  {
    assert c / n * n == c;
  }
}
