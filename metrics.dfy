/** compute_ap (sentinels, precision envelope, the 101-point trapezoid and the continuous step
    sum) and ap_per_class (confidence order, cumulative TP/FP, recall, precision, AP and F1). */
module Metrics {
  import opened RealMath

  /** The 1e-16 added to the ground-truth count and to p + r. */
  const Eps: real := 0.0000000000000001

  /** pr_score, the confidence at which P and R are read off. */
  const PrScore: real := 0.1

  /** The number of points of `np.linspace(0, 1, 101)`. */
  const Points: nat := 101

  // ----- compute_ap: sentinels and envelope -----

  /** mrec: 0, the recall curve, then min(recall[-1] + 1E-3, 1). */
  function PadRecall(recall: seq<real>): (m: seq<real>)
    requires |recall| > 0
    ensures |m| == |recall| + 2 && m[0] == 0.0 && m[|m| - 1] == Min(recall[|recall| - 1] + 0.001, 1.0)
    ensures forall k :: 0 <= k < |recall| ==> m[k + 1] == recall[k]
  {
    [0.0] + recall + [Min(recall[|recall| - 1] + 0.001, 1.0)]
  }

  /** mpre before the envelope: 0, the precision curve, 0. */
  function PadPrecision(precision: seq<real>): (m: seq<real>)
    ensures |m| == |precision| + 2 && m[0] == 0.0 && m[|m| - 1] == 0.0
    ensures forall k :: 0 <= k < |precision| ==> m[k + 1] == precision[k]
  {
    [0.0] + precision + [0.0]
  }

  /** The largest entry of s at or after position i. */
  function MaxFrom(s: seq<real>, i: nat): real
    requires i < |s|
    decreases |s| - i
  {
    if i == |s| - 1 then s[i] else Max(s[i], MaxFrom(s, i + 1))
  }

  /** `np.flip(np.maximum.accumulate(np.flip(s)))`. */
  function Envelope(s: seq<real>): (e: seq<real>)
    ensures |e| == |s| && forall i :: 0 <= i < |s| ==> e[i] == MaxFrom(s, i)
  {
    seq(|s|, i requires 0 <= i < |s| => MaxFrom(s, i))
  }

  lemma {:induction false} MaxFromAtLeast(s: seq<real>, i: nat, j: nat)
    requires i <= j < |s|
    ensures MaxFrom(s, i) >= s[j]
    decreases j - i
  {
    if i < j {
      MaxFromAtLeast(s, i + 1, j);
    }
  }

  lemma {:induction false} MaxFromWithin(s: seq<real>, i: nat, lo: real, hi: real)
    requires i < |s| && forall k :: i <= k < |s| ==> lo <= s[k] <= hi
    ensures lo <= MaxFrom(s, i) <= hi
    decreases |s| - i
  {
    if i < |s| - 1 {
      MaxFromWithin(s, i + 1, lo, hi);
    }
  }

  lemma EnvelopeNonIncreasing(s: seq<real>, i: nat)
    requires i + 1 < |s|
    ensures Envelope(s)[i] >= Envelope(s)[i + 1]
  {
  }

  lemma EnvelopeWithin(s: seq<real>, lo: real, hi: real)
    requires forall k :: 0 <= k < |s| ==> lo <= s[k] <= hi
    ensures forall i :: 0 <= i < |s| ==> lo <= Envelope(s)[i] <= hi
  {
    forall i | 0 <= i < |s|
      ensures lo <= MaxFrom(s, i) <= hi
    {
      MaxFromWithin(s, i, lo, hi);
    }
  }

  lemma PaddedWithin(precision: seq<real>)
    requires forall k :: 0 <= k < |precision| ==> 0.0 <= precision[k] <= 1.0
    ensures forall k :: 0 <= k < |precision| + 2 ==> 0.0 <= PadPrecision(precision)[k] <= 1.0
  {
    var s := PadPrecision(precision);
    forall k | 0 <= k < |s|
      ensures 0.0 <= s[k] <= 1.0
    {
      if 0 < k < |s| - 1 {
        assert s[k] == precision[k - 1];
      }
    }
  }

  /** The envelope of the padded precision: n + 2 entries, non-increasing, at least the padded
      precision everywhere, ending in 0, and within [0, 1] when the precision is. */
  lemma EnvelopeShape(precision: seq<real>)
    ensures |Envelope(PadPrecision(precision))| == |precision| + 2
    ensures forall i :: 0 <= i < |precision| + 1 ==>
      Envelope(PadPrecision(precision))[i] >= Envelope(PadPrecision(precision))[i + 1]
    ensures forall i :: 0 <= i < |precision| + 2 ==>
      Envelope(PadPrecision(precision))[i] >= PadPrecision(precision)[i]
    ensures Envelope(PadPrecision(precision))[|precision| + 1] == 0.0
    ensures (forall k :: 0 <= k < |precision| ==> 0.0 <= precision[k] <= 1.0) ==>
      forall i :: 0 <= i < |precision| + 2 ==> 0.0 <= Envelope(PadPrecision(precision))[i] <= 1.0
  {
    var s := PadPrecision(precision);
    var e := Envelope(s);
    forall i | 0 <= i < |s| - 1
      ensures e[i] >= e[i + 1]
    {
      EnvelopeNonIncreasing(s, i);
    }
    forall i | 0 <= i < |s|
      ensures e[i] >= s[i]
    {
      MaxFromAtLeast(s, i, i);
    }
    if forall k :: 0 <= k < |precision| ==> 0.0 <= precision[k] <= 1.0 {
      PaddedWithin(precision);
      EnvelopeWithin(s, 0.0, 1.0);
    }
  }

  // ----- compute_ap: interpolation and integration -----

  /** The segment holding x: the last j with xp[j] <= x < xp[j + 1]. */
  function Segment(xp: seq<real>, x: real): (j: nat)
    requires |xp| >= 2 && xp[0] <= x < xp[|xp| - 1]
    ensures j + 1 < |xp| && xp[j] <= x < xp[j + 1]
    decreases |xp|
  {
    if xp[|xp| - 2] <= x then |xp| - 2 else Segment(xp[..|xp| - 1], x)
  }

  predicate NonDecreasing(s: seq<real>)
  {
    forall k, l :: 0 <= k <= l < |s| ==> s[k] <= s[l]
  }

  /** On ascending xp the segment is the only one holding x, the one numpy's binary search finds. */
  lemma SegmentUnique(xp: seq<real>, x: real, j': nat)
    requires |xp| >= 2 && xp[0] <= x < xp[|xp| - 1] && NonDecreasing(xp)
    requires j' + 1 < |xp| && xp[j'] <= x < xp[j' + 1]
    ensures j' == Segment(xp, x)
  {
  }

  /** `np.interp(x, xp, fp)`: the end values outside [xp[0], xp[-1]], fp[j] at a sample point,
      and the straight line through the neighbouring samples in between. */
  function Interp(x: real, xp: seq<real>, fp: seq<real>): real
    requires |xp| == |fp| > 0
  {
    var n := |xp|;
    if x > xp[n - 1] then fp[n - 1]
    else if x < xp[0] then fp[0]
    else if x == xp[n - 1] then fp[n - 1]
    else
      var j := Segment(xp, x);
      if x == xp[j] then fp[j]
      else (fp[j + 1] - fp[j]) / (xp[j + 1] - xp[j]) * (x - xp[j]) + fp[j]
  }

  lemma LerpBounds(a: real, b: real, w: real, d: real, lo: real, hi: real)
    requires lo <= a <= hi && lo <= b <= hi && 0.0 < d < w
    ensures lo <= (b - a) / w * d + a <= hi
  {
    var t := d / w;
    QuotientBelowOne(d, w);
    assert (b - a) / w * d == (b - a) * t;
    if a <= b {
      StepBounds(a, b, t, (b - a) * t);
    } else {
      StepBounds(b, a, t, (a - b) * t);
      assert (b - a) * t == -((a - b) * t);
    }
  }

  /** A width scaled by a weight in [0, 1] lies between 0 and the width. */
  lemma StepBounds(a: real, b: real, c: real, v: real)
    requires a <= b && 0.0 <= c <= 1.0 && v == (b - a) * c
    ensures 0.0 <= v <= b - a
  {
    MulMonoLeq(c, 1.0, b - a);
    MulNonNegative(b - a, c);
  }

  /** Interpolated values stay within the bounds of the sampled values. */
  lemma InterpBounds(x: real, xp: seq<real>, fp: seq<real>, lo: real, hi: real)
    requires |xp| == |fp| > 0 && forall k :: 0 <= k < |fp| ==> lo <= fp[k] <= hi
    ensures lo <= Interp(x, xp, fp) <= hi
  {
    var n := |xp|;
    if xp[0] <= x < xp[n - 1] {
      var j := Segment(xp, x);
      if x != xp[j] {
        LerpBounds(fp[j], fp[j + 1], xp[j + 1] - xp[j], x - xp[j], lo, hi);
      }
    }
  }

  /** `np.linspace(0, 1, 101)`. */
  function Linspace(): (x: seq<real>)
    ensures |x| == Points && forall k :: 0 <= k < Points ==> x[k] == k as real / 100.0
  {
    seq(Points, k requires 0 <= k < Points => k as real / 100.0)
  }

  /** The trapezoid areas `d * (y[1:] + y[:-1]) / 2.0` of `np.trapz(y, x)`. */
  function TrapzTerms(y: seq<real>, x: seq<real>): (t: seq<real>)
    requires |y| == |x| > 0
    ensures |t| == |x| - 1
  {
    seq(|x| - 1, k requires 0 <= k < |x| - 1 => (x[k + 1] - x[k]) * (y[k + 1] + y[k]) / 2.0)
  }

  /** The 101-point interpolated precision curve. */
  function Curve(recall: seq<real>, precision: seq<real>): (y: seq<real>)
    requires |recall| == |precision| > 0
    ensures |y| == Points
  {
    var mrec := PadRecall(recall);
    var mpre := Envelope(PadPrecision(precision));
    seq(Points, k requires 0 <= k < Points => Interp(Linspace()[k], mrec, mpre))
  }

  /** compute_ap(recall, precision) with method 'interp', the one the source selects. */
  function ComputeAp(recall: seq<real>, precision: seq<real>): real
    requires |recall| == |precision| > 0
  {
    Sum(TrapzTerms(Curve(recall, precision), Linspace()))
  }

  /** The areas `(mrec[i + 1] - mrec[i]) * mpre[i + 1]` at the steps where recall changes; the
      other steps contribute nothing, as they are left out of `np.where(...)`. */
  function StepTerms(mrec: seq<real>, mpre: seq<real>): (t: seq<real>)
    requires |mrec| == |mpre| > 0
    ensures |t| == |mrec| - 1
  {
    seq(|mrec| - 1, k requires 0 <= k < |mrec| - 1 =>
      if mrec[k + 1] != mrec[k] then (mrec[k + 1] - mrec[k]) * mpre[k + 1] else 0.0)
  }

  /** compute_ap with method 'continuous'. */
  function ContinuousAp(recall: seq<real>, precision: seq<real>): real
    requires |recall| == |precision| > 0
  {
    Sum(StepTerms(PadRecall(recall), Envelope(PadPrecision(precision))))
  }

  /** Leaving the unchanged-recall steps out changes nothing: the continuous AP is the sum over
      every step of its width times the envelope after it. */
  lemma ContinuousAllSteps(recall: seq<real>, precision: seq<real>)
    requires |recall| == |precision| > 0
    ensures ContinuousAp(recall, precision) ==
      Sum(Widths(PadRecall(recall), Envelope(PadPrecision(precision))))
  {
    StepsAreWidths(PadRecall(recall), Envelope(PadPrecision(precision)));
  }

  lemma StepsAreWidths(m: seq<real>, e: seq<real>)
    requires |m| == |e| > 0
    ensures StepTerms(m, e) == Widths(m, e)
  {
    var st, w := StepTerms(m, e), Widths(m, e);
    forall k | 0 <= k < |w|
      ensures st[k] == w[k]
    {
      ZeroWidth(m[k + 1], m[k], e[k + 1]);
    }
  }

  lemma ZeroWidth(b: real, a: real, c: real)
    ensures (if b != a then (b - a) * c else 0.0) == (b - a) * c
  {
  }

  function Widths(mrec: seq<real>, mpre: seq<real>): (t: seq<real>)
    requires |mrec| == |mpre| > 0
    ensures |t| == |mrec| - 1 && forall k :: 0 <= k < |t| ==> t[k] == (mrec[k + 1] - mrec[k]) * mpre[k + 1]
  {
    seq(|mrec| - 1, k requires 0 <= k < |mrec| - 1 => (mrec[k + 1] - mrec[k]) * mpre[k + 1])
  }

  /** With precision in [0, 1], the 101-point AP lies in [0, 1]. */
  lemma ComputeApBounds(recall: seq<real>, precision: seq<real>)
    requires |recall| == |precision| > 0
    requires forall k :: 0 <= k < |precision| ==> 0.0 <= precision[k] <= 1.0
    ensures 0.0 <= ComputeAp(recall, precision) <= 1.0
  {
    CurveBounds(recall, precision);
    TrapzBounds(Curve(recall, precision));
  }

  lemma CurveBounds(recall: seq<real>, precision: seq<real>)
    requires |recall| == |precision| > 0
    requires forall k :: 0 <= k < |precision| ==> 0.0 <= precision[k] <= 1.0
    ensures forall k :: 0 <= k < Points ==> 0.0 <= Curve(recall, precision)[k] <= 1.0
  {
    EnvelopeShape(precision);
    var mrec, mpre := PadRecall(recall), Envelope(PadPrecision(precision));
    forall k | 0 <= k < Points
      ensures 0.0 <= Curve(recall, precision)[k] <= 1.0
    {
      InterpBounds(Linspace()[k], mrec, mpre, 0.0, 1.0);
    }
  }

  /** The trapezoid rule over the 101-point grid of values in [0, 1] gives a value in [0, 1]. */
  lemma TrapzBounds(y: seq<real>)
    requires |y| == Points && forall k :: 0 <= k < Points ==> 0.0 <= y[k] <= 1.0
    ensures 0.0 <= Sum(TrapzTerms(y, Linspace())) <= 1.0
  {
    var x := Linspace();
    var t := TrapzTerms(y, x);
    forall k | 0 <= k < |t|
      ensures 0.0 <= t[k] <= 0.01
    {
      TrapezoidBounds(y[k], y[k + 1], x[k + 1] - x[k], t[k]);
    }
    SumNonNegative(t);
    SumAtMost(t, 0.01);
  }

  lemma TrapezoidBounds(y0: real, y1: real, d: real, t: real)
    requires 0.0 <= y0 <= 1.0 && 0.0 <= y1 <= 1.0 && d == 0.01
    requires t == d * (y1 + y0) / 2.0
    ensures 0.0 <= t <= 0.01
  {
    assert t == 0.005 * (y1 + y0);
  }

  /** Telescoping: steps that are each the difference of neighbouring entries of m add up to
      m[n] - m[0]. */
  lemma {:induction false} Telescope(m: seq<real>, w: seq<real>, n: nat)
    requires n < |m| && n <= |w| && forall k :: 0 <= k < n ==> w[k] == m[k + 1] - m[k]
    ensures Sum(w[..n]) == m[n] - m[0]
  {
    if n > 0 {
      Telescope(m, w, n - 1);
      assert w[..n][..n - 1] == w[..n - 1];
    }
  }

  /** Widths with weights in [0, 1] over non-decreasing steps total between 0 and the full
      width. */
  lemma {:induction false} WeightedTelescope(m: seq<real>, e: seq<real>, w: seq<real>, n: nat)
    requires |e| == |m| && |w| == |m| - 1 && n < |m|
    requires forall k :: 0 <= k < |w| ==> w[k] == (m[k + 1] - m[k]) * e[k + 1]
    requires forall k :: 0 <= k < |m| - 1 ==> m[k] <= m[k + 1]
    requires forall k :: 0 <= k < |e| ==> 0.0 <= e[k] <= 1.0
    ensures 0.0 <= Sum(w[..n]) <= m[n] - m[0]
  {
    if n > 0 {
      WeightedTelescope(m, e, w, n - 1);
      StepBounds(m[n - 1], m[n], e[n], w[n - 1]);
      assert w[..n][..n - 1] == w[..n - 1];
    }
  }

  /** With a non-decreasing recall in [0, 1] and precision in [0, 1], the continuous AP lies in
      [0, 1]. */
  lemma ContinuousApBounds(recall: seq<real>, precision: seq<real>)
    requires |recall| == |precision| > 0 && NonDecreasing(recall)
    requires 0.0 <= recall[0] && recall[|recall| - 1] <= 1.0
    requires forall k :: 0 <= k < |precision| ==> 0.0 <= precision[k] <= 1.0
    ensures 0.0 <= ContinuousAp(recall, precision) <= 1.0
  {
    EnvelopeShape(precision);
    PaddedNonDecreasing(recall);
    ContinuousAllSteps(recall, precision);
    WidthsBounds(PadRecall(recall), Envelope(PadPrecision(precision)));
  }

  lemma WidthsBounds(m: seq<real>, e: seq<real>)
    requires |m| == |e| > 0 && NonDecreasing(m)
    requires forall k :: 0 <= k < |e| ==> 0.0 <= e[k] <= 1.0
    ensures 0.0 <= Sum(Widths(m, e)) <= m[|m| - 1] - m[0]
  {
    var w := Widths(m, e);
    WeightedTelescope(m, e, w, |m| - 1);
    assert w[..|m| - 1] == w;
  }

  lemma PaddedNonDecreasing(recall: seq<real>)
    requires |recall| > 0 && NonDecreasing(recall)
    requires 0.0 <= recall[0] && recall[|recall| - 1] <= 1.0
    ensures NonDecreasing(PadRecall(recall))
  {
    var m := PadRecall(recall);
    var n := |recall|;
    assert forall k :: 0 < k <= n ==> 0.0 <= m[k] <= recall[n - 1] <= m[n + 1] by {
      forall k | 0 < k <= n
        ensures 0.0 <= m[k] <= recall[n - 1]
      {
        assert m[k] == recall[k - 1];
      }
    }
    forall k, l | 0 <= k <= l < |m|
      ensures m[k] <= m[l]
    {
      if 0 < k && l <= n {
        assert m[k] == recall[k - 1] && m[l] == recall[l - 1];
      }
    }
  }

  /** The padded envelope of an all-ones precision curve: 1 up to the last recall point, then 0. */
  lemma PerfectEnvelope(precision: seq<real>)
    requires |precision| > 0 && forall k :: 0 <= k < |precision| ==> precision[k] == 1.0
    ensures forall i :: 0 <= i <= |precision| ==> Envelope(PadPrecision(precision))[i] == 1.0
    ensures Envelope(PadPrecision(precision))[|precision| + 1] == 0.0
  {
    EnvelopeShape(precision);
    var s, e := PadPrecision(precision), Envelope(PadPrecision(precision));
    forall k | 0 <= k < |s|
      ensures 0.0 <= s[k] <= 1.0
    {
      if 0 < k < |s| - 1 {
        assert s[k] == precision[k - 1];
      }
    }
    forall i | 0 <= i <= |precision|
      ensures e[i] == 1.0
    {
      assert s[|precision|] == 1.0;
      MaxFromAtLeast(s, i, |precision|);
      MaxFromWithin(s, i, 0.0, 1.0);
    }
  }

  /** A detector whose precision is 1 throughout and whose recall reaches at least 0.99 scores
      0.995 under the 101-point rule: the last grid point, recall 1, reads the trailing 0
      sentinel. The continuous rule gives the final recall. */
  lemma PerfectDetectorAp(recall: seq<real>, precision: seq<real>)
    requires |recall| == |precision| > 0 && NonDecreasing(recall) && 0.0 <= recall[0]
    requires 0.99 <= recall[|recall| - 1] <= 1.0
    requires forall k :: 0 <= k < |precision| ==> precision[k] == 1.0
    ensures ComputeAp(recall, precision) == 0.995
    ensures ContinuousAp(recall, precision) == recall[|recall| - 1]
  {
    PerfectCurve(recall, precision);
    PerfectTrapz(Curve(recall, precision));
    PerfectContinuous(recall, precision);
  }

  /** The trapezoid rule over a grid reading 1 everywhere but at the last point, which reads 0. */
  lemma PerfectTrapz(y: seq<real>)
    requires |y| == Points && y[Points - 1] == 0.0
    requires forall k :: 0 <= k < Points - 1 ==> y[k] == 1.0
    ensures Sum(TrapzTerms(y, Linspace())) == 0.995
  {
    var x := Linspace();
    var t := TrapzTerms(y, x);
    forall k | 0 <= k < 99
      ensures t[k] == 0.01
    {
      assert x[k + 1] - x[k] == 0.01;
    }
    assert t[99] == 0.005 by {
      assert x[100] - x[99] == 0.01;
    }
    assert t[..99] == seq(99, k requires 0 <= k < 99 => 0.01);
    ConstantSum(99, 0.01);
    assert t[..99] == t[..|t| - 1];
  }

  lemma PerfectCurve(recall: seq<real>, precision: seq<real>)
    requires |recall| == |precision| > 0 && NonDecreasing(recall) && 0.0 <= recall[0]
    requires 0.99 <= recall[|recall| - 1] <= 1.0
    requires forall k :: 0 <= k < |precision| ==> precision[k] == 1.0
    ensures forall k :: 0 <= k < Points - 1 ==> Curve(recall, precision)[k] == 1.0
    ensures Curve(recall, precision)[Points - 1] == 0.0
  {
    var n := |recall|;
    var m, e := PadRecall(recall), Envelope(PadPrecision(precision));
    PerfectEnvelope(precision);
    PaddedNonDecreasing(recall);
    assert m[n] == recall[n - 1];
    forall k | 0 <= k < Points - 1
      ensures Interp(Linspace()[k], m, e) == 1.0
    {
      assert 0.0 <= Linspace()[k] <= 0.99;
      PerfectInterp(Linspace()[k], m, e, n);
    }
  }

  /** Interpolating an envelope that is 1 up to the last recall point and 0 after it, at a point
      no further than that last recall point. */
  lemma PerfectInterp(x: real, m: seq<real>, e: seq<real>, n: nat)
    requires |m| == |e| == n + 2 && NonDecreasing(m)
    requires forall i :: 0 <= i <= n ==> e[i] == 1.0
    requires m[0] <= x <= m[n] && x < m[n + 1]
    ensures Interp(x, m, e) == 1.0
  {
    var j := Segment(m, x);
    if j == n {
      assert x == m[j];
    } else {
      assert e[j] == 1.0 && e[j + 1] == 1.0;
    }
  }

  lemma PerfectContinuous(recall: seq<real>, precision: seq<real>)
    requires |recall| == |precision| > 0 && NonDecreasing(recall) && 0.0 <= recall[0]
    requires recall[|recall| - 1] <= 1.0
    requires forall k :: 0 <= k < |precision| ==> precision[k] == 1.0
    ensures ContinuousAp(recall, precision) == recall[|recall| - 1]
  {
    var n := |recall|;
    PerfectEnvelope(precision);
    ContinuousAllSteps(recall, precision);
    PerfectWidths(PadRecall(recall), Envelope(PadPrecision(precision)), n);
    assert PadRecall(recall)[n] == recall[n - 1];
  }

  lemma PerfectWidths(m: seq<real>, e: seq<real>, n: nat)
    requires |m| == |e| == n + 2
    requires forall i :: 0 <= i <= n ==> e[i] == 1.0
    requires e[n + 1] == 0.0
    ensures Sum(Widths(m, e)) == m[n] - m[0]
  {
    var w := Widths(m, e);
    forall k | 0 <= k < n
      ensures w[k] == m[k + 1] - m[k]
    {
      assert e[k + 1] == 1.0;
    }
    Telescope(m, w, n);
    assert w[n] == 0.0;
    assert w[..n] == w[..|w| - 1];
  }

  // ----- ap_per_class -----

  /** Entry k counts the true entries among the first k + 1 (`tp.cumsum(0)`). */
  function CumTrue(col: seq<bool>): (c: seq<nat>)
    ensures |c| == |col|
  {
    if |col| == 0 then []
    else
      var c := CumTrue(col[..|col| - 1]);
      c + [(if |c| == 0 then 0 else c[|c| - 1]) + (if col[|col| - 1] then 1 else 0)]
  }

  /** Entry k counts the false entries among the first k + 1 (`(1 - tp).cumsum(0)`). */
  function CumFalse(col: seq<bool>): (c: seq<nat>)
    ensures |c| == |col|
  {
    if |col| == 0 then []
    else
      var c := CumFalse(col[..|col| - 1]);
      c + [(if |c| == 0 then 0 else c[|c| - 1]) + (if col[|col| - 1] then 0 else 1)]
  }

  /** After k + 1 predictions the true and false positives number k + 1 together. */
  lemma {:induction false} CumTotal(col: seq<bool>)
    ensures forall k :: 0 <= k < |col| ==> CumTrue(col)[k] + CumFalse(col)[k] == k + 1
  {
    if |col| > 0 {
      CumTotal(col[..|col| - 1]);
    }
  }

  /** The true-positive count never decreases, and counts every prediction when all are true. */
  lemma {:induction false} CumTrueShape(col: seq<bool>)
    ensures forall k, l :: 0 <= k <= l < |col| ==> CumTrue(col)[k] <= CumTrue(col)[l]
    ensures (forall k :: 0 <= k < |col| ==> col[k]) ==> forall k :: 0 <= k < |col| ==> CumTrue(col)[k] == k + 1
  {
    if |col| > 0 {
      CumTrueShape(col[..|col| - 1]);
    }
  }

  /** `tpc / (n_gt + 1e-16)`. */
  function Recall(col: seq<bool>, nGt: nat): (r: seq<real>)
    ensures |r| == |col|
  {
    var t := CumTrue(col);
    seq(|col|, k requires 0 <= k < |col| => t[k] as real / (nGt as real + Eps))
  }

  /** `tpc / (tpc + fpc)`. */
  function Precision(col: seq<bool>): (p: seq<real>)
    ensures |p| == |col|
  {
    var t, f := CumTrue(col), CumFalse(col);
    CumTotal(col);
    seq(|col|, k requires 0 <= k < |col| => t[k] as real / (t[k] + f[k]) as real)
  }

  /** Precision after k + 1 predictions is the true-positive share of them, within [0, 1]. */
  lemma PrecisionMeaning(col: seq<bool>)
    ensures forall k :: 0 <= k < |col| ==> Precision(col)[k] == CumTrue(col)[k] as real / (k + 1) as real
    ensures forall k :: 0 <= k < |col| ==> 0.0 <= Precision(col)[k] <= 1.0
  {
    CumTotal(col);
    var p, t := Precision(col), CumTrue(col);
    forall k | 0 <= k < |col|
      ensures p[k] == t[k] as real / (k + 1) as real && 0.0 <= p[k] <= 1.0
    {
      ShareBounds(t[k], k + 1);
    }
  }

  lemma ShareBounds(t: nat, n: nat)
    requires t <= n && n > 0
    ensures 0.0 <= t as real / n as real <= 1.0
  {
    QuotientOrder(t as real, n as real, n as real);
    assert n as real / n as real == 1.0;
  }

  /** Recall is non-negative and never decreases. */
  lemma RecallMeaning(col: seq<bool>, nGt: nat)
    ensures forall k :: 0 <= k < |col| ==> 0.0 <= Recall(col, nGt)[k]
    ensures NonDecreasing(Recall(col, nGt))
  {
    CumTrueShape(col);
    var r, t := Recall(col, nGt), CumTrue(col);
    forall k, l | 0 <= k <= l < |col|
      ensures 0.0 <= r[k] <= r[l]
    {
      QuotientOrder(t[k] as real, t[l] as real, nGt as real + Eps);
      QuotientOrder(0.0, t[k] as real, nGt as real + Eps);
    }
  }

  /** tp, conf and pred_cls describe the same predictions, each with nt IoU-threshold columns. */
  predicate Table(tp: seq<seq<bool>>, conf: seq<real>, predCls: seq<int>, nt: nat)
  {
    |tp| == |conf| == |predCls| && forall k :: 0 <= k < |tp| ==> |tp[k]| == nt
  }

  /** An order of the predictions by descending confidence, as `np.argsort(-conf)` yields; the
      order among equal confidences is left open, as numpy's default sort does not fix it. */
  predicate SortsDescending(order: seq<nat>, conf: seq<real>)
  {
    |order| == |conf| && (forall k :: 0 <= k < |order| ==> order[k] < |conf|)
    && (forall k, l :: 0 <= k < l < |order| ==> order[k] != order[l])
    && (forall k, l :: 0 <= k < l < |order| ==> conf[order[k]] >= conf[order[l]])
  }

  /** Inserts prediction i into an order, before the first prediction of lower confidence. */
  function InsertByConf(i: nat, s: seq<nat>, conf: seq<real>): (r: seq<nat>)
    requires i < |conf| && forall k :: 0 <= k < |s| ==> s[k] < |conf|
    ensures |r| == |s| + 1 && forall x :: x in r <==> x == i || x in s
    ensures forall k :: 0 <= k < |r| ==> r[k] < |conf|
  {
    if |s| == 0 || conf[s[0]] < conf[i] then [i] + s
    else [s[0]] + InsertByConf(i, s[1..], conf)
  }

  predicate Distinct(s: seq<nat>)
  {
    forall k, l :: 0 <= k < l < |s| ==> s[k] != s[l]
  }

  predicate Descending(s: seq<nat>, conf: seq<real>)
    requires forall k :: 0 <= k < |s| ==> s[k] < |conf|
  {
    forall k, l :: 0 <= k < l < |s| ==> conf[s[k]] >= conf[s[l]]
  }

  lemma {:induction false} InsertKeepsOrder(i: nat, s: seq<nat>, conf: seq<real>)
    requires i < |conf| && forall k :: 0 <= k < |s| ==> s[k] < |conf|
    requires Distinct(s) && i !in s && Descending(s, conf)
    ensures Distinct(InsertByConf(i, s, conf)) && Descending(InsertByConf(i, s, conf), conf)
  {
    if |s| > 0 && conf[s[0]] >= conf[i] {
      InsertKeepsOrder(i, s[1..], conf);
      InsertBehind(i, s, conf);
    } else {
      InsertInFront(i, s, conf);
    }
  }

  lemma InsertInFront(i: nat, s: seq<nat>, conf: seq<real>)
    requires i < |conf| && forall k :: 0 <= k < |s| ==> s[k] < |conf|
    requires Distinct(s) && i !in s && Descending(s, conf)
    requires |s| == 0 || conf[s[0]] < conf[i]
    ensures Distinct([i] + s) && Descending([i] + s, conf)
  {
    var r := [i] + s;
    forall k, l | 0 <= k < l < |r|
      ensures r[k] != r[l] && conf[r[k]] >= conf[r[l]]
    {
      assert r[l] == s[l - 1];
      if k > 0 {
        assert r[k] == s[k - 1];
      } else if l > 1 {
        assert conf[s[0]] >= conf[s[l - 1]];
      }
    }
  }

  lemma InsertBehind(i: nat, s: seq<nat>, conf: seq<real>)
    requires i < |conf| && forall k :: 0 <= k < |s| ==> s[k] < |conf|
    requires Distinct(s) && i !in s && Descending(s, conf)
    requires |s| > 0 && conf[s[0]] >= conf[i]
    requires Distinct(InsertByConf(i, s[1..], conf)) && Descending(InsertByConf(i, s[1..], conf), conf)
    ensures Distinct(InsertByConf(i, s, conf)) && Descending(InsertByConf(i, s, conf), conf)
  {
    var rest := InsertByConf(i, s[1..], conf);
    forall x | x in rest
      ensures x != s[0] && conf[s[0]] >= conf[x]
    {
      if x != i {
        var l :| 0 <= l < |s[1..]| && s[1..][l] == x;
        assert s[l + 1] == x;
      }
    }
    var r := [s[0]] + rest;
    assert r == InsertByConf(i, s, conf);
    forall k, l | 0 <= k < l < |r|
      ensures r[k] != r[l] && conf[r[k]] >= conf[r[l]]
    {
      assert r[l] == rest[l - 1] && r[l] in rest;
      if k > 0 {
        assert r[k] == rest[k - 1];
      }
    }
  }

  /** An insertion sort of the first n predictions by descending confidence. */
  function ArgSortDesc(conf: seq<real>, n: nat): (order: seq<nat>)
    requires n <= |conf|
    ensures |order| == n && forall k :: 0 <= k < n ==> order[k] < |conf|
    ensures forall x: nat :: x in order <==> x < n
  {
    if n == 0 then [] else InsertByConf(n - 1, ArgSortDesc(conf, n - 1), conf)
  }

  /** The insertion sort yields an order by descending confidence: such orders exist for every
      list of confidences. */
  lemma ArgSortSorts(conf: seq<real>)
    ensures SortsDescending(ArgSortDesc(conf, |conf|), conf)
  {
    ArgSortOrders(conf, |conf|);
  }

  lemma {:induction false} ArgSortOrders(conf: seq<real>, n: nat)
    requires n <= |conf|
    ensures Distinct(ArgSortDesc(conf, n)) && Descending(ArgSortDesc(conf, n), conf)
  {
    if n > 0 {
      ArgSortOrders(conf, n - 1);
      InsertKeepsOrder(n - 1, ArgSortDesc(conf, n - 1), conf);
    }
  }

  /** `i = pred_cls == c` on the sorted predictions: the predictions of class c in confidence
      order. */
  function Picked(order: seq<nat>, predCls: seq<int>, c: int): (sel: seq<nat>)
    requires forall k :: 0 <= k < |order| ==> order[k] < |predCls|
    ensures |sel| <= |order| && forall k :: 0 <= k < |sel| ==> sel[k] < |predCls|
    ensures forall x :: x in sel <==> x in order && predCls[x] == c
  {
    if |order| == 0 then []
    else (if predCls[order[0]] == c then [order[0]] else []) + Picked(order[1..], predCls, c)
  }

  /** The picked predictions keep the descending confidence order, so the `-conf` samples that
      np.interp reads stand in ascending order. */
  lemma {:induction false} PickedDescending(order: seq<nat>, predCls: seq<int>, conf: seq<real>, c: int)
    requires |predCls| == |conf| && forall k :: 0 <= k < |order| ==> order[k] < |conf|
    requires Descending(order, conf)
    ensures Descending(Picked(order, predCls, c), conf)
  {
    if |order| > 0 {
      var rest := Picked(order[1..], predCls, c);
      PickedDescending(order[1..], predCls, conf, c);
      if predCls[order[0]] == c {
        forall k | 0 <= k < |rest|
          ensures conf[order[0]] >= conf[rest[k]]
        {
          assert rest[k] in rest;
          HeadDominates(order, conf, rest[k]);
        }
        ConsDescending(order[0], rest, conf);
        assert Picked(order, predCls, c) == [order[0]] + rest;
      } else {
        assert Picked(order, predCls, c) == rest;
      }
    }
  }

  /** The head of a descending order dominates every later entry. */
  lemma HeadDominates(order: seq<nat>, conf: seq<real>, x: nat)
    requires forall k :: 0 <= k < |order| ==> order[k] < |conf|
    requires Descending(order, conf) && |order| > 0 && x in order[1..]
    ensures x < |conf| && conf[order[0]] >= conf[x]
  {
    var l :| 0 <= l < |order| - 1 && order[1..][l] == x;
    assert order[l + 1] == x;
  }

  /** An entry that dominates a descending order can go in front of it. */
  lemma ConsDescending(h: nat, rest: seq<nat>, conf: seq<real>)
    requires h < |conf| && forall k :: 0 <= k < |rest| ==> rest[k] < |conf|
    requires Descending(rest, conf) && forall k :: 0 <= k < |rest| ==> conf[h] >= conf[rest[k]]
    ensures Descending([h] + rest, conf)
  {
    var r := [h] + rest;
    forall k, l | 0 <= k < l < |r|
      ensures conf[r[k]] >= conf[r[l]]
    {
      assert r[l] == rest[l - 1];
      if k > 0 {
        assert r[k] == rest[k - 1];
      }
    }
  }

  /** `(target_cls == c).sum()`. */
  function CountEq(s: seq<int>, c: int): (n: nat)
    ensures n <= |s| && (n == 0 <==> c !in s)
  {
    if |s| == 0 then 0 else CountEq(s[..|s| - 1], c) + (if s[|s| - 1] == c then 1 else 0)
  }

  predicate Increasing(u: seq<int>)
  {
    forall k, l :: 0 <= k < l < |u| ==> u[k] < u[l]
  }

  function InsertSorted(x: int, u: seq<int>): (r: seq<int>)
    requires Increasing(u)
    ensures Increasing(r) && forall y :: y in r <==> y == x || y in u
  {
    if |u| == 0 then [x]
    else if x < u[0] then [x] + u
    else if x == u[0] then u
    else
      var rest := InsertSorted(x, u[1..]);
      forall y | y in rest
        ensures u[0] < y
      {
        if y != x {
          HeadBelow(u, y);
        }
      }
      ConsIncreasing(u[0], rest);
      [u[0]] + rest
  }

  /** The head of an increasing sequence is below every later entry. */
  lemma HeadBelow(u: seq<int>, y: int)
    requires Increasing(u) && |u| > 0 && y in u[1..]
    ensures u[0] < y
  {
    var l :| 0 <= l < |u| - 1 && u[1..][l] == y;
    assert u[l + 1] == y;
  }

  /** An entry below every entry of an increasing sequence can go in front of it. */
  lemma ConsIncreasing(h: int, rest: seq<int>)
    requires Increasing(rest) && forall y :: y in rest ==> h < y
    ensures Increasing([h] + rest)
  {
    var r := [h] + rest;
    forall k, l | 0 <= k < l < |r|
      ensures r[k] < r[l]
    {
      assert r[l] == rest[l - 1] && r[l] in rest;
      if k > 0 {
        assert r[k] == rest[k - 1];
      }
    }
  }

  function Unique(s: seq<int>): (u: seq<int>)
    ensures Increasing(u) && forall y :: y in u <==> y in s
  {
    if |s| == 0 then [] else InsertSorted(s[|s| - 1], Unique(s[..|s| - 1]))
  }

  /** One IoU-threshold column of the picked predictions' tp flags. */
  function Column(tp: seq<seq<bool>>, sel: seq<nat>, j: nat): (col: seq<bool>)
    requires forall k :: 0 <= k < |sel| ==> sel[k] < |tp| && j < |tp[sel[k]]|
    ensures |col| == |sel| && forall k :: 0 <= k < |sel| ==> col[k] == tp[sel[k]][j]
  {
    seq(|sel|, k requires 0 <= k < |sel| => tp[sel[k]][j])
  }

  /** `-conf[i]`, the sample points for reading P and R at pr_score. */
  function NegConf(conf: seq<real>, sel: seq<nat>): (x: seq<real>)
    requires forall k :: 0 <= k < |sel| ==> sel[k] < |conf|
    ensures |x| == |sel| && forall k :: 0 <= k < |sel| ==> x[k] == -conf[sel[k]]
  {
    seq(|sel|, k requires 0 <= k < |sel| => -conf[sel[k]])
  }

  /** What ap_per_class computes for one class: P and R at pr_score and the AP per column. */
  datatype ClassStats = ClassStats(p: real, r: real, ap: seq<real>)

  function Row(n: nat, v: real): (r: seq<real>)
    ensures |r| == n && forall k :: 0 <= k < n ==> r[k] == v
  {
    seq(n, _ => v)
  }

  /** One iteration of the class loop; a class with no predictions or no ground truth keeps its
      zero rows (`continue`). */
  function ClassResult(tp: seq<seq<bool>>, conf: seq<real>, predCls: seq<int>, targetCls: seq<int>,
                       order: seq<nat>, nt: nat, c: int): (s: ClassStats)
    requires Table(tp, conf, predCls, nt) && SortsDescending(order, conf) && nt > 0
    ensures |s.ap| == nt
  {
    var sel := Picked(order, predCls, c);
    var nGt := CountEq(targetCls, c);
    if |sel| == 0 || nGt == 0 then ClassStats(0.0, 0.0, Row(nt, 0.0))
    else
      var x := NegConf(conf, sel);
      var col0 := Column(tp, sel, 0);
      ClassStats(Interp(-PrScore, x, Precision(col0)), Interp(-PrScore, x, Recall(col0, nGt)),
                 seq(nt, j requires 0 <= j < nt =>
                   ComputeAp(Recall(Column(tp, sel, j), nGt), Precision(Column(tp, sel, j)))))
  }

  /** Every class result has P and AP in [0, 1] and a non-negative R, and is all zeros when the
      class has no predictions or no ground truth. */
  lemma ClassResultMeaning(tp: seq<seq<bool>>, conf: seq<real>, predCls: seq<int>, targetCls: seq<int>,
                           order: seq<nat>, nt: nat, c: int)
    requires Table(tp, conf, predCls, nt) && SortsDescending(order, conf) && nt > 0
    ensures var s := ClassResult(tp, conf, predCls, targetCls, order, nt, c);
      |s.ap| == nt && 0.0 <= s.p <= 1.0 && 0.0 <= s.r
      && (forall j :: 0 <= j < nt ==> 0.0 <= s.ap[j] <= 1.0)
      && ((c !in targetCls || forall k :: 0 <= k < |predCls| ==> predCls[k] != c) ==>
            s.p == 0.0 && s.r == 0.0 && s.ap == Row(nt, 0.0))
  {
    var sel := Picked(order, predCls, c);
    var nGt := CountEq(targetCls, c);
    assert |sel| == 0 || predCls[sel[0]] == c by {
      if |sel| > 0 {
        assert sel[0] in sel;
      }
    }
    if |sel| > 0 && nGt > 0 {
      PickedStats(tp, conf, sel, nGt, nt);
    }
  }

  /** The quantities ClassResult reads from the picked predictions lie in range. */
  lemma PickedStats(tp: seq<seq<bool>>, conf: seq<real>, sel: seq<nat>, nGt: nat, nt: nat)
    requires |sel| > 0 && nt > 0
    requires forall k :: 0 <= k < |sel| ==> sel[k] < |tp| && sel[k] < |conf| && |tp[sel[k]]| == nt
    ensures 0.0 <= Interp(-PrScore, NegConf(conf, sel), Precision(Column(tp, sel, 0))) <= 1.0
    ensures 0.0 <= Interp(-PrScore, NegConf(conf, sel), Recall(Column(tp, sel, 0), nGt))
    ensures forall j :: 0 <= j < nt ==>
      0.0 <= ComputeAp(Recall(Column(tp, sel, j), nGt), Precision(Column(tp, sel, j))) <= 1.0
  {
    var x := NegConf(conf, sel);
    var col0 := Column(tp, sel, 0);
    PrecisionMeaning(col0);
    RecallMeaning(col0, nGt);
    InterpBounds(-PrScore, x, Precision(col0), 0.0, 1.0);
    InterpAtLeast(-PrScore, x, Recall(col0, nGt));
    forall j | 0 <= j < nt
      ensures 0.0 <= ComputeAp(Recall(Column(tp, sel, j), nGt), Precision(Column(tp, sel, j))) <= 1.0
    {
      ColumnApBounds(Column(tp, sel, j), nGt);
    }
  }

  lemma ColumnApBounds(col: seq<bool>, nGt: nat)
    requires |col| > 0
    ensures 0.0 <= ComputeAp(Recall(col, nGt), Precision(col)) <= 1.0
  {
    PrecisionMeaning(col);
    ComputeApBounds(Recall(col, nGt), Precision(col));
  }

  lemma InterpAtLeast(x: real, xp: seq<real>, fp: seq<real>)
    requires |xp| == |fp| > 0 && forall k :: 0 <= k < |fp| ==> 0.0 <= fp[k]
    ensures 0.0 <= Interp(x, xp, fp)
  {
    var hi := MaxFrom(fp, 0);
    forall k | 0 <= k < |fp|
      ensures 0.0 <= fp[k] <= hi
    {
      MaxFromAtLeast(fp, 0, k);
    }
    InterpBounds(x, xp, fp, 0.0, hi);
  }

  /** A class all of whose predictions at an IoU threshold are true positives, as many as its
      ground-truth objects, scores AP 0.995 there under the 101-point rule. */
  lemma PerfectClass(tp: seq<seq<bool>>, conf: seq<real>, predCls: seq<int>, targetCls: seq<int>,
                     order: seq<nat>, nt: nat, c: int, j: nat)
    requires Table(tp, conf, predCls, nt) && SortsDescending(order, conf) && j < nt
    requires |Picked(order, predCls, c)| == CountEq(targetCls, c) > 0
    requires forall k :: 0 <= k < |tp| && predCls[k] == c ==> tp[k][j]
    ensures ClassResult(tp, conf, predCls, targetCls, order, nt, c).ap[j] == 0.995
  {
    var sel := Picked(order, predCls, c);
    var nGt := CountEq(targetCls, c);
    var col := Column(tp, sel, j);
    forall k | 0 <= k < |col|
      ensures col[k]
    {
      assert sel[k] in sel;
    }
    PerfectColumn(col, nGt);
  }

  /** A ranking that is all true positives, one per ground-truth object, has 101-point AP 0.995. */
  lemma PerfectColumn(col: seq<bool>, nGt: nat)
    requires |col| == nGt > 0 && forall k :: 0 <= k < |col| ==> col[k]
    ensures ComputeAp(Recall(col, nGt), Precision(col)) == 0.995
  {
    PerfectRecall(col, nGt);
    PerfectPrecision(col);
    PerfectDetectorAp(Recall(col, nGt), Precision(col));
  }

  /** With every prediction true and as many predictions as ground-truth objects, recall rises
      to just below 1. */
  lemma PerfectRecall(col: seq<bool>, nGt: nat)
    requires |col| == nGt > 0 && forall k :: 0 <= k < |col| ==> col[k]
    ensures NonDecreasing(Recall(col, nGt)) && 0.0 <= Recall(col, nGt)[0]
    ensures 0.99 <= Recall(col, nGt)[|col| - 1] <= 1.0
  {
    CumTrueShape(col);
    RecallMeaning(col, nGt);
    var t := CumTrue(col);
    assert t[|col| - 1] == nGt;
    FullRecall(nGt, Recall(col, nGt)[|col| - 1]);
  }

  /** With every prediction true, precision is 1 throughout. */
  lemma PerfectPrecision(col: seq<bool>)
    requires forall k :: 0 <= k < |col| ==> col[k]
    ensures forall k :: 0 <= k < |col| ==> Precision(col)[k] == 1.0
  {
    CumTrueShape(col);
    PrecisionMeaning(col);
    forall k | 0 <= k < |col|
      ensures Precision(col)[k] == 1.0
    {
      SelfQuotient(k + 1);
    }
  }

  lemma SelfQuotient(n: nat)
    requires n > 0
    ensures n as real / n as real == 1.0
  {
  }

  lemma FullRecall(n: nat, r: real)
    requires n > 0 && r == n as real / (n as real + Eps)
    ensures 0.99 <= r <= 1.0
  {
    QuotientOrder(n as real, n as real + Eps, n as real + Eps);
    assert (n as real + Eps) / (n as real + Eps) == 1.0;
    assert 0.99 * (n as real + Eps) <= n as real;
    QuotientOrder(0.99 * (n as real + Eps), n as real, n as real + Eps);
    assert 0.99 * (n as real + Eps) / (n as real + Eps) == 0.99;
  }

  /** `2 * p * r / (p + r + 1e-16)`. */
  function F1(p: real, r: real): real
    requires p + r + Eps != 0.0
  {
    2.0 * p * r / (p + r + Eps)
  }

  /** With P and R in [0, 1] the F1 score lies in [0, 1] and is 0 exactly when P or R is. */
  lemma F1Meaning(p: real, r: real)
    requires 0.0 <= p <= 1.0 && 0.0 <= r <= 1.0
    ensures 0.0 <= F1(p, r) <= 1.0
    ensures F1(p, r) == 0.0 <==> p == 0.0 || r == 0.0
  {
    var d := p + r + Eps;
    var n := 2.0 * p * r;
    NumeratorBounds(p, r);
    QuotientOrder(n, d, d);
    assert d / d == 1.0;
    QuotientOrder(0.0, n, d);
    if p > 0.0 && r > 0.0 {
      MulPositive(p, r);
      PositiveQuotient(n, d);
    }
  }

  lemma NumeratorBounds(p: real, r: real)
    requires 0.0 <= p <= 1.0 && 0.0 <= r <= 1.0
    ensures 0.0 <= 2.0 * p * r <= p + r
  {
    ProductWithin(p, r);
    Twice(p, r, p * r, 2.0 * p * r);
    TwiceBelowSum(p * r, p, r, 2.0 * p * r);
  }

  lemma ProductWithin(p: real, r: real)
    requires 0.0 <= p <= 1.0 && 0.0 <= r <= 1.0
    ensures 0.0 <= p * r <= p && p * r <= r
  {
    MulMonoLeq(p, 1.0, r);
    MulMonoLeq(r, 1.0, p);
    MulNonNegative(p, r);
  }

  lemma Twice(p: real, r: real, q: real, n: real)
    requires q == p * r && n == 2.0 * p * r
    ensures n == q + q
  {
  }

  lemma TwiceBelowSum(q: real, p: real, r: real, n: real)
    requires 0.0 <= q <= p && q <= r && n == q + q
    ensures 0.0 <= n <= p + r
  {
  }

  /** ap_per_class(tp, conf, pred_cls, target_cls) with `order` the result of
      `np.argsort(-conf)`: the rows of P, R, AP and F1 for each distinct target class. */
  method ApPerClass(tp: seq<seq<bool>>, conf: seq<real>, predCls: seq<int>, targetCls: seq<int>,
                    order: seq<nat>, nt: nat)
    returns (p: seq<seq<real>>, r: seq<seq<real>>, ap: seq<seq<real>>, f1: seq<seq<real>>, classes: seq<int>)
    requires Table(tp, conf, predCls, nt) && SortsDescending(order, conf) && nt > 0
    ensures classes == Unique(targetCls)
    ensures |p| == |r| == |ap| == |f1| == |classes|
    ensures forall ci :: 0 <= ci < |classes| ==> |p[ci]| == |r[ci]| == |ap[ci]| == |f1[ci]| == nt
    ensures forall ci :: 0 <= ci < |classes| ==>
      p[ci] == Row(nt, ClassResult(tp, conf, predCls, targetCls, order, nt, classes[ci]).p) &&
      r[ci] == Row(nt, ClassResult(tp, conf, predCls, targetCls, order, nt, classes[ci]).r) &&
      ap[ci] == ClassResult(tp, conf, predCls, targetCls, order, nt, classes[ci]).ap
    ensures forall ci, j :: 0 <= ci < |classes| && 0 <= j < nt ==>
      0.0 <= p[ci][j] <= 1.0 && 0.0 <= r[ci][j] && 0.0 <= ap[ci][j] <= 1.0
    ensures forall ci, j :: 0 <= ci < |classes| && 0 <= j < nt ==>
      f1[ci][j] == F1(p[ci][j], r[ci][j])
  {
    classes := Unique(targetCls);
    p := Row2(|classes|, nt);
    r := Row2(|classes|, nt);
    ap := Row2(|classes|, nt);
    var ci := 0;
    while ci < |classes|
      invariant 0 <= ci <= |classes| && |p| == |r| == |ap| == |classes|
      invariant forall i :: 0 <= i < ci ==>
        p[i] == Row(nt, ClassResult(tp, conf, predCls, targetCls, order, nt, classes[i]).p) &&
        r[i] == Row(nt, ClassResult(tp, conf, predCls, targetCls, order, nt, classes[i]).r) &&
        ap[i] == ClassResult(tp, conf, predCls, targetCls, order, nt, classes[i]).ap
      invariant forall i :: ci <= i < |classes| ==> p[i] == r[i] == ap[i] == Row(nt, 0.0)
    {
      var c := classes[ci];
      var sel := Picked(order, predCls, c);
      var nGt := CountEq(targetCls, c);
      if |sel| == 0 || nGt == 0 {
        assert ClassResult(tp, conf, predCls, targetCls, order, nt, c) == ClassStats(0.0, 0.0, Row(nt, 0.0));
        ci := ci + 1;
        continue;
      }
      var s := ClassResult(tp, conf, predCls, targetCls, order, nt, c);
      r := r[ci := Row(nt, s.r)];
      p := p[ci := Row(nt, s.p)];
      ap := ap[ci := s.ap];
      ci := ci + 1;
    }
    RowsBounded(tp, conf, predCls, targetCls, order, nt, classes, p, r, ap);
    f1 := seq(|classes|, i requires 0 <= i < |classes| =>
      seq(nt, j requires 0 <= j < nt => F1(p[i][j], r[i][j])));
  }

  /** Rows filled from the class results keep P and AP in [0, 1] and R non-negative. */
  lemma RowsBounded(tp: seq<seq<bool>>, conf: seq<real>, predCls: seq<int>, targetCls: seq<int>,
                    order: seq<nat>, nt: nat, classes: seq<int>,
                    p: seq<seq<real>>, r: seq<seq<real>>, ap: seq<seq<real>>)
    requires Table(tp, conf, predCls, nt) && SortsDescending(order, conf) && nt > 0
    requires |p| == |r| == |ap| == |classes|
    requires forall ci :: 0 <= ci < |classes| ==> |p[ci]| == |r[ci]| == |ap[ci]| == nt
    requires forall ci :: 0 <= ci < |classes| ==>
      p[ci] == Row(nt, ClassResult(tp, conf, predCls, targetCls, order, nt, classes[ci]).p) &&
      r[ci] == Row(nt, ClassResult(tp, conf, predCls, targetCls, order, nt, classes[ci]).r) &&
      ap[ci] == ClassResult(tp, conf, predCls, targetCls, order, nt, classes[ci]).ap
    ensures forall ci, j :: 0 <= ci < |classes| && 0 <= j < nt ==>
      0.0 <= p[ci][j] <= 1.0 && 0.0 <= r[ci][j] && 0.0 <= ap[ci][j] <= 1.0
  {
    forall ci, j | 0 <= ci < |classes| && 0 <= j < nt
      ensures 0.0 <= p[ci][j] <= 1.0 && 0.0 <= r[ci][j] && 0.0 <= ap[ci][j] <= 1.0
    {
      ClassResultMeaning(tp, conf, predCls, targetCls, order, nt, classes[ci]);
    }
  }

  /** `np.zeros(s)` for s = [number of classes, number of IoU thresholds]. */
  function Row2(n: nat, nt: nat): (z: seq<seq<real>>)
    ensures |z| == n && forall i :: 0 <= i < n ==> z[i] == Row(nt, 0.0)
  {
    seq(n, _ => Row(nt, 0.0))
  }
}
