/** The anchor bookkeeping of the Detect layer: check_anchor_order, which puts the anchor levels
    in the order of the strides, and the replacement branch of check_anchors, which installs
    k-means anchors when they cover more label shapes than the current ones. */
module Anchors {
  import opened RealMath
  import opened Boxes
  import opened Wrappers
  import opened ShapeMatch

  /** One list of anchor shapes per detection level. */
  type Levels = seq<seq<WH>>

  /** The BPR below which check_anchors looks for better anchors. */
  const RecomputeBelow: real := 0.98

  /** At least one level, and na >= 1 anchors on every level. */
  predicate Uniform(g: Levels, na: nat)
  {
    |g| >= 1 && na >= 1 && forall i :: 0 <= i < |g| ==> |g[i]| == na
  }

  predicate PositiveLevels(g: Levels)
  {
    forall i, j :: 0 <= i < |g| && 0 <= j < |g[i]| ==> g[i][j].w > 0.0 && g[i][j].h > 0.0
  }

  predicate PositiveStrides(s: seq<real>)
  {
    forall i :: 0 <= i < |s| ==> s[i] > 0.0
  }

  /** `.prod(-1)` of one anchor. */
  function AnchorArea(a: WH): real
  {
    a.w * a.h
  }

  /** `view(-1)` of the levels: level after level. */
  function Flatten(g: Levels): (f: seq<WH>)
  {
    if |g| == 0 then [] else g[0] + Flatten(g[1..])
  }

  /** `view_as` of a flat list of anchors: consecutive groups of na. */
  function Split(k: seq<WH>, nl: nat, na: nat): (g: Levels)
    requires |k| == nl * na
    ensures |g| == nl && forall i :: 0 <= i < nl ==> |g[i]| == na
  {
    if nl == 0 then [] else
      SplitStep(nl, na);
      [k[..na]] + Split(k[na..], nl - 1, na)
  }

  lemma SplitStep(nl: nat, na: nat)
    requires nl >= 1
    ensures nl * na >= na && nl * na - na == (nl - 1) * na
  {
  }

  /** `flip(0)`: the levels in reverse order; each level's anchors keep their order. */
  function Reverse<T>(s: seq<T>): (r: seq<T>)
    ensures |r| == |s| && forall i :: 0 <= i < |s| ==> r[i] == s[|s| - 1 - i]
  {
    seq(|s|, i requires 0 <= i < |s| => s[|s| - 1 - i])
  }

  /** The first and the last anchor exist, and so does a stride. */
  predicate HasEnds(g: Levels, s: seq<real>)
  {
    |g| >= 1 && |g[0]| >= 1 && |g[|g| - 1]| >= 1 && |s| >= 1
  }

  /** check_anchor_order's test: the change in area from the first to the last anchor and the
      change in stride from the first to the last level differ in sign. */
  predicate NeedsFlip(g: Levels, s: seq<real>)
    requires HasEnds(g, s)
  {
    var a0, a1 := AnchorArea(g[0][0]), AnchorArea(g[|g| - 1][|g[|g| - 1]| - 1]);
    Sign(a1 - a0) != Sign(s[|s| - 1] - s[0])
  }

  /** x as check_anchor_order leaves it when its flip test looks at the grid g. */
  function OrderedBy(x: Levels, g: Levels, s: seq<real>): (r: Levels)
    requires HasEnds(g, s)
    ensures |r| == |x|
  {
    if NeedsFlip(g, s) then Reverse(x) else x
  }

  /** Anchors in units of their level's stride: `anchor_grid / stride.view(-1, 1, 1)`. */
  function PerStride(g: Levels, s: seq<real>): (r: Levels)
    requires |s| == |g| && PositiveStrides(s)
    ensures |r| == |g| && forall i :: 0 <= i < |g| ==> |r[i]| == |g[i]|
  {
    seq(|g|, i requires 0 <= i < |g| =>
      seq(|g[i]|, j requires 0 <= j < |g[i]| => WH(g[i][j].w / s[i], g[i][j].h / s[i])))
  }

  /** The invariant the Detect layer relies on: each level's anchors, scaled by that level's
      stride, are the pixel anchors of the same level. */
  predicate Consistent(anchors: Levels, grid: Levels, s: seq<real>)
  {
    |anchors| == |grid| == |s|
    && (forall i :: 0 <= i < |grid| ==> |anchors[i]| == |grid[i]|)
    && forall i, j :: 0 <= i < |grid| && 0 <= j < |grid[i]| ==>
         anchors[i][j].w * s[i] == grid[i][j].w && anchors[i][j].h * s[i] == grid[i][j].h
  }

  // ----- the shapes of the levels -----

  lemma {:induction false} FlattenSplit(k: seq<WH>, nl: nat, na: nat)
    requires |k| == nl * na
    ensures Flatten(Split(k, nl, na)) == k
  {
    if nl > 0 {
      SplitStep(nl, na);
      var g: seq<seq<WH>> := Split(k, nl, na);
      assert g[1..] == Split(k[na..], nl - 1, na);
      FlattenSplit(k[na..], nl - 1, na);
      assert k[..na] + k[na..] == k;
    }
  }

  /** Entry j of level i of the split list is entry i * na + j of the flat one. */
  lemma {:induction false} SplitIndex(k: seq<WH>, nl: nat, na: nat, i: nat, j: nat)
    requires |k| == nl * na && i < nl && j < na
    ensures i * na + j < |k| && Split(k, nl, na)[i][j] == k[i * na + j]
  {
    SplitStep(nl, na);
    if i > 0 {
      SplitIndex(k[na..], nl - 1, na, i - 1, j);
      assert Split(k, nl, na)[i] == Split(k[na..], nl - 1, na)[i - 1];
      SplitOffset(i, j, na);
    }
  }

  lemma SplitOffset(i: nat, j: nat, na: nat)
    requires i >= 1
    ensures (i - 1) * na + j + na == i * na + j
  {
  }

  lemma {:induction false} FlattenMembers(g: Levels, x: WH)
    ensures x in Flatten(g) <==> exists i :: 0 <= i < |g| && x in g[i]
    decreases |g|
  {
    if |g| > 0 {
      FlattenMembers(g[1..], x);
      if x in Flatten(g[1..]) {
        var i :| 0 <= i < |g[1..]| && x in g[1..][i];
        assert x in g[i + 1];
      }
      if exists i :: 0 <= i < |g| && x in g[i] {
        var i :| 0 <= i < |g| && x in g[i];
        if i > 0 {
          assert x in g[1..][i - 1];
        }
      }
    }
  }

  /** Reversing the levels keeps the same anchors, only in another order. */
  lemma ReverseKeepsAnchors(g: Levels)
    ensures forall x :: x in Flatten(Reverse(g)) <==> x in Flatten(g)
  {
    forall x
      ensures x in Flatten(Reverse(g)) <==> x in Flatten(g)
    {
      FlattenMembers(g, x);
      FlattenMembers(Reverse(g), x);
      if exists i :: 0 <= i < |g| && x in g[i] {
        var i :| 0 <= i < |g| && x in g[i];
        assert x in Reverse(g)[|g| - 1 - i];
      }
      if exists i :: 0 <= i < |g| && x in Reverse(g)[i] {
        var i :| 0 <= i < |g| && x in Reverse(g)[i];
        assert x in g[|g| - 1 - i];
      }
    }
  }

  lemma FlattenPositive(g: Levels)
    requires PositiveLevels(g)
    ensures PositiveShapes(Flatten(g))
  {
    var f := Flatten(g);
    forall m | 0 <= m < |f|
      ensures f[m].w > 0.0 && f[m].h > 0.0
    {
      FlattenMembers(g, f[m]);
      var i :| 0 <= i < |g| && f[m] in g[i];
      var j :| 0 <= j < |g[i]| && g[i][j] == f[m];
    }
  }

  lemma SplitPositive(k: seq<WH>, nl: nat, na: nat)
    requires |k| == nl * na && PositiveShapes(k)
    ensures PositiveLevels(Split(k, nl, na))
  {
    var g: seq<seq<WH>> := Split(k, nl, na);
    forall i: int, j: int | 0 <= i < |g| && 0 <= j < |g[i]|
      ensures g[i][j].w > 0.0 && g[i][j].h > 0.0
    {
      SplitIndex(k, nl, na, i, j);
    }
  }

  // ----- check_anchor_order -----

  /** Dividing by the strides gives anchors consistent with the pixel anchors. */
  lemma PerStrideConsistent(g: Levels, s: seq<real>)
    requires |s| == |g| && PositiveStrides(s)
    ensures Consistent(PerStride(g, s), g, s)
  {
    var a: seq<seq<WH>> := PerStride(g, s);
    forall i: int, j: int | 0 <= i < |g| && 0 <= j < |g[i]|
      ensures a[i][j].w * s[i] == g[i][j].w && a[i][j].h * s[i] == g[i][j].h
    {
      QuotientTimes(g[i][j].w, s[i]);
      QuotientTimes(g[i][j].h, s[i]);
    }
  }

  lemma QuotientTimes(x: real, t: real)
    requires t > 0.0
    ensures x / t * t == x
  {
  }

  /** Anchors that k-means sorted by area from small to large, `view_as` the levels, are in
      stride order once check_anchor_order has run: a second call would change nothing. */
  lemma SortedSettles(k: seq<WH>, na: nat, s: seq<real>)
    requires na >= 1 && |s| >= 2 && |k| == |s| * na && s[0] != s[|s| - 1]
    requires forall m, l :: 0 <= m < l < |k| ==> AnchorArea(k[m]) < AnchorArea(k[l])
    ensures HasEnds(Split(k, |s|, na), s) && HasEnds(OrderedBy(Split(k, |s|, na), Split(k, |s|, na), s), s)
    ensures !NeedsFlip(OrderedBy(Split(k, |s|, na), Split(k, |s|, na), s), s)
  {
    var nl := |s|;
    SplitIndex(k, nl, na, 0, 0);
    SplitIndex(k, nl, na, 0, na - 1);
    SplitIndex(k, nl, na, nl - 1, 0);
    SplitIndex(k, nl, na, nl - 1, na - 1);
    LevelsApart(nl, na);
  }

  lemma LevelsApart(nl: nat, na: nat)
    requires nl >= 2 && na >= 1
    ensures 0 < na - 1 + 1 <= (nl - 1) * na + 0 && (nl - 1) * na < (nl - 1) * na + na - 1 + 1
  {
  }

  // ----- check_anchors: replacing the anchors -----

  /** The pixel anchors after the replacement, as written and as corrected alike. */
  function ReplacedGrid(k: seq<WH>, na: nat, s: seq<real>): (g: Levels)
    requires na >= 1 && |s| >= 1 && |k| == |s| * na
  {
    OrderedBy(Split(k, |s|, na), Split(k, |s|, na), s)
  }

  /** The stride-unit anchors as the source leaves them: divided by the strides before
      check_anchor_order runs, then flipped together with the grid. */
  function ReplacedAnchorsAsWritten(k: seq<WH>, na: nat, s: seq<real>): (a: Levels)
    requires na >= 1 && |s| >= 1 && |k| == |s| * na && PositiveStrides(s)
  {
    OrderedBy(PerStride(Split(k, |s|, na), s), Split(k, |s|, na), s)
  }

  /** The stride-unit anchors recomputed from the reordered grid. */
  function ReplacedAnchors(k: seq<WH>, na: nat, s: seq<real>): (a: Levels)
    requires na >= 1 && |s| >= 1 && |k| == |s| * na && PositiveStrides(s)
  {
    PerStride(ReplacedGrid(k, na, s), s)
  }

  /** As written, a flip pairs each level's stride-unit anchors with another level's stride:
      with strides 16 then 8 and the sorted anchors 10 x 10 and 100 x 100, the first level
      ends with anchor 12.5 x 12.5 at stride 16, which is 200 pixels, not its 100. */
  lemma AsWrittenBreaksConsistency()
    ensures var k, s := [WH(10.0, 10.0), WH(100.0, 100.0)], [16.0, 8.0];
      !Consistent(ReplacedAnchorsAsWritten(k, 1, s), ReplacedGrid(k, 1, s), s)
  {
    var k, s := [WH(10.0, 10.0), WH(100.0, 100.0)], [16.0, 8.0];
    var g := Split(k, 2, 1);
    SplitIndex(k, 2, 1, 0, 0);
    SplitIndex(k, 2, 1, 1, 0);
    assert NeedsFlip(g, s);
    var a := ReplacedAnchorsAsWritten(k, 1, s);
    assert a[0][0] == WH(100.0 / 8.0, 100.0 / 8.0);
    assert ReplacedGrid(k, 1, s)[0][0] == WH(100.0, 100.0);
  }

  /** Without a flip the source's anchors are the corrected ones. */
  lemma AsWrittenAgreesWithoutFlip(k: seq<WH>, na: nat, s: seq<real>)
    requires na >= 1 && |s| >= 1 && |k| == |s| * na && PositiveStrides(s)
    requires !NeedsFlip(Split(k, |s|, na), s)
    ensures ReplacedAnchorsAsWritten(k, na, s) == ReplacedAnchors(k, na, s)
  {
  }

  /** The corrected replacement keeps the invariant, and its grid holds the same anchors as k. */
  lemma ReplacedConsistent(k: seq<WH>, na: nat, s: seq<real>)
    requires na >= 1 && |s| >= 1 && |k| == |s| * na && PositiveStrides(s)
    ensures Consistent(ReplacedAnchors(k, na, s), ReplacedGrid(k, na, s), s)
    ensures forall x :: x in Flatten(ReplacedGrid(k, na, s)) <==> x in k
  {
    PerStrideConsistent(ReplacedGrid(k, na, s), s);
    FlattenSplit(k, |s|, na);
    ReverseKeepsAnchors(Split(k, |s|, na));
  }

  /** The BPR depends only on which anchors there are. */
  lemma {:induction false} CoveredSameAnchors(wh: seq<WH>, k1: seq<WH>, k2: seq<WH>, thr: real)
    requires forall x :: x in k1 <==> x in k2
    ensures CoveredCount(wh, k1, thr) == CoveredCount(wh, k2, thr)
    decreases |wh|
  {
    if |wh| > 0 {
      CoveredSameAnchors(wh[1..], k1, k2, thr);
      SomeFitsSameAnchors(wh[0], k1, k2, thr);
    }
  }

  lemma SomeFitsSameAnchors(gt: WH, k1: seq<WH>, k2: seq<WH>, thr: real)
    requires forall x :: x in k1 <==> x in k2
    ensures SomeAnchorFits(gt, k1, thr) <==> SomeAnchorFits(gt, k2, thr)
  {
    if SomeAnchorFits(gt, k1, thr) {
      var j :| 0 <= j < |k1| && Fits(gt, k1[j], thr);
      assert k1[j] in k2;
      var l :| 0 <= l < |k2| && k2[l] == k1[j];
    }
    if SomeAnchorFits(gt, k2, thr) {
      var j :| 0 <= j < |k2| && Fits(gt, k2[j], thr);
      assert k2[j] in k1;
      var l :| 0 <= l < |k1| && k1[l] == k2[j];
    }
  }

  /** check_anchors' decision: the current anchors' BPR is below 0.98 and the candidates' BPR
      beats it. With no label shapes both BPRs are nan and neither comparison holds. */
  predicate Improves(current: seq<WH>, k: seq<WH>, wh: seq<WH>, thr: real)
    requires |current| > 0 && PositiveShapes(current) && |k| > 0 && PositiveShapes(k)
    requires NonNegativeShapes(wh) && thr > 0.0
  {
    var old_, new_ := CheckAnchorsMetric(current, wh, thr), CheckAnchorsMetric(k, wh, thr);
    old_.Some? && new_.Some? && old_.value.bpr < RecomputeBelow && new_.value.bpr > old_.value.bpr
  }

  /** The candidates replace the anchors only when some label shape is covered that the current
      anchors miss, and the BPR of the installed anchors is then the candidates' BPR. */
  lemma ImprovesMeaning(current: seq<WH>, k: seq<WH>, na: nat, s: seq<real>, wh: seq<WH>, thr: real)
    requires |current| > 0 && PositiveShapes(current) && PositiveShapes(k)
    requires NonNegativeShapes(wh) && thr > 0.0
    requires na >= 1 && |s| >= 1 && |k| == |s| * na && PositiveStrides(s)
    requires Improves(current, k, wh, thr)
    ensures CoveredCount(wh, k, thr) > CoveredCount(wh, current, thr)
    ensures |Flatten(ReplacedGrid(k, na, s))| > 0 && PositiveShapes(Flatten(ReplacedGrid(k, na, s)))
    ensures CheckAnchorsMetric(Flatten(ReplacedGrid(k, na, s)), wh, thr).value.bpr
         == CheckAnchorsMetric(k, wh, thr).value.bpr
  {
    CheckAnchorsMetricCounts(current, wh, thr);
    CheckAnchorsMetricCounts(k, wh, thr);
    CountOrder(CoveredCount(wh, k, thr), CoveredCount(wh, current, thr), |wh|);
    var f := Flatten(ReplacedGrid(k, na, s));
    ReplacedConsistent(k, na, s);
    assert k[0] in f;
    FlattenPositive(ReplacedGrid(k, na, s)) by {
      SplitPositive(k, |s|, na);
      ReversePositive(Split(k, |s|, na));
    }
    CheckAnchorsMetricCounts(f, wh, thr);
    CoveredSameAnchors(wh, f, k, thr);
  }

  lemma CountOrder(a: nat, b: nat, n: nat)
    requires n > 0 && a as real / n as real > b as real / n as real
    ensures a > b
  {
    if a <= b {
      QuotientOrder(a as real, b as real, n as real);
    }
  }

  lemma ReversePositive(g: Levels)
    requires PositiveLevels(g)
    ensures PositiveLevels(Reverse(g))
  {
  }

  /** The RuntimeError of `view_as` when the candidates are not nl·na anchors. */
  datatype AnchorError = ShapeMismatch

  /** The Detect layer's anchor state. */
  class Detect {
    /** Anchors in units of each level's stride, as the loss reads them. */
    var anchors: Levels
    /** Anchors in pixels, as inference reads them. */
    var anchorGrid: Levels
    var stride: seq<real>
    /** Anchors per level. */
    const na: nat

    predicate Valid()
      reads this
    {
      Uniform(anchorGrid, na) && Uniform(anchors, na) && |anchors| == |anchorGrid| && |stride| == |anchorGrid|
      && PositiveStrides(stride) && PositiveLevels(anchorGrid)
    }

    /** The layer as the model builds it: the stride-unit anchors are the pixel anchors divided
        by the strides. */
    constructor (grid: Levels, s: seq<real>, n: nat)
      requires Uniform(grid, n) && |s| == |grid| && PositiveStrides(s) && PositiveLevels(grid)
      ensures Valid() && anchorGrid == grid && stride == s && na == n
      ensures anchors == PerStride(grid, s) && Consistent(anchors, anchorGrid, stride)
    {
      anchorGrid := grid;
      anchors := PerStride(grid, s);
      stride := s;
      na := n;
      PerStrideConsistent(grid, s);
    }

    /** check_anchor_order: when the first-to-last change in anchor area and in stride differ
        in sign, both anchor tensors are reversed level by level; the strides stay. */
    method CheckAnchorOrder()
      requires Valid()
      modifies this
      ensures Valid() && stride == old(stride)
      ensures anchorGrid == OrderedBy(old(anchorGrid), old(anchorGrid), old(stride))
      ensures anchors == OrderedBy(old(anchors), old(anchorGrid), old(stride))
    {
      var a0 := AnchorArea(anchorGrid[0][0]);
      var a1 := AnchorArea(anchorGrid[|anchorGrid| - 1][na - 1]);
      if Sign(a1 - a0) != Sign(stride[|stride| - 1] - stride[0]) {
        anchors := Reverse(anchors);
        anchorGrid := Reverse(anchorGrid);
      }
    }

    /** The replacement in check_anchors as written: the pixel anchors are set, the stride-unit
        anchors are divided by the strides, and only then check_anchor_order runs. */
    method ReplaceAnchorsAsWritten(k: seq<WH>)
      requires Valid() && |k| == |anchorGrid| * na && PositiveShapes(k)
      modifies this
      ensures Valid() && stride == old(stride)
      ensures anchorGrid == ReplacedGrid(k, na, stride)
      ensures anchors == ReplacedAnchorsAsWritten(k, na, stride)
    {
      SplitPositive(k, |stride|, na);
      anchorGrid := Split(k, |stride|, na);
      anchors := PerStride(anchorGrid, stride);
      CheckAnchorOrder();
    }

    /** The replacement with the stride-unit anchors recomputed after the reordering, which
        keeps them consistent with the pixel anchors. */
    method ReplaceAnchors(k: seq<WH>)
      requires Valid() && |k| == |anchorGrid| * na && PositiveShapes(k)
      modifies this
      ensures Valid() && stride == old(stride)
      ensures anchorGrid == ReplacedGrid(k, na, stride)
      ensures anchors == ReplacedAnchors(k, na, stride)
      ensures Consistent(anchors, anchorGrid, stride)
    {
      ReplaceAnchorsAsWritten(k);
      anchors := PerStride(anchorGrid, stride);
      PerStrideConsistent(anchorGrid, stride);
    }

    /** The decision of check_anchors, given the label shapes and the k-means candidates: the
        BPR of the current anchors is below 0.98 and the candidates' BPR is higher. The
        candidates are read as a flat list (`reshape(-1, 2)`), whatever their number. */
    method ShouldReplace(wh: seq<WH>, thr: real, k: seq<WH>) returns (replace: bool)
      requires Valid() && |k| > 0 && PositiveShapes(k)
      requires NonNegativeShapes(wh) && thr > 0.0
      ensures |Flatten(anchorGrid)| > 0 && PositiveShapes(Flatten(anchorGrid))
      ensures replace == Improves(Flatten(anchorGrid), k, wh, thr)
    {
      var current := Flatten(anchorGrid);
      FlattenPositive(anchorGrid);
      FlattenMembers(anchorGrid, anchorGrid[0][0]);
      SplitStep(|anchorGrid|, na);
      replace := false;
      var bpr := CheckAnchorsMetric(current, wh, thr);
      if bpr.Some? && bpr.value.bpr < RecomputeBelow {
        var newBpr := CheckAnchorsMetric(k, wh, thr);
        replace := newBpr.value.bpr > bpr.value.bpr;
      }
    }

    /** check_anchors as written (lines 94-109): the candidates are installed, by the
        replacement of lines 105-106, exactly when they improve the BPR. When they improve it
        but are not nl·na anchors, `view_as` (line 104) raises before anything is written. */
    method CheckAnchorsAsWritten(wh: seq<WH>, thr: real, k: seq<WH>) returns (r: Result<bool, AnchorError>)
      requires Valid() && |k| > 0 && PositiveShapes(k)
      requires NonNegativeShapes(wh) && thr > 0.0
      modifies this
      ensures Valid() && stride == old(stride)
      ensures |Flatten(old(anchorGrid))| > 0 && PositiveShapes(Flatten(old(anchorGrid)))
      ensures r.Err? <==> Improves(Flatten(old(anchorGrid)), k, wh, thr) && |k| != |old(anchorGrid)| * na
      ensures r.Ok? ==> r.value == Improves(Flatten(old(anchorGrid)), k, wh, thr)
      ensures r == Ok(true) ==> anchorGrid == ReplacedGrid(k, na, stride) && anchors == ReplacedAnchorsAsWritten(k, na, stride)
      ensures r != Ok(true) ==> anchorGrid == old(anchorGrid) && anchors == old(anchors)
    {
      var replace := ShouldReplace(wh, thr, k);
      if !replace {
        r := Ok(false);
      } else if |k| != |anchorGrid| * na {
        r := Err(ShapeMismatch);
      } else {
        ReplaceAnchorsAsWritten(k);
        r := Ok(true);
      }
    }

    /** check_anchors with the corrected replacement, which keeps `anchors · stride ==
        anchor_grid`: the candidates are installed exactly when they improve the BPR, and a
        candidate list of the wrong length raises as in the source. */
    method CheckAnchors(wh: seq<WH>, thr: real, k: seq<WH>) returns (r: Result<bool, AnchorError>)
      requires Valid() && |k| > 0 && PositiveShapes(k)
      requires NonNegativeShapes(wh) && thr > 0.0
      modifies this
      ensures Valid() && stride == old(stride)
      ensures |Flatten(old(anchorGrid))| > 0 && PositiveShapes(Flatten(old(anchorGrid)))
      ensures r.Err? <==> Improves(Flatten(old(anchorGrid)), k, wh, thr) && |k| != |old(anchorGrid)| * na
      ensures r.Ok? ==> r.value == Improves(Flatten(old(anchorGrid)), k, wh, thr)
      ensures r == Ok(true) ==> anchorGrid == ReplacedGrid(k, na, stride) && anchors == ReplacedAnchors(k, na, stride)
      ensures r == Ok(true) ==> Consistent(anchors, anchorGrid, stride)
      ensures r != Ok(true) ==> anchorGrid == old(anchorGrid) && anchors == old(anchors)
    {
      var replace := ShouldReplace(wh, thr, k);
      if !replace {
        r := Ok(false);
      } else if |k| != |anchorGrid| * na {
        r := Err(ShapeMismatch);
      } else {
        ReplaceAnchors(k);
        r := Ok(true);
      }
    }
  }
}
