/** Overlap measures of utils/general.py: bbox_iou (IoU, GIoU, DIoU), box_iou and wh_iou. */
module Iou {
  import opened RealMath
  import opened Boxes

  /** The 1e-16 the source adds to denominators. */
  const Eps: real := 0.0000000000000001

  /** Which adjustment bbox_iou applies; the CIoU variant is not part of this model. */
  datatype IouKind = Plain | Generalized | Distance

  function Area(b: XYXY): real
  {
    (b.x2 - b.x1) * (b.y2 - b.y1)
  }

  /** Unclamped overlap extents: min of the far edges minus max of the near edges. */
  function RawOverlapW(b1: XYXY, b2: XYXY): real { Min(b1.x2, b2.x2) - Max(b1.x1, b2.x1) }
  function RawOverlapH(b1: XYXY, b2: XYXY): real { Min(b1.y2, b2.y2) - Max(b1.y1, b2.y1) }

  /** Intersection area, each extent clamped at 0 (`.clamp(0)`). */
  function Inter(b1: XYXY, b2: XYXY): real
  {
    Max(RawOverlapW(b1, b2), 0.0) * Max(RawOverlapH(b1, b2), 0.0)
  }

  /** bbox_iou's union, `(w1 * h1 + 1e-16) + w2 * h2 - inter`. */
  function UnionEps(b1: XYXY, b2: XYXY): real
  {
    (Area(b1) + Eps) + Area(b2) - Inter(b1, b2)
  }

  /** Width and height of the smallest enclosing box. */
  function HullW(b1: XYXY, b2: XYXY): real { Max(b1.x2, b2.x2) - Min(b1.x1, b2.x1) }
  function HullH(b1: XYXY, b2: XYXY): real { Max(b1.y2, b2.y2) - Min(b1.y1, b2.y1) }

  function HullArea(b1: XYXY, b2: XYXY): real
  {
    HullW(b1, b2) * HullH(b1, b2) + Eps
  }

  /** Squared diagonal of the enclosing box plus epsilon (always positive). */
  function HullDiag2(b1: XYXY, b2: XYXY): (c2: real)
    ensures c2 > 0.0
  {
    var cw, ch := HullW(b1, b2), HullH(b1, b2);
    SquareNonNegative(cw);
    SquareNonNegative(ch);
    cw * cw + ch * ch + Eps
  }

  /** Squared distance between the two centres. */
  function CenterDist2(b1: XYXY, b2: XYXY): real
  {
    var dx, dy := (b2.x1 + b2.x2) - (b1.x1 + b1.x2), (b2.y1 + b2.y2) - (b1.y1 + b1.y2);
    dx * dx / 4.0 + dy * dy / 4.0
  }

  /** The denominators bbox_iou divides by are non-zero (otherwise torch yields inf or nan). */
  predicate IouDefined(b1: XYXY, b2: XYXY, kind: IouKind)
  {
    UnionEps(b1, b2) != 0.0 && (kind == Generalized ==> HullArea(b1, b2) != 0.0)
  }

  /** bbox_iou(box1, box2) on corner boxes, for one pair of boxes. */
  function BBoxIou(b1: XYXY, b2: XYXY, kind: IouKind): real
    requires IouDefined(b1, b2, kind)
  {
    var iou := Inter(b1, b2) / UnionEps(b1, b2);
    match kind
    case Plain => iou
    case Generalized => iou - (HullArea(b1, b2) - UnionEps(b1, b2)) / HullArea(b1, b2)
    case Distance => iou - CenterDist2(b1, b2) / HullDiag2(b1, b2)
  }

  /** bbox_iou(box1, box2, x1y1x2y2=False): centre-format boxes, converted to corners first. */
  function BBoxIouCenter(b1: XYWH, b2: XYWH, kind: IouKind): real
    requires IouDefined(ToCorners(b1), ToCorners(b2), kind)
  {
    BBoxIou(ToCorners(b1), ToCorners(b2), kind)
  }

  /** The raw overlap and hull extents of two boxes in terms of their own widths and heights. */
  lemma Extents(b1: XYXY, b2: XYXY)
    ensures RawOverlapW(b1, b2) <= b1.x2 - b1.x1 && RawOverlapW(b1, b2) <= b2.x2 - b2.x1
    ensures RawOverlapH(b1, b2) <= b1.y2 - b1.y1 && RawOverlapH(b1, b2) <= b2.y2 - b2.y1
    ensures HullW(b1, b2) == (b1.x2 - b1.x1) + (b2.x2 - b2.x1) - RawOverlapW(b1, b2)
    ensures HullH(b1, b2) == (b1.y2 - b1.y1) + (b2.y2 - b2.y1) - RawOverlapH(b1, b2)
  {
  }

  /** For well-formed boxes the overlap is bounded by either box. */
  lemma InterBounds(b1: XYXY, b2: XYXY)
    requires WellFormed(b1) && WellFormed(b2)
    ensures 0.0 <= Inter(b1, b2) <= Area(b1) && Inter(b1, b2) <= Area(b2)
    ensures Area(b1) >= 0.0 && Area(b2) >= 0.0
  {
    InterWithinFirst(b1, b2);
    InterWithinSecond(b1, b2);
  }

  lemma InterWithinFirst(b1: XYXY, b2: XYXY)
    requires WellFormed(b1) && WellFormed(b2)
    ensures 0.0 <= Inter(b1, b2) <= Area(b1)
  {
    OverlapWithin(b1, b2);
    ProductBelow(Max(RawOverlapW(b1, b2), 0.0), Max(RawOverlapH(b1, b2), 0.0),
      b1.x2 - b1.x1, b1.y2 - b1.y1, Inter(b1, b2), Area(b1));
  }

  lemma InterWithinSecond(b1: XYXY, b2: XYXY)
    requires WellFormed(b1) && WellFormed(b2)
    ensures 0.0 <= Inter(b1, b2) <= Area(b2)
  {
    OverlapWithin(b1, b2);
    ProductBelow(Max(RawOverlapW(b1, b2), 0.0), Max(RawOverlapH(b1, b2), 0.0),
      b2.x2 - b2.x1, b2.y2 - b2.y1, Inter(b1, b2), Area(b2));
  }

  /** The clamped overlap extents of well-formed boxes lie between 0 and either box's extent. */
  lemma OverlapWithin(b1: XYXY, b2: XYXY)
    requires WellFormed(b1) && WellFormed(b2)
    ensures 0.0 <= Max(RawOverlapW(b1, b2), 0.0) <= b1.x2 - b1.x1
    ensures Max(RawOverlapW(b1, b2), 0.0) <= b2.x2 - b2.x1
    ensures 0.0 <= Max(RawOverlapH(b1, b2), 0.0) <= b1.y2 - b1.y1
    ensures Max(RawOverlapH(b1, b2), 0.0) <= b2.y2 - b2.y1
  {
    Extents(b1, b2);
  }

  /** A rectangle inside another has a non-negative area no larger than the other's; the areas
      are passed in as `i` and `a` so that callers never multiply out box coordinates. */
  lemma ProductBelow(ow: real, oh: real, w: real, h: real, i: real, a: real)
    requires 0.0 <= ow <= w && 0.0 <= oh <= h && i == ow * oh && a == w * h
    ensures 0.0 <= i <= a
  {
    MulNonNegative(ow, oh);
    MulMono(ow, oh, w, h);
  }

  /** Well-formed boxes keep every bbox_iou denominator positive. */
  lemma WellFormedDefined(b1: XYXY, b2: XYXY)
    requires WellFormed(b1) && WellFormed(b2)
    ensures UnionEps(b1, b2) >= Eps && UnionEps(b1, b2) - Inter(b1, b2) >= Eps
    ensures HullArea(b1, b2) >= Eps
    ensures forall kind :: IouDefined(b1, b2, kind)
  {
    UnionAboveEps(b1, b2);
    HullAboveEps(b1, b2);
  }

  lemma UnionAboveEps(b1: XYXY, b2: XYXY)
    requires WellFormed(b1) && WellFormed(b2)
    ensures UnionEps(b1, b2) >= Eps && UnionEps(b1, b2) - Inter(b1, b2) >= Eps
  {
    InterBounds(b1, b2);
  }

  lemma HullAboveEps(b1: XYXY, b2: XYXY)
    requires WellFormed(b1) && WellFormed(b2)
    ensures HullArea(b1, b2) >= Eps
  {
    Extents(b1, b2);
    MulNonNegative(HullW(b1, b2), HullH(b1, b2));
  }

  lemma RatioBelowOne(i: real, u: real)
    requires 0.0 <= i && u - i > 0.0
    ensures 0.0 <= i / u < 1.0
  {
    assert i / u * u == i;
  }

  /** Plain IoU of well-formed boxes lies in [0, 1); the epsilon keeps it strictly below 1. */
  lemma PlainIouBounds(b1: XYXY, b2: XYXY)
    requires WellFormed(b1) && WellFormed(b2)
    ensures IouDefined(b1, b2, Plain)
    ensures 0.0 <= BBoxIou(b1, b2, Plain) < 1.0
  {
    WellFormedDefined(b1, b2);
    InterBounds(b1, b2);
    RatioBelowOne(Inter(b1, b2), UnionEps(b1, b2));
  }

  /** Boxes that do not overlap on some axis have IoU 0. */
  lemma DisjointIouZero(b1: XYXY, b2: XYXY)
    requires IouDefined(b1, b2, Plain)
    requires RawOverlapW(b1, b2) <= 0.0 || RawOverlapH(b1, b2) <= 0.0
    ensures BBoxIou(b1, b2, Plain) == 0.0
  {
    assert Inter(b1, b2) == 0.0;
  }

  /** Hull area against union area on the extents alone, when the boxes are apart along x:
      the hull is at least as wide as both boxes together and at least as tall as either. */
  lemma HullCoversApart(w1: real, h1: real, w2: real, h2: real, dx: real, hw: real, hh: real)
    requires w1 >= 0.0 && w2 >= 0.0 && h1 >= 0.0 && h2 >= 0.0 && dx < 0.0
    requires hw == w1 + w2 - dx && hh >= h1 && hh >= h2
    ensures hw * hh >= w1 * h1 + w2 * h2
  {
    MulMono(w1 + w2, hh, hw, hh);
    MulMono(w1, h1, w1, hh);
    MulMono(w2, h2, w2, hh);
    var p1, p2, q1, q2 := w1 * h1, w2 * h2, w1 * hh, w2 * hh;
    assert p1 <= q1 && p2 <= q2;
    assert (w1 + w2) * hh == q1 + q2;
  }

  /** The same when the boxes are apart along y. */
  lemma HullCoversApartH(w1: real, h1: real, w2: real, h2: real, dy: real, hw: real, hh: real)
    requires w1 >= 0.0 && w2 >= 0.0 && h1 >= 0.0 && h2 >= 0.0 && dy < 0.0
    requires hh == h1 + h2 - dy && hw >= w1 && hw >= w2
    ensures hw * hh >= w1 * h1 + w2 * h2
  {
    HullCoversApart(h1, w1, h2, w2, dy, hh, hw);
    assert hh * hw == hw * hh && h1 * w1 == w1 * h1 && h2 * w2 == w2 * h2;
  }

  /** Hull area against union area on the extents alone, when the boxes overlap on both axes. */
  lemma HullCoversOverlap(w1: real, h1: real, w2: real, h2: real, dx: real, dy: real)
    requires 0.0 <= dx <= w1 && dx <= w2 && 0.0 <= dy <= h1 && dy <= h2
    ensures (w1 + w2 - dx) * (h1 + h2 - dy) >= w1 * h1 + w2 * h2 - dx * dy
  {
    MulNonNegative(w1 - dx, h2 - dy);
    MulNonNegative(w2 - dx, h1 - dy);
    assert (w1 + w2 - dx) * (h1 + h2 - dy) - (w1 * h1 + w2 * h2 - dx * dy)
        == (w1 - dx) * (h2 - dy) + (w2 - dx) * (h1 - dy);
  }

  /** The enclosing box covers the union of two well-formed boxes. */
  lemma HullCoversUnion(b1: XYXY, b2: XYXY)
    requires WellFormed(b1) && WellFormed(b2)
    ensures HullW(b1, b2) * HullH(b1, b2) >= Area(b1) + Area(b2) - Inter(b1, b2)
  {
    if RawOverlapW(b1, b2) < 0.0 {
      HullCoversUnionApartW(b1, b2);
    } else if RawOverlapH(b1, b2) < 0.0 {
      HullCoversUnionApartH(b1, b2);
    } else {
      HullCoversUnionOverlapping(b1, b2);
    }
  }

  lemma HullCoversUnionApartW(b1: XYXY, b2: XYXY)
    requires WellFormed(b1) && WellFormed(b2) && RawOverlapW(b1, b2) < 0.0
    ensures HullW(b1, b2) * HullH(b1, b2) >= Area(b1) + Area(b2) - Inter(b1, b2)
  {
    Extents(b1, b2);
    assert Inter(b1, b2) == 0.0 * Max(RawOverlapH(b1, b2), 0.0) == 0.0;
    HullCoversApart(b1.x2 - b1.x1, b1.y2 - b1.y1, b2.x2 - b2.x1, b2.y2 - b2.y1,
      RawOverlapW(b1, b2), HullW(b1, b2), HullH(b1, b2));
  }

  lemma HullCoversUnionApartH(b1: XYXY, b2: XYXY)
    requires WellFormed(b1) && WellFormed(b2) && RawOverlapH(b1, b2) < 0.0
    ensures HullW(b1, b2) * HullH(b1, b2) >= Area(b1) + Area(b2) - Inter(b1, b2)
  {
    Extents(b1, b2);
    assert Inter(b1, b2) == Max(RawOverlapW(b1, b2), 0.0) * 0.0 == 0.0;
    HullCoversApartH(b1.x2 - b1.x1, b1.y2 - b1.y1, b2.x2 - b2.x1, b2.y2 - b2.y1,
      RawOverlapH(b1, b2), HullW(b1, b2), HullH(b1, b2));
  }

  lemma HullCoversUnionOverlapping(b1: XYXY, b2: XYXY)
    requires WellFormed(b1) && WellFormed(b2) && RawOverlapW(b1, b2) >= 0.0 && RawOverlapH(b1, b2) >= 0.0
    ensures HullW(b1, b2) * HullH(b1, b2) >= Area(b1) + Area(b2) - Inter(b1, b2)
  {
    Extents(b1, b2);
    var dx, dy := RawOverlapW(b1, b2), RawOverlapH(b1, b2);
    assert Inter(b1, b2) == dx * dy;
    HullCoversOverlap(b1.x2 - b1.x1, b1.y2 - b1.y1, b2.x2 - b2.x1, b2.y2 - b2.y1, dx, dy);
  }

  /** The GIoU adjustment on scalars: iou - (c - u) / c for 0 <= u <= c. */
  lemma GeneralizedScalar(iou: real, u: real, c: real)
    requires iou >= 0.0 && 0.0 < u <= c
    ensures -1.0 < iou - (c - u) / c <= iou
  {
    RatioBelowOne(c - u, c);
  }

  /** The epsilon-damped union is positive and no larger than the epsilon-damped hull area. */
  lemma UnionWithinHull(b1: XYXY, b2: XYXY)
    requires WellFormed(b1) && WellFormed(b2)
    ensures 0.0 < UnionEps(b1, b2) <= HullArea(b1, b2)
  {
    UnionAboveEps(b1, b2);
    UnionBelowHull(b1, b2);
  }

  lemma UnionBelowHull(b1: XYXY, b2: XYXY)
    requires WellFormed(b1) && WellFormed(b2)
    ensures UnionEps(b1, b2) <= HullArea(b1, b2)
  {
    HullCoversUnion(b1, b2);
  }

  lemma GeneralizedUnfold(b1: XYXY, b2: XYXY)
    requires IouDefined(b1, b2, Generalized)
    ensures IouDefined(b1, b2, Plain)
    ensures BBoxIou(b1, b2, Generalized)
      == BBoxIou(b1, b2, Plain) - (HullArea(b1, b2) - UnionEps(b1, b2)) / HullArea(b1, b2)
  {
  }

  /** GIoU is at most the plain IoU and stays above -1. */
  lemma GeneralizedIouBounds(b1: XYXY, b2: XYXY)
    requires WellFormed(b1) && WellFormed(b2)
    ensures IouDefined(b1, b2, Generalized) && IouDefined(b1, b2, Plain)
    ensures -1.0 < BBoxIou(b1, b2, Generalized) <= BBoxIou(b1, b2, Plain)
  {
    UnionWithinHull(b1, b2);
    PlainIouBounds(b1, b2);
    GeneralizedUnfold(b1, b2);
    GeneralizedScalar(BBoxIou(b1, b2, Plain), UnionEps(b1, b2), HullArea(b1, b2));
  }

  /** The centres of two well-formed boxes are no further apart than the enclosing box's sides. */
  lemma CentersInsideHull(b1: XYXY, b2: XYXY)
    requires WellFormed(b1) && WellFormed(b2)
    ensures 0.0 <= CenterDist2(b1, b2) <= HullW(b1, b2) * HullW(b1, b2) + HullH(b1, b2) * HullH(b1, b2)
  {
    var dx, dy := (b2.x1 + b2.x2) - (b1.x1 + b1.x2), (b2.y1 + b2.y2) - (b1.y1 + b1.y2);
    SquareMono(dx / 2.0, HullW(b1, b2));
    SquareMono(dy / 2.0, HullH(b1, b2));
    SquareNonNegative(dx / 2.0);
    SquareNonNegative(dy / 2.0);
    assert dx * dx / 4.0 == (dx / 2.0) * (dx / 2.0);
    assert dy * dy / 4.0 == (dy / 2.0) * (dy / 2.0);
  }

  /** The DIoU adjustment on scalars: iou - rho2 / c2 for 0 <= rho2 < c2. */
  lemma DistanceScalar(iou: real, rho2: real, c2: real)
    requires iou >= 0.0 && 0.0 <= rho2 < c2
    ensures -1.0 < iou - rho2 / c2 <= iou
  {
    RatioBelowOne(rho2, c2);
  }

  /** The squared centre distance is below the enclosing box's squared diagonal plus epsilon. */
  lemma CentersWithinDiagonal(b1: XYXY, b2: XYXY)
    requires WellFormed(b1) && WellFormed(b2)
    ensures 0.0 <= CenterDist2(b1, b2) < HullDiag2(b1, b2)
  {
    CentersInsideHull(b1, b2);
  }

  lemma DistanceUnfold(b1: XYXY, b2: XYXY)
    requires IouDefined(b1, b2, Distance)
    ensures IouDefined(b1, b2, Plain)
    ensures BBoxIou(b1, b2, Distance) == BBoxIou(b1, b2, Plain) - CenterDist2(b1, b2) / HullDiag2(b1, b2)
  {
  }

  /** DIoU is at most the plain IoU and stays above -1. */
  lemma DistanceIouBounds(b1: XYXY, b2: XYXY)
    requires WellFormed(b1) && WellFormed(b2)
    ensures IouDefined(b1, b2, Distance) && IouDefined(b1, b2, Plain)
    ensures -1.0 < BBoxIou(b1, b2, Distance) <= BBoxIou(b1, b2, Plain)
  {
    CentersWithinDiagonal(b1, b2);
    PlainIouBounds(b1, b2);
    DistanceUnfold(b1, b2);
    DistanceScalar(BBoxIou(b1, b2, Plain), CenterDist2(b1, b2), HullDiag2(b1, b2));
  }

  /** box_iou's denominator, `area1 + area2 - inter` (no epsilon). */
  function PairDenom(a: XYXY, b: XYXY): real
  {
    Area(a) + Area(b) - Inter(a, b)
  }

  function PairIou(a: XYXY, b: XYXY): real
    requires PairDenom(a, b) != 0.0
  {
    Inter(a, b) / PairDenom(a, b)
  }

  /** box_iou(box1, box2): the N x M matrix of pairwise IoU values. */
  function BoxIou(box1: seq<XYXY>, box2: seq<XYXY>): (m: seq<seq<real>>)
    requires forall i, j :: 0 <= i < |box1| && 0 <= j < |box2| ==> PairDenom(box1[i], box2[j]) != 0.0
    ensures |m| == |box1|
    ensures forall i :: 0 <= i < |box1| ==> |m[i]| == |box2|
    ensures forall i, j :: 0 <= i < |box1| && 0 <= j < |box2| ==> m[i][j] == PairIou(box1[i], box2[j])
  {
    seq(|box1|, i requires 0 <= i < |box1| =>
      seq(|box2|, j requires 0 <= j < |box2| => PairIou(box1[i], box2[j])))
  }

  predicate PositiveArea(b: XYXY)
  {
    b.x1 < b.x2 && b.y1 < b.y2
  }

  /** With no epsilon, a positive-area box has IoU exactly 1 with itself. */
  lemma BoxIouSelf(a: XYXY)
    requires PositiveArea(a)
    ensures Area(a) > 0.0 && PairDenom(a, a) > 0.0
    ensures PairIou(a, a) == 1.0
  {
    var area := Area(a);
    assert Inter(a, a) == area;
    MulPositive(a.x2 - a.x1, a.y2 - a.y1);
    assert PairDenom(a, a) == area > 0.0;
    assert area / area == 1.0;
  }

  lemma RatioOneIff(i: real, d: real)
    requires d != 0.0
    ensures i / d == 1.0 <==> i == d
  {
    assert i / d * d == i;
  }

  lemma RatioAtMostOne(i: real, d: real, u: real)
    requires 0.0 <= i <= d && d > 0.0 && u >= d
    ensures 0.0 <= i / u <= i / d <= 1.0
  {
    assert i / d * d == i;
    assert i / u * u == i;
    MulMono(i / u, d, i / u, u);
  }

  /** For well-formed boxes one of which has positive area, box_iou is defined and in [0, 1],
      and it is never below bbox_iou's epsilon-damped plain IoU. */
  lemma BoxIouBounds(a: XYXY, b: XYXY)
    requires WellFormed(a) && WellFormed(b) && PositiveArea(a)
    ensures PairDenom(a, b) > 0.0
    ensures 0.0 <= PairIou(a, b) <= 1.0
    ensures IouDefined(a, b, Plain) && BBoxIou(a, b, Plain) <= PairIou(a, b)
  {
    BoxIouSelf(a);
    InterBounds(a, b);
    assert PairDenom(a, b) >= Area(a) > 0.0;
    WellFormedDefined(a, b);
    RatioAtMostOne(Inter(a, b), PairDenom(a, b), UnionEps(a, b));
  }

  /** Width-height overlap of two shapes aligned at a common corner. */
  function WhInter(a: WH, b: WH): real
  {
    Min(a.w, b.w) * Min(a.h, b.h)
  }

  function WhDenom(a: WH, b: WH): real
  {
    a.w * a.h + b.w * b.h - WhInter(a, b)
  }

  function WhPairIou(a: WH, b: WH): real
    requires WhDenom(a, b) != 0.0
  {
    WhInter(a, b) / WhDenom(a, b)
  }

  /** wh_iou(wh1, wh2): the N x M matrix of shape-only IoU values. */
  function WhIou(wh1: seq<WH>, wh2: seq<WH>): (m: seq<seq<real>>)
    requires forall i, j :: 0 <= i < |wh1| && 0 <= j < |wh2| ==> WhDenom(wh1[i], wh2[j]) != 0.0
    ensures |m| == |wh1|
    ensures forall i :: 0 <= i < |wh1| ==> |m[i]| == |wh2|
    ensures forall i, j :: 0 <= i < |wh1| && 0 <= j < |wh2| ==> m[i][j] == WhPairIou(wh1[i], wh2[j])
  {
    seq(|wh1|, i requires 0 <= i < |wh1| =>
      seq(|wh2|, j requires 0 <= j < |wh2| => WhPairIou(wh1[i], wh2[j])))
  }

  /** The box with top-left corner at the origin and the given shape. */
  function AtOrigin(s: WH): XYXY
  {
    XYXY(0.0, 0.0, s.w, s.h)
  }

  /** wh_iou is box_iou of the two shapes placed at a common corner. */
  lemma WhIouIsCornerAlignedBoxIou(a: WH, b: WH)
    requires a.w >= 0.0 && a.h >= 0.0 && b.w >= 0.0 && b.h >= 0.0
    ensures WhDenom(a, b) == PairDenom(AtOrigin(a), AtOrigin(b))
    ensures WhDenom(a, b) != 0.0 ==> WhPairIou(a, b) == PairIou(AtOrigin(a), AtOrigin(b))
  {
    assert Inter(AtOrigin(a), AtOrigin(b)) == WhInter(a, b);
  }

  /** For positive shapes wh_iou is defined, lies in (0, 1], and equals 1 exactly for equal shapes. */
  lemma WhIouOneIffSameShape(a: WH, b: WH)
    requires a.w > 0.0 && a.h > 0.0 && b.w > 0.0 && b.h > 0.0
    ensures WhDenom(a, b) > 0.0
    ensures 0.0 < WhPairIou(a, b) <= 1.0
    ensures WhPairIou(a, b) == 1.0 <==> a == b
  {
    WhIouIsCornerAlignedBoxIou(a, b);
    BoxIouBounds(AtOrigin(a), AtOrigin(b));
    var mw, mh := Min(a.w, b.w), Min(a.h, b.h);
    var i, d := WhInter(a, b), WhDenom(a, b);
    MulPositive(mw, mh);
    assert i / d > 0.0;
    // each area is at least the overlap, strictly unless the shape is the overlap itself
    ProductTight(a.w, a.h, mw, mh);
    ProductTight(b.w, b.h, mw, mh);
    RatioOneIff(i, d);
  }
}
