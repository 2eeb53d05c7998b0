/** The bookkeeping of compute_loss around its numerics: the decode ranges of the regression
    outputs, the objectness target blended from the IoU and written into a zero buffer, the
    one-hot class targets, the per-scale balance weights and the final scaling. Sigmoid outputs,
    IoU values and the BCE losses themselves are given reals. */
module Loss {
  import opened RealMath
  import opened Wrappers
  import opened Boxes
  import opened ShapeMatch
  import opened Targets
  import opened Helpers

  // ----- decoding -----

  /** `pxy = ps[:, :2].sigmoid() * 2. - 0.5` for one coordinate. */
  function DecodeXY(s: real): (v: real)
    requires 0.0 < s < 1.0
    ensures -0.5 < v < 1.5
  {
    s * 2.0 - 0.5
  }

  /** Every offset in (-0.5, 1.5) is the decode of exactly one sigmoid value. */
  lemma DecodeXYOnto(v: real, s: real)
    requires -0.5 < v < 1.5
    ensures s == (v + 0.5) / 2.0 ==> 0.0 < s < 1.0 && DecodeXY(s) == v
    ensures 0.0 < s < 1.0 && DecodeXY(s) == v ==> s == (v + 0.5) / 2.0
  {
  }

  /** The regression targets build_targets emits can all be reached by the xy decode. */
  lemma TargetOffsetsDecodable(x: Assignment, anchors: seq<WH>)
    requires WellPlaced(x, anchors)
    ensures exists s :: 0.0 < s < 1.0 && DecodeXY(s) == x.tbox.x
    ensures exists s :: 0.0 < s < 1.0 && DecodeXY(s) == x.tbox.y
  {
    DecodeXYOnto(x.tbox.x, (x.tbox.x + 0.5) / 2.0);
    DecodeXYOnto(x.tbox.y, (x.tbox.y + 0.5) / 2.0);
  }

  /** `pwh = (ps[:, 2:4].sigmoid() * 2) ** 2 * anchors[i]` for one side, the square written as
      u * (u * anchor): within (0, 4 * anchor). */
  function DecodeWH(s: real, anchor: real): (v: real)
    requires 0.0 < s < 1.0 && anchor > 0.0
    ensures 0.0 < v < 4.0 * anchor
  {
    var u := s * 2.0;
    MulPositive(u, anchor);
    MulPositive(u, u * anchor);
    MulMonoStrict(u, 2.0, anchor);
    MulMonoStrict(u, 2.0, u * anchor);
    u * (u * anchor)
  }

  /** A side that passes the shape filter with a threshold of at most 4 lies inside the range of
      the wh decode, so every kept target can be regressed. */
  lemma AxisDecodable(g: real, a: real, thr: real)
    requires g >= 0.0 && a > 0.0 && thr <= 4.0 && AxisFits(g, a, thr)
    ensures 0.0 < g < 4.0 * a
  {
    var r := g / a;
    assert r < 4.0;
    assert g == r * a;
    MulMonoStrict(r, 4.0, a);
  }

  lemma KeptShapeDecodable(gt: WH, anchor: WH, thr: real)
    requires gt.w >= 0.0 && gt.h >= 0.0 && anchor.w > 0.0 && anchor.h > 0.0 && thr <= 4.0
    requires Fits(gt, anchor, thr)
    ensures 0.0 < gt.w < 4.0 * anchor.w && 0.0 < gt.h < 4.0 * anchor.h
  {
    AxisDecodable(gt.w, anchor.w, thr);
    AxisDecodable(gt.h, anchor.h, thr);
  }

  // ----- objectness target -----

  /** `(1.0 - model.gr) + model.gr * giou.detach().clamp(0)`: between 1 - gr and 1 for IoU values
      at most 1; 1 when gr is 0 and the clamped IoU itself when gr is 1. */
  function ObjValue(gr: real, iou: real): (v: real)
    requires 0.0 <= gr <= 1.0 && iou <= 1.0
    ensures 1.0 - gr <= v <= 1.0
    ensures gr == 0.0 ==> v == 1.0
    ensures gr == 1.0 ==> v == Max(iou, 0.0)
  {
    var m := Max(iou, 0.0);
    BlendBounds(gr, m);
    (1.0 - gr) + gr * m
  }

  /** The IoU share `gr * m` of an IoU m in [0, 1] lies within [0, gr]. */
  lemma BlendBounds(gr: real, m: real)
    requires 0.0 <= gr <= 1.0 && 0.0 <= m <= 1.0
    ensures 0.0 <= gr * m <= gr
    ensures gr == 0.0 ==> gr * m == 0.0
    ensures gr == 1.0 ==> gr * m == m
  {
    MulMonoLeq(0.0, m, gr);
    MulMonoLeq(m, 1.0, gr);
  }

  /** A better prediction never gets a lower objectness target. */
  lemma ObjValueMonotone(gr: real, i1: real, i2: real)
    requires 0.0 <= gr <= 1.0 && i1 <= i2 <= 1.0
    ensures ObjValue(gr, i1) <= ObjValue(gr, i2)
  {
    var m1, m2 := Max(i1, 0.0), Max(i2, 0.0);
    assert ObjValue(gr, i1) == (1.0 - gr) + gr * m1;
    assert ObjValue(gr, i2) == (1.0 - gr) + gr * m2;
    BlendMono(gr, m1, m2, ObjValue(gr, i1), ObjValue(gr, i2));
  }

  lemma BlendMono(gr: real, m1: real, m2: real, v1: real, v2: real)
    requires 0.0 <= gr && m1 <= m2 && v1 == (1.0 - gr) + gr * m1 && v2 == (1.0 - gr) + gr * m2
    ensures v1 <= v2
  {
    MulMonoLeq(m1, m2, gr);
  }

  function ObjValues(gr: real, ious: seq<real>): (v: seq<real>)
    requires 0.0 <= gr <= 1.0 && forall k :: 0 <= k < |ious| ==> ious[k] <= 1.0
    ensures |v| == |ious| && forall k :: 0 <= k < |ious| ==> v[k] == ObjValue(gr, ious[k])
  {
    seq(|ious|, k requires 0 <= k < |ious| => ObjValue(gr, ious[k]))
  }

  /** `tobj[b, a, gj, gi] = values` on flattened positions. Torch leaves the winner among
      several writes to one slot unspecified; the model chooses to apply the writes in order,
      so that the last one wins. `ScatterSomeWrite` holds for any winner. */
  function Scatter(buf: seq<real>, pos: seq<nat>, vals: seq<real>): (r: seq<real>)
    requires |pos| == |vals| && forall k :: 0 <= k < |pos| ==> pos[k] < |buf|
    ensures |r| == |buf|
  {
    if |pos| == 0 then buf
    else Scatter(buf, pos[..|pos| - 1], vals[..|pos| - 1])[pos[|pos| - 1] := vals[|pos| - 1]]
  }

  /** A slot that no write names keeps its old value. */
  lemma {:induction false} ScatterUntouched(buf: seq<real>, pos: seq<nat>, vals: seq<real>, i: nat)
    requires |pos| == |vals| && forall k :: 0 <= k < |pos| ==> pos[k] < |buf|
    requires i < |buf| && forall k :: 0 <= k < |pos| ==> pos[k] != i
    ensures Scatter(buf, pos, vals)[i] == buf[i]
  {
    if |pos| > 0 {
      ScatterUntouched(buf, pos[..|pos| - 1], vals[..|pos| - 1], i);
    }
  }

  /** A slot holds the value of the last write that names it. */
  lemma {:induction false} ScatterLastWins(buf: seq<real>, pos: seq<nat>, vals: seq<real>, k: nat)
    requires |pos| == |vals| && forall j :: 0 <= j < |pos| ==> pos[j] < |buf|
    requires k < |pos| && forall j :: k < j < |pos| ==> pos[j] != pos[k]
    ensures Scatter(buf, pos, vals)[pos[k]] == vals[k]
  {
    if k < |pos| - 1 {
      ScatterLastWins(buf, pos[..|pos| - 1], vals[..|pos| - 1], k);
    }
  }

  /** A slot that some write names holds the value of one of the writes naming it, whichever
      of them wins. */
  lemma {:induction false} ScatterSomeWrite(buf: seq<real>, pos: seq<nat>, vals: seq<real>, k: nat)
    requires |pos| == |vals| && forall j :: 0 <= j < |pos| ==> pos[j] < |buf|
    requires k < |pos|
    ensures exists j :: 0 <= j < |pos| && pos[j] == pos[k] && Scatter(buf, pos, vals)[pos[k]] == vals[j]
  {
    var n := |pos| - 1;
    if pos[n] == pos[k] {
      assert Scatter(buf, pos, vals)[pos[k]] == vals[n];
    } else {
      var pre, vpre := pos[..n], vals[..n];
      ScatterSomeWrite(buf, pre, vpre, k);
      var j :| 0 <= j < |pre| && pre[j] == pre[k] && Scatter(buf, pre, vpre)[pre[k]] == vpre[j];
      assert pos[j] == pos[k] && Scatter(buf, pos, vals)[pos[k]] == vals[j];
    }
  }

  /** Writing values from [lo, hi] into a buffer of zeros and values from [lo, hi] leaves every slot
      0 or within [lo, hi]. */
  lemma {:induction false} ScatterRange(buf: seq<real>, pos: seq<nat>, vals: seq<real>, lo: real, hi: real)
    requires |pos| == |vals| && forall k :: 0 <= k < |pos| ==> pos[k] < |buf|
    requires forall i :: 0 <= i < |buf| ==> buf[i] == 0.0 || lo <= buf[i] <= hi
    requires forall k :: 0 <= k < |vals| ==> lo <= vals[k] <= hi
    ensures forall i :: 0 <= i < |buf| ==> Scatter(buf, pos, vals)[i] == 0.0 || lo <= Scatter(buf, pos, vals)[i] <= hi
  {
    if |pos| > 0 {
      ScatterRange(buf, pos[..|pos| - 1], vals[..|pos| - 1], lo, hi);
    }
  }

  function Zeros(n: nat): (z: seq<real>)
    ensures |z| == n && forall i :: 0 <= i < n ==> z[i] == 0.0
  {
    seq(n, i => 0.0)
  }

  /** `tobj = torch.zeros_like(pi[..., 0])` followed by the matched-slot write, on the flattened
      buffer of `size` slots. */
  method ObjectnessTarget(size: nat, pos: seq<nat>, ious: seq<real>, gr: real) returns (tobj: array<real>)
    requires |pos| == |ious| && forall k :: 0 <= k < |pos| ==> pos[k] < size
    requires 0.0 <= gr <= 1.0 && forall k :: 0 <= k < |ious| ==> ious[k] <= 1.0
    ensures fresh(tobj) && tobj[..] == Scatter(Zeros(size), pos, ObjValues(gr, ious))
  {
    tobj := new real[size](i => 0.0);
    var vals := ObjValues(gr, ious);
    var k := 0;
    assert tobj[..] == Zeros(size);
    while k < |pos|
      invariant 0 <= k <= |pos|
      invariant tobj[..] == Scatter(Zeros(size), pos[..k], vals[..k])
    {
      tobj[pos[k]] := vals[k];
      assert pos[..k + 1][..k] == pos[..k] && vals[..k + 1][..k] == vals[..k];
      k := k + 1;
    }
    assert pos[..k] == pos && vals[..k] == vals;
  }

  /** The objectness target: unmatched slots are 0, a matched slot holds the blended value of
      one of its matches (of the last one, in the write order the model chooses), and every
      slot is 0 or within [1 - gr, 1]. */
  lemma ObjectnessTargetMeaning(size: nat, pos: seq<nat>, ious: seq<real>, gr: real, i: nat)
    requires |pos| == |ious| && forall k :: 0 <= k < |pos| ==> pos[k] < size
    requires 0.0 <= gr <= 1.0 && forall k :: 0 <= k < |ious| ==> ious[k] <= 1.0
    requires i < size
    ensures var t := Scatter(Zeros(size), pos, ObjValues(gr, ious));
      && ((forall k :: 0 <= k < |pos| ==> pos[k] != i) ==> t[i] == 0.0)
      && (forall k :: 0 <= k < |pos| && pos[k] == i && (forall j :: k < j < |pos| ==> pos[j] != i) ==>
            t[i] == ObjValue(gr, ious[k]))
      && ((exists k :: 0 <= k < |pos| && pos[k] == i) ==>
            exists j :: 0 <= j < |pos| && pos[j] == i && t[i] == ObjValue(gr, ious[j]))
      && (t[i] == 0.0 || 1.0 - gr <= t[i] <= 1.0)
  {
    var vals := ObjValues(gr, ious);
    if forall k :: 0 <= k < |pos| ==> pos[k] != i {
      ScatterUntouched(Zeros(size), pos, vals, i);
    }
    forall k | 0 <= k < |pos| && pos[k] == i && (forall j :: k < j < |pos| ==> pos[j] != i)
      ensures Scatter(Zeros(size), pos, vals)[i] == ObjValue(gr, ious[k])
    {
      ScatterLastWins(Zeros(size), pos, vals, k);
    }
    if exists k :: 0 <= k < |pos| && pos[k] == i {
      var k :| 0 <= k < |pos| && pos[k] == i;
      ScatterSomeWrite(Zeros(size), pos, vals, k);
    }
    ScatterRange(Zeros(size), pos, vals, 1.0 - gr, 1.0);
  }

  /** The position of `tobj[b, a, gj, gi]` in the row-major buffer of shape (bs, na, ny, nx). */
  function FlatIndex(ix: Index, na: nat, ny: nat, nx: nat): int
  {
    ((ix.img * na + ix.anchor) * ny + ix.gj) * nx + ix.gi
  }

  predicate IndexInRange(ix: Index, bs: nat, na: nat, ny: nat, nx: nat)
  {
    ix.img < bs && ix.anchor < na && 0 <= ix.gj < ny && 0 <= ix.gi < nx
  }

  /** One mixed-radix digit: 0 <= x < X and 0 <= y < Y give 0 <= x * Y + y < X * Y. */
  lemma DigitBound(x: int, y: int, xb: int, yb: int)
    requires 0 <= x < xb && 0 <= y < yb
    ensures 0 <= x * yb + y < xb * yb
  {
    MulMonoLeq((x + 1) as real, xb as real, yb as real);
    MulMonoLeq(0.0, x as real, yb as real);
    assert (x + 1) * yb == x * yb + yb;
  }

  /** One mixed-radix digit is unique: equal values with digits below Y have equal digits. */
  lemma DigitUnique(x: int, y: int, x': int, y': int, yb: int)
    requires 0 <= y < yb && 0 <= y' < yb && x * yb + y == x' * yb + y'
    ensures x == x' && y == y'
  {
    if x < x' {
      DigitStep(x, x', yb);
    } else if x' < x {
      DigitStep(x', x, yb);
    }
  }

  /** A larger leading digit outweighs any trailing digit below Y. */
  lemma DigitStep(x: int, x': int, yb: int)
    requires x < x' && yb > 0
    ensures x * yb + yb <= x' * yb
  {
    assert (x + 1) * yb == x * yb + yb;
    MulMonoLeq((x + 1) as real, x' as real, yb as real);
  }

  /** In-range indices land in the buffer, and two of them share a slot only if they are equal,
      so duplicate writes come only from duplicate (image, anchor, cell) indices. */
  lemma FlatIndexMeaning(ix: Index, iy: Index, bs: nat, na: nat, ny: nat, nx: nat)
    requires IndexInRange(ix, bs, na, ny, nx) && IndexInRange(iy, bs, na, ny, nx)
    ensures 0 <= FlatIndex(ix, na, ny, nx) < bs * na * ny * nx
    ensures FlatIndex(ix, na, ny, nx) == FlatIndex(iy, na, ny, nx) <==> ix == iy
  {
    DigitBound(ix.img, ix.anchor, bs, na);
    DigitBound(ix.img * na + ix.anchor, ix.gj, bs * na, ny);
    DigitBound((ix.img * na + ix.anchor) * ny + ix.gj, ix.gi, bs * na * ny, nx);
    DigitBound(iy.img, iy.anchor, bs, na);
    DigitBound(iy.img * na + iy.anchor, iy.gj, bs * na, ny);
    if FlatIndex(ix, na, ny, nx) == FlatIndex(iy, na, ny, nx) {
      DigitUnique((ix.img * na + ix.anchor) * ny + ix.gj, ix.gi, (iy.img * na + iy.anchor) * ny + iy.gj, iy.gi, nx);
      DigitUnique(ix.img * na + ix.anchor, ix.gj, iy.img * na + iy.anchor, iy.gj, ny);
      DigitUnique(ix.img, ix.anchor, iy.img, iy.anchor, na);
    }
  }

  // ----- class targets -----

  /** `t = torch.full_like(ps[:, 5:], cn); t[range(n), tcls[i]] = cp` for one row. */
  function ClassTargets(nc: nat, cls: nat, eps: real): (t: seq<real>)
    requires cls < nc
    ensures |t| == nc
  {
    var (cp, cn) := SmoothBce(eps);
    seq(nc, j requires 0 <= j < nc => if j == cls then cp else cn)
  }

  /** The row holds cp at its class and cn everywhere else; it is one-hot when eps is 0 (as in
      compute_loss) and always sums to 1 + (nc - 2) * eps / 2. */
  lemma ClassTargetsMeaning(nc: nat, cls: nat, eps: real)
    requires cls < nc
    ensures ClassTargets(nc, cls, eps)[cls] == 1.0 - 0.5 * eps
    ensures forall j :: 0 <= j < nc && j != cls ==> ClassTargets(nc, cls, eps)[j] == 0.5 * eps
    ensures eps == 0.0 ==> Sum(ClassTargets(nc, cls, eps)) == 1.0
    ensures Sum(ClassTargets(nc, cls, eps)) == (1.0 - 0.5 * eps) + (nc - 1) as real * (0.5 * eps)
  {
    PeakSum(nc, cls, 1.0 - 0.5 * eps, 0.5 * eps);
    var t := ClassTargets(nc, cls, eps);
    assert t == seq(nc, j requires 0 <= j < nc => if j == cls then 1.0 - 0.5 * eps else 0.5 * eps);
    if eps == 0.0 {
      assert (nc - 1) as real * (0.5 * eps) == 0.0;
    }
  }

  /** Sum of a row of n entries q with one entry p. */
  lemma {:induction false} PeakSum(n: nat, c: nat, p: real, q: real)
    requires c < n
    ensures Sum(seq(n, j requires 0 <= j < n => if j == c then p else q)) == p + (n - 1) as real * q
  {
    var s := seq(n, j requires 0 <= j < n => if j == c then p else q);
    if c == n - 1 {
      ConstantSum(n - 1, q);
      assert s[..n - 1] == seq(n - 1, j requires 0 <= j < n - 1 => q);
    } else {
      PeakSum(n - 1, c, p, q);
      assert s[..n - 1] == seq(n - 1, j requires 0 <= j < n - 1 => if j == c then p else q);
      assert (n - 1) as real * q == (n - 2) as real * q + q;
    }
  }

  // ----- composing the loss -----

  /** What one scale contributes: its number of matched targets, the mean `1 - iou` box term,
      the objectness BCE and the class BCE. */
  datatype ScaleTerms = ScaleTerms(n: nat, box: real, obj: real, cls: real)

  /** The loss gains h['giou'], h['obj'] and h['cls']. */
  datatype Gains = Gains(giou: real, obj: real, cls: real)

  /** `compute_loss` fails on no outputs (`3 / np`) or on more outputs than balance weights. */
  datatype LossError = NoOutputs | TooManyOutputs

  /** `(loss * bs, torch.cat((lbox, lobj, lcls, loss)))`. */
  datatype LossOut = LossOut(total: real, breakdown: seq<real>)

  /** `balance = [4.0, 1.0, 0.4] if np == 3 else [4.0, 1.0, 0.4, 0.1]`. */
  function Balance(np: nat): seq<real>
  {
    if np == 3 then [4.0, 1.0, 0.4] else [4.0, 1.0, 0.4, 0.1]
  }

  /** The box term accrues only at scales with matched targets; so does the class term, and only
      for more than one class; the objectness term accrues at every scale, weighted. */
  function BoxTerms(scales: seq<ScaleTerms>): (t: seq<real>)
    ensures |t| == |scales|
  {
    seq(|scales|, i requires 0 <= i < |scales| => if scales[i].n > 0 then scales[i].box else 0.0)
  }

  function ClsTerms(scales: seq<ScaleTerms>, nc: nat): (t: seq<real>)
    ensures |t| == |scales|
  {
    seq(|scales|, i requires 0 <= i < |scales| => if scales[i].n > 0 && nc > 1 then scales[i].cls else 0.0)
  }

  function ObjTerms(scales: seq<ScaleTerms>, balance: seq<real>): (t: seq<real>)
    requires |scales| <= |balance|
    ensures |t| == |scales|
  {
    seq(|scales|, i requires 0 <= i < |scales| => scales[i].obj * balance[i])
  }

  /** The scaling after the loop: `s = 3 / np`, the gains, the 1.4 objectness factor for four
      outputs, and the batch-size multiply. */
  function Finish(box: real, obj: real, cls: real, np: nat, h: Gains, bs: nat): LossOut
    requires np >= 1
  {
    var s := 3.0 / np as real;
    var lbox := box * (h.giou * s);
    var lobj := obj * (h.obj * s * (if np == 4 then 1.4 else 1.0));
    var lcls := cls * (h.cls * s);
    var loss := lbox + lobj + lcls;
    LossOut(loss * bs as real, [lbox, lobj, lcls, loss])
  }

  /** The loss compute_loss returns for 1 to 4 output scales and batch size bs. */
  function Composed(scales: seq<ScaleTerms>, nc: nat, h: Gains, bs: nat): LossOut
    requires 1 <= |scales| <= 4
  {
    Finish(Sum(BoxTerms(scales)), Sum(ObjTerms(scales, Balance(|scales|))), Sum(ClsTerms(scales, nc)), |scales|, h, bs)
  }

  /** compute_loss's scale loop and final scaling. */
  method ComputeLoss(scales: seq<ScaleTerms>, nc: nat, h: Gains, bs: nat) returns (r: Result<LossOut, LossError>)
    ensures |scales| == 0 ==> r == Err(NoOutputs)
    ensures |scales| > 4 ==> r == Err(TooManyOutputs)
    ensures 1 <= |scales| <= 4 ==> r == Ok(Composed(scales, nc, h, bs))
  {
    var np := |scales|;
    var balance := Balance(np);
    var lbox, lobj, lcls := 0.0, 0.0, 0.0;
    var i := 0;
    while i < np
      invariant 0 <= i <= np && i <= |balance|
      invariant lbox == Sum(BoxTerms(scales[..i]))
      invariant lcls == Sum(ClsTerms(scales[..i], nc))
      invariant lobj == Sum(ObjTerms(scales[..i], balance))
    {
      if i >= |balance| {
        return Err(TooManyOutputs);
      }
      var t := scales[i];
      if t.n > 0 {
        lbox := lbox + t.box;
        if nc > 1 {
          lcls := lcls + t.cls;
        }
      }
      lobj := lobj + t.obj * balance[i];
      PrefixTerms(scales, nc, balance, i);
      i := i + 1;
    }
    if np == 0 {
      return Err(NoOutputs);
    }
    assert scales[..np] == scales;
    r := Ok(Finish(lbox, lobj, lcls, np, h, bs));
  }

  /** Extending the scale prefix by one scale adds its terms at the end. */
  lemma PrefixTerms(scales: seq<ScaleTerms>, nc: nat, balance: seq<real>, i: nat)
    requires i < |scales| && i < |balance|
    ensures Sum(BoxTerms(scales[..i + 1])) == Sum(BoxTerms(scales[..i])) + (if scales[i].n > 0 then scales[i].box else 0.0)
    ensures Sum(ClsTerms(scales[..i + 1], nc)) == Sum(ClsTerms(scales[..i], nc))
      + (if scales[i].n > 0 && nc > 1 then scales[i].cls else 0.0)
    ensures Sum(ObjTerms(scales[..i + 1], balance)) == Sum(ObjTerms(scales[..i], balance)) + scales[i].obj * balance[i]
  {
    PrefixBox(scales, i);
    PrefixCls(scales, nc, i);
    PrefixObj(scales, balance, i);
  }

  lemma PrefixBox(scales: seq<ScaleTerms>, i: nat)
    requires i < |scales|
    ensures Sum(BoxTerms(scales[..i + 1])) == Sum(BoxTerms(scales[..i])) + (if scales[i].n > 0 then scales[i].box else 0.0)
  {
    var p, q := scales[..i + 1], scales[..i];
    assert BoxTerms(p) == BoxTerms(q) + [BoxTerms(p)[i]];
    SumAppend(BoxTerms(q), BoxTerms(p)[i]);
  }

  lemma PrefixCls(scales: seq<ScaleTerms>, nc: nat, i: nat)
    requires i < |scales|
    ensures Sum(ClsTerms(scales[..i + 1], nc)) == Sum(ClsTerms(scales[..i], nc))
      + (if scales[i].n > 0 && nc > 1 then scales[i].cls else 0.0)
  {
    var p, q := scales[..i + 1], scales[..i];
    assert ClsTerms(p, nc) == ClsTerms(q, nc) + [ClsTerms(p, nc)[i]];
    SumAppend(ClsTerms(q, nc), ClsTerms(p, nc)[i]);
  }

  lemma PrefixObj(scales: seq<ScaleTerms>, balance: seq<real>, i: nat)
    requires i < |scales| && i < |balance|
    ensures Sum(ObjTerms(scales[..i + 1], balance)) == Sum(ObjTerms(scales[..i], balance)) + scales[i].obj * balance[i]
  {
    var p, q := scales[..i + 1], scales[..i];
    var tp, tq := ObjTerms(p, balance), ObjTerms(q, balance);
    assert |tp| == |tq| + 1;
    forall k | 0 <= k < |tq|
      ensures tp[k] == tq[k]
    {
      assert p[k] == q[k];
    }
    assert tp == tq + [tp[i]];
    SumAppend(tq, tp[i]);
  }

  /** The returned total is the batch size times the unscaled sum, which is the fourth entry of
      the breakdown and the sum of the first three. */
  lemma ComposedTotal(scales: seq<ScaleTerms>, nc: nat, h: Gains, bs: nat)
    requires 1 <= |scales| <= 4
    ensures var o := Composed(scales, nc, h, bs);
      |o.breakdown| == 4 && o.breakdown[3] == o.breakdown[0] + o.breakdown[1] + o.breakdown[2]
      && o.total == o.breakdown[3] * bs as real
  {
  }

  /** With three outputs the scaling `3 / np` is 1: the terms are the gains times the sums, with
      balance weights 4, 1 and 0.4 on the objectness terms. */
  lemma ThreeScalesUnscaled(scales: seq<ScaleTerms>, nc: nat, h: Gains, bs: nat)
    requires |scales| == 3
    ensures var o := Composed(scales, nc, h, bs);
      && o.breakdown[0] == Sum(BoxTerms(scales)) * h.giou
      && o.breakdown[1] == (scales[0].obj * 4.0 + scales[1].obj * 1.0 + scales[2].obj * 0.4) * h.obj
      && o.breakdown[2] == Sum(ClsTerms(scales, nc)) * h.cls
  {
    var t := ObjTerms(scales, Balance(3));
    assert t == [scales[0].obj * 4.0, scales[1].obj * 1.0, scales[2].obj * 0.4];
    SumThree(t);
  }

  lemma SumThree(t: seq<real>)
    requires |t| == 3
    ensures Sum(t) == t[0] + t[1] + t[2]
  {
    assert t == [t[0]] + [t[1]] + [t[2]];
    SumAppend([t[0]] + [t[1]], t[2]);
    SumAppend([t[0]], t[1]);
    SumAppend([], t[0]);
    assert [] + [t[0]] == [t[0]];
  }

  /** A single-class model has no class loss. */
  lemma SingleClassNoClassLoss(scales: seq<ScaleTerms>, nc: nat, h: Gains, bs: nat)
    requires 1 <= |scales| <= 4 && nc <= 1
    ensures Composed(scales, nc, h, bs).breakdown[2] == 0.0
  {
    var z := ClsTerms(scales, nc);
    assert z == Scale(z, 0.0);
    SumScale(z, 0.0);
  }

  /** A scale without matched targets contributes only its objectness term: its box and class
      numbers do not affect the loss. */
  lemma UnmatchedScaleOnlyObjectness(scales: seq<ScaleTerms>, nc: nat, h: Gains, bs: nat, i: nat, box: real, cls: real)
    requires 1 <= |scales| <= 4 && i < |scales| && scales[i].n == 0
    ensures Composed(scales[i := ScaleTerms(0, box, scales[i].obj, cls)], nc, h, bs) == Composed(scales, nc, h, bs)
  {
    var other := scales[i := ScaleTerms(0, box, scales[i].obj, cls)];
    assert BoxTerms(other) == BoxTerms(scales);
    assert ClsTerms(other, nc) == ClsTerms(scales, nc);
    assert ObjTerms(other, Balance(|scales|)) == ObjTerms(scales, Balance(|scales|));
    assert Sum(BoxTerms(other)) == Sum(BoxTerms(scales));
    assert Sum(ClsTerms(other, nc)) == Sum(ClsTerms(scales, nc));
    assert Sum(ObjTerms(other, Balance(|scales|))) == Sum(ObjTerms(scales, Balance(|scales|)));
  }
}
