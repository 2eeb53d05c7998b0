/** build_targets of utils/general.py: for every detection scale, pair each ground truth with the
    anchors whose shape it fits, add the neighbouring grid cells its centre is close to, and emit
    the index, box, absolute-target, anchor and class lists that compute_loss consumes. */
module Targets {
  import opened RealMath
  import opened Boxes
  import opened ShapeMatch
  import opened Positions

  /** One row of the `targets` tensor: image index, class, then a centre and size normalised to
      [0, 1] of the image. */
  datatype Target = Target(img: nat, cls: nat, x: real, y: real, w: real, h: real)

  /** A detection scale's grid: p[i].shape[3] columns by p[i].shape[2] rows. */
  datatype Grid = Grid(nx: nat, ny: nat)

  /** A row of the seven-column tensor `t`: a target with its anchor index appended. */
  datatype Row = Row(img: nat, cls: nat, x: real, y: real, w: real, h: real, a: nat)

  /** The five neighbour choices of build_targets, in the order of `off` and of the stacked masks
      (ones, j, k, l, m): the own cell, then left, up, right and down. */
  datatype Direction = Origin | Left | Up | Right | Down

  /** The (image, anchor, gj, gi) row of `indices`. */
  datatype Index = Index(img: nat, anchor: nat, gj: int, gi: int)

  /** One assignment of a ground truth to a grid cell and anchor; the five output lists are its
      columns. */
  datatype Assignment = Assignment(img: nat, anchor: nat, gj: int, gi: int, tbox: XYWH, ttar: XYWH,
                                   anchorShape: WH, cls: nat)

  function RowOf(t: Target, a: nat): Row
  {
    Row(t.img, t.cls, t.x, t.y, t.w, t.h, a)
  }

  /** Copy `a` of every target, the appended column being the anchor index. */
  function Block(ts: seq<Target>, a: nat): (b: seq<Row>)
    ensures |b| == |ts| && forall k :: 0 <= k < |ts| ==> b[k] == RowOf(ts[k], a)
  {
    seq(|ts|, k requires 0 <= k < |ts| => RowOf(ts[k], a))
  }

  /** `torch.cat((targets.repeat(na, 1, 1), ai[:, :, None]), 2)`, flattened anchor-major:
      all targets with anchor 0, then all with anchor 1, and so on. */
  function Replicate(ts: seq<Target>, na: nat): seq<Row>
  {
    if na == 0 then [] else Replicate(ts, na - 1) + Block(ts, na - 1)
  }

  /** `targets * gain` with gain = [1, 1, nx, ny, nx, ny, 1]: into grid units. */
  function ToGrid(r: Row, g: Grid): Row
  {
    Row(r.img, r.cls, r.x * g.nx as real, r.y * g.ny as real, r.w * g.nx as real, r.h * g.ny as real, r.a)
  }

  function GridRows(rows: seq<Row>, g: Grid): (r: seq<Row>)
    ensures |r| == |rows| && forall i :: 0 <= i < |rows| ==> r[i] == ToGrid(rows[i], g)
  {
    seq(|rows|, i requires 0 <= i < |rows| => ToGrid(rows[i], g))
  }

  /** Target `t` with anchor `a`, in grid units. */
  function Candidate(t: Target, a: nat, g: Grid): Row
  {
    ToGrid(RowOf(t, a), g)
  }

  /** Every row's anchor index is an index into the scale's anchors. */
  predicate AnchorsIndexed(rows: seq<Row>, anchors: seq<WH>)
  {
    forall i :: 0 <= i < |rows| ==> rows[i].a < |anchors|
  }

  /** `j = torch.max(r, 1. / r).max(2)[0] < anchor_t` for one row. */
  predicate Keep(r: Row, anchors: seq<WH>, thr: real)
    requires r.a < |anchors|
  {
    Fits(WH(r.w, r.h), anchors[r.a], thr)
  }

  /** `t = t[j]`: the rows whose shape fits their anchor, in order. */
  function FilterFits(rows: seq<Row>, anchors: seq<WH>, thr: real): (kept: seq<Row>)
    requires AnchorsIndexed(rows, anchors)
    ensures |kept| <= |rows| && AnchorsIndexed(kept, anchors)
    ensures forall r :: r in kept <==> r in rows && Keep(r, anchors, thr)
  {
    if |rows| == 0 then []
    else
      assert AnchorsIndexed(rows[1..], anchors);
      var rest := FilterFits(rows[1..], anchors, thr);
      if Keep(rows[0], anchors, thr) then [rows[0]] + rest else rest
  }

  /** The masks of build_targets, direction by direction: `gxy % 1. < g` and `gxy > 1.` for
      left and up, and the same on `gxi = gain - gxy` for right and down. */
  predicate Selected(r: Row, d: Direction, g: Grid)
  {
    match d
    case Origin => true
    case Left => Frac(r.x) < 0.5 && r.x > 1.0
    case Up => Frac(r.y) < 0.5 && r.y > 1.0
    case Right => Frac(g.nx as real - r.x) < 0.5 && g.nx as real - r.x > 1.0
    case Down => Frac(g.ny as real - r.y) < 0.5 && g.ny as real - r.y > 1.0
  }

  /** The rows of `off`: [0, 0], [1, 0], [0, 1], [-1, 0], [0, -1] times g = 0.5. */
  function OffsetX(d: Direction): real
  {
    match d
    case Left => 0.5
    case Right => -0.5
    case _ => 0.0
  }

  function OffsetY(d: Direction): real
  {
    match d
    case Up => 0.5
    case Down => -0.5
    case _ => 0.0
  }

  /** The outputs for one selected row: `gij = (gxy - offsets).long()`, `tbox = (gxy - gij, gwh)`,
      `ttar = (gxy, gwh)`, `anchors[a]` and the class. */
  function Assign(r: Row, d: Direction, anchors: seq<WH>): Assignment
    requires r.a < |anchors|
  {
    var gi, gj := Trunc(r.x - OffsetX(d)), Trunc(r.y - OffsetY(d));
    Assignment(r.img, r.a, gj, gi, XYWH(r.x - gi as real, r.y - gj as real, r.w, r.h),
               XYWH(r.x, r.y, r.w, r.h), anchors[r.a], r.cls)
  }

  /** One block of `t.repeat((5, 1, 1))[j]`: the rows selected for direction `d`, in order. */
  function Expand(rows: seq<Row>, d: Direction, g: Grid, anchors: seq<WH>): (r: seq<Assignment>)
    requires AnchorsIndexed(rows, anchors)
    ensures |r| <= |rows|
    ensures d == Origin ==> |r| == |rows|
  {
    if |rows| == 0 then []
    else
      assert AnchorsIndexed(rows[1..], anchors);
      var rest := Expand(rows[1..], d, g, anchors);
      if Selected(rows[0], d, g) then [Assign(rows[0], d, anchors)] + rest else rest
  }

  /** `t = t[j]` at one scale: the candidate rows that pass the shape filter. */
  function Kept(ts: seq<Target>, anchors: seq<WH>, g: Grid, thr: real): (kept: seq<Row>)
    ensures AnchorsIndexed(kept, anchors)
  {
    ReplicateIndexed(ts, |anchors|, g);
    FilterFits(GridRows(Replicate(ts, |anchors|), g), anchors, thr)
  }

  /** `t.repeat((5, 1, 1))[j]` turned into assignments: the five direction blocks in order. */
  function AllDirections(kept: seq<Row>, g: Grid, anchors: seq<WH>): seq<Assignment>
    requires AnchorsIndexed(kept, anchors)
  {
    Expand(kept, Origin, g, anchors) + Expand(kept, Left, g, anchors) + Expand(kept, Up, g, anchors)
      + Expand(kept, Right, g, anchors) + Expand(kept, Down, g, anchors)
  }

  /** Everything build_targets emits for one scale, in its order, or nothing when there are no
      targets at all. */
  function ScaleAssignments(ts: seq<Target>, anchors: seq<WH>, g: Grid, thr: real): seq<Assignment>
  {
    if |ts| == 0 then [] else AllDirections(Kept(ts, anchors, g, thr), g, anchors)
  }

  /** The replicated rows carry anchor indices below the anchor count. */
  lemma ReplicateIndexed(ts: seq<Target>, na: nat, g: Grid)
    ensures forall i :: 0 <= i < |GridRows(Replicate(ts, na), g)| ==> GridRows(Replicate(ts, na), g)[i].a < na
  {
    ReplicateMembership(ts, na);
    var rows := Replicate(ts, na);
    forall i | 0 <= i < |rows|
      ensures GridRows(rows, g)[i].a < na
    {
      assert rows[i] in rows;
    }
  }

  /** The replicated rows are exactly the (target, anchor) pairs. */
  lemma {:induction false} ReplicateMembership(ts: seq<Target>, na: nat)
    ensures forall r :: r in Replicate(ts, na) <==> exists k, a :: 0 <= k < |ts| && 0 <= a < na && r == RowOf(ts[k], a)
  {
    if na > 0 {
      ReplicateMembership(ts, na - 1);
      var b := Block(ts, na - 1);
      forall r | r in Replicate(ts, na)
        ensures exists k, a :: 0 <= k < |ts| && 0 <= a < na && r == RowOf(ts[k], a)
      {
        if r in b {
          var k :| 0 <= k < |b| && b[k] == r;
          assert r == RowOf(ts[k], na - 1);
        } else {
          assert r in Replicate(ts, na - 1);
          var k, a :| 0 <= k < |ts| && 0 <= a < na - 1 && r == RowOf(ts[k], a);
          assert 0 <= a < na;
        }
      }
      forall r | exists k, a :: 0 <= k < |ts| && 0 <= a < na && r == RowOf(ts[k], a)
        ensures r in Replicate(ts, na)
      {
        var k, a :| 0 <= k < |ts| && 0 <= a < na && r == RowOf(ts[k], a);
        if a == na - 1 {
          assert b[k] == r;
        }
      }
    }
  }
  /** The rows in grid units are exactly the candidates, one per (target, anchor) pair. */
  lemma GridRowsMembership(ts: seq<Target>, na: nat, g: Grid)
    ensures forall r :: r in GridRows(Replicate(ts, na), g) <==>
      exists k, a :: 0 <= k < |ts| && 0 <= a < na && r == Candidate(ts[k], a, g)
  {
    ReplicateMembership(ts, na);
    var rows := Replicate(ts, na);
    var t := GridRows(rows, g);
    forall r | r in t
      ensures exists k, a :: 0 <= k < |ts| && 0 <= a < na && r == Candidate(ts[k], a, g)
    {
      var i :| 0 <= i < |t| && t[i] == r;
      assert rows[i] in rows;
      var k, a :| 0 <= k < |ts| && 0 <= a < na && rows[i] == RowOf(ts[k], a);
      assert r == Candidate(ts[k], a, g);
    }
    forall r | exists k, a :: 0 <= k < |ts| && 0 <= a < na && r == Candidate(ts[k], a, g)
      ensures r in t
    {
      var k, a :| 0 <= k < |ts| && 0 <= a < na && r == Candidate(ts[k], a, g);
      assert RowOf(ts[k], a) in rows;
      var i :| 0 <= i < |rows| && rows[i] == RowOf(ts[k], a);
      assert t[i] == r;
    }
  }

  /** A direction block holds exactly the assignments of the rows selected for that direction. */
  lemma {:induction false} ExpandMembership(rows: seq<Row>, d: Direction, g: Grid, anchors: seq<WH>)
    requires AnchorsIndexed(rows, anchors)
    ensures forall x :: x in Expand(rows, d, g, anchors) <==>
      exists r :: r in rows && r.a < |anchors| && Selected(r, d, g) && x == Assign(r, d, anchors)
    decreases |rows|
  {
    if |rows| > 0 {
      assert AnchorsIndexed(rows[1..], anchors);
      ExpandMembership(rows[1..], d, g, anchors);
      assert rows == [rows[0]] + rows[1..];
      forall x | exists r :: r in rows && r.a < |anchors| && Selected(r, d, g) && x == Assign(r, d, anchors)
        ensures x in Expand(rows, d, g, anchors)
      {
        var r :| r in rows && r.a < |anchors| && Selected(r, d, g) && x == Assign(r, d, anchors);
        if r != rows[0] {
          assert r in rows[1..];
        }
      }
    }
  }

  /** Block a of the replication starts at a·|ts|: one row per (target, anchor) pair, anchor-major. */
  lemma ReplicateLayout(ts: seq<Target>, na: nat)
    ensures |Replicate(ts, na)| == na * |ts|
    ensures forall a, k :: 0 <= a < na && 0 <= k < |ts| ==> Replicate(ts, na)[a * |ts| + k] == RowOf(ts[k], a)
  {
    ReplicateLength(ts, na);
    TimesIsProduct(na, |ts|);
    forall a, k | 0 <= a < na && 0 <= k < |ts|
      ensures a * |ts| + k < |Replicate(ts, na)| && Replicate(ts, na)[a * |ts| + k] == RowOf(ts[k], a)
    {
      ReplicateEntry(ts, na, a, k);
    }
  }

  lemma ReplicateEntry(ts: seq<Target>, na: nat, a: nat, k: nat)
    requires a < na && k < |ts|
    ensures a * |ts| + k < |Replicate(ts, na)| && Replicate(ts, na)[a * |ts| + k] == RowOf(ts[k], a)
  {
    ReplicateAt(ts, na, a, k);
    TimesIsProduct(a, |ts|);
  }

  /** a·n as repeated addition, which keeps the layout proofs linear. */
  function Times(a: nat, n: nat): nat
  {
    if a == 0 then 0 else Times(a - 1, n) + n
  }

  lemma {:induction false} TimesIsProduct(a: nat, n: nat)
    ensures Times(a, n) == a * n
  {
    if a > 0 {
      TimesIsProduct(a - 1, n);
    }
  }

  lemma {:induction false} ReplicateLength(ts: seq<Target>, na: nat)
    ensures |Replicate(ts, na)| == Times(na, |ts|)
  {
    if na > 0 {
      ReplicateLength(ts, na - 1);
    }
  }

  lemma {:induction false} ReplicateAt(ts: seq<Target>, na: nat, a: nat, k: nat)
    requires a < na && k < |ts|
    ensures Times(a, |ts|) + k < |Replicate(ts, na)| && Replicate(ts, na)[Times(a, |ts|) + k] == RowOf(ts[k], a)
  {
    var prev, b := Replicate(ts, na - 1), Block(ts, na - 1);
    assert Replicate(ts, na) == prev + b;
    ReplicateLength(ts, na - 1);
    ReplicateLength(ts, na);
    var i := Times(a, |ts|) + k;
    if a < na - 1 {
      ReplicateAt(ts, na - 1, a, k);
      assert (prev + b)[i] == prev[i];
    } else {
      assert (prev + b)[i] == b[k];
    }
  }

  /** The images of the rows under `Assign` for one direction. */
  function Assigns(rows: seq<Row>, d: Direction, anchors: seq<WH>): (xs: seq<Assignment>)
    requires AnchorsIndexed(rows, anchors)
    ensures |xs| == |rows| && forall i :: 0 <= i < |rows| ==> xs[i] == Assign(rows[i], d, anchors)
  {
    seq(|rows|, i requires 0 <= i < |rows| => Assign(rows[i], d, anchors))
  }

  /** Direction d's mask over the rows (`j`, `k`, `l`, `m` or all ones). */
  function SelectedMask(rows: seq<Row>, d: Direction, g: Grid): (m: seq<bool>)
    ensures |m| == |rows| && forall i :: 0 <= i < |rows| ==> m[i] == Selected(rows[i], d, g)
  {
    seq(|rows|, i requires 0 <= i < |rows| => Selected(rows[i], d, g))
  }

  /** Entry k of a direction block is the assignment of the k-th row the direction selects: one
      assignment per selected row, in row order (Where lists those rows ascending, each once). */
  lemma {:induction false} ExpandIndexed(rows: seq<Row>, d: Direction, g: Grid, anchors: seq<WH>)
    requires AnchorsIndexed(rows, anchors)
    ensures var ps := Where(SelectedMask(rows, d, g));
      |Expand(rows, d, g, anchors)| == |ps|
      && forall k :: 0 <= k < |ps| ==> Expand(rows, d, g, anchors)[k] == Assign(rows[ps[k]], d, anchors)
    decreases |rows|
  {
    if |rows| > 0 {
      assert AnchorsIndexed(rows[1..], anchors);
      ExpandIndexed(rows[1..], d, g, anchors);
      var mask := SelectedMask(rows, d, g);
      assert mask[1..] == SelectedMask(rows[1..], d, g);
      var rest := Where(mask[1..]);
      var head: seq<nat> := if mask[0] then [0] else [];
      assert head + Successors(rest) == Where(mask);
      var first := if Selected(rows[0], d, g) then [Assign(rows[0], d, anchors)] else [];
      var more := Expand(rows[1..], d, g, anchors);
      assert first + more == Expand(rows, d, g, anchors);
      var xs := Assigns(rows, d, anchors);
      AssignsShift(rows, d, anchors, rest, more);
      ShiftedPick(xs, head, rest, first, more);
    }
  }

  lemma AssignsShift(rows: seq<Row>, d: Direction, anchors: seq<WH>, rest: seq<nat>, more: seq<Assignment>)
    requires AnchorsIndexed(rows, anchors) && |rows| > 0 && AnchorsIndexed(rows[1..], anchors)
    requires |more| == |rest| && forall k :: 0 <= k < |rest| ==> rest[k] < |rows| - 1
    requires forall k :: 0 <= k < |rest| ==> more[k] == Assign(rows[1..][rest[k]], d, anchors)
    ensures forall k :: 0 <= k < |rest| ==> more[k] == Assigns(rows, d, anchors)[1..][rest[k]]
  {
    var xs := Assigns(rows, d, anchors);
    forall k | 0 <= k < |rest|
      ensures more[k] == xs[1..][rest[k]]
    {
      assert rows[1..][rest[k]] == rows[rest[k] + 1];
    }
  }

  /** `j` of the shape filter as a mask over the rows. */
  function FitMask(rows: seq<Row>, anchors: seq<WH>, thr: real): (m: seq<bool>)
    requires AnchorsIndexed(rows, anchors)
    ensures |m| == |rows| && forall i :: 0 <= i < |rows| ==> m[i] == Keep(rows[i], anchors, thr)
  {
    seq(|rows|, i requires 0 <= i < |rows| => Keep(rows[i], anchors, thr))
  }

  /** Entry k of the filtered rows is the k-th row that passes the shape filter: each fitting
      row once, in order. */
  lemma {:induction false} FilterFitsIndexed(rows: seq<Row>, anchors: seq<WH>, thr: real)
    requires AnchorsIndexed(rows, anchors)
    ensures var ps := Where(FitMask(rows, anchors, thr));
      |FilterFits(rows, anchors, thr)| == |ps|
      && forall k :: 0 <= k < |ps| ==> FilterFits(rows, anchors, thr)[k] == rows[ps[k]]
    decreases |rows|
  {
    if |rows| > 0 {
      assert AnchorsIndexed(rows[1..], anchors);
      FilterFitsIndexed(rows[1..], anchors, thr);
      var mask := FitMask(rows, anchors, thr);
      assert mask[1..] == FitMask(rows[1..], anchors, thr);
      var rest := Where(mask[1..]);
      var head: seq<nat> := if mask[0] then [0] else [];
      assert head + Successors(rest) == Where(mask);
      var first := if Keep(rows[0], anchors, thr) then [rows[0]] else [];
      var more := FilterFits(rows[1..], anchors, thr);
      assert first + more == FilterFits(rows, anchors, thr);
      ShiftedPick(rows, head, rest, first, more);
    }
  }

  /** Membership in the filtered rows, in terms of the targets and anchors. */
  lemma KeptMembership(ts: seq<Target>, anchors: seq<WH>, g: Grid, thr: real)
    ensures forall r :: r in Kept(ts, anchors, g, thr) <==>
      exists k, a :: 0 <= k < |ts| && 0 <= a < |anchors| && r == Candidate(ts[k], a, g)
        && Keep(Candidate(ts[k], a, g), anchors, thr)
  {
    ReplicateIndexed(ts, |anchors|, g);
    GridRowsMembership(ts, |anchors|, g);
  }

  /** The five blocks hold exactly the assignments of the selected (row, direction) pairs. */
  lemma AllDirectionsMembership(kept: seq<Row>, g: Grid, anchors: seq<WH>)
    requires AnchorsIndexed(kept, anchors)
    ensures forall x :: x in AllDirections(kept, g, anchors) <==>
      exists r, d :: r in kept && r.a < |anchors| && Selected(r, d, g) && x == Assign(r, d, anchors)
  {
    ExpandMembership(kept, Origin, g, anchors);
    ExpandMembership(kept, Left, g, anchors);
    ExpandMembership(kept, Up, g, anchors);
    ExpandMembership(kept, Right, g, anchors);
    ExpandMembership(kept, Down, g, anchors);
    forall x | exists r, d :: r in kept && r.a < |anchors| && Selected(r, d, g) && x == Assign(r, d, anchors)
      ensures x in AllDirections(kept, g, anchors)
    {
      var r, d :| r in kept && r.a < |anchors| && Selected(r, d, g) && x == Assign(r, d, anchors);
      match d
      case Origin => assert x in Expand(kept, Origin, g, anchors);
      case Left => assert x in Expand(kept, Left, g, anchors);
      case Up => assert x in Expand(kept, Up, g, anchors);
      case Right => assert x in Expand(kept, Right, g, anchors);
      case Down => assert x in Expand(kept, Down, g, anchors);
    }
  }

  /** An assignment is emitted at a scale exactly when it is the assignment of some target with
      some anchor whose shape it fits, for some direction whose mask is set. So image, class and
      anchor index are those of a target, and every such (target, anchor, direction) is emitted. */
  lemma AssignmentMembership(ts: seq<Target>, anchors: seq<WH>, g: Grid, thr: real, x: Assignment)
    ensures x in ScaleAssignments(ts, anchors, g, thr) <==> Emits(ts, anchors, g, thr, x)
  {
    if x in ScaleAssignments(ts, anchors, g, thr) {
      AssignmentSound(ts, anchors, g, thr, x);
    }
    if Emits(ts, anchors, g, thr, x) {
      AssignmentComplete(ts, anchors, g, thr, x);
    }
  }

  /** Some target, some anchor it fits and some selected direction give assignment `x`. */
  predicate Emits(ts: seq<Target>, anchors: seq<WH>, g: Grid, thr: real, x: Assignment)
  {
    exists k, a, d :: 0 <= k < |ts| && 0 <= a < |anchors| && Keep(Candidate(ts[k], a, g), anchors, thr)
      && Selected(Candidate(ts[k], a, g), d, g) && x == Assign(Candidate(ts[k], a, g), d, anchors)
  }

  lemma AssignmentSound(ts: seq<Target>, anchors: seq<WH>, g: Grid, thr: real, x: Assignment)
    requires x in ScaleAssignments(ts, anchors, g, thr)
    ensures Emits(ts, anchors, g, thr, x)
  {
    var kept := Kept(ts, anchors, g, thr);
    KeptMembership(ts, anchors, g, thr);
    AllDirectionsMembership(kept, g, anchors);
    var r, d :| r in kept && r.a < |anchors| && Selected(r, d, g) && x == Assign(r, d, anchors);
    var k, a :| 0 <= k < |ts| && 0 <= a < |anchors| && r == Candidate(ts[k], a, g)
      && Keep(Candidate(ts[k], a, g), anchors, thr);
  }

  lemma AssignmentComplete(ts: seq<Target>, anchors: seq<WH>, g: Grid, thr: real, x: Assignment)
    requires Emits(ts, anchors, g, thr, x)
    ensures x in ScaleAssignments(ts, anchors, g, thr)
  {
    var k, a, d :| 0 <= k < |ts| && 0 <= a < |anchors| && Keep(Candidate(ts[k], a, g), anchors, thr)
      && Selected(Candidate(ts[k], a, g), d, g) && x == Assign(Candidate(ts[k], a, g), d, anchors);
    var kept := Kept(ts, anchors, g, thr);
    KeptMembership(ts, anchors, g, thr);
    AllDirectionsMembership(kept, g, anchors);
    assert Candidate(ts[k], a, g) in kept;
  }

  /** Zero ground truths give zero assignments at every scale, not an error. */
  lemma NoTargetsNoAssignments(anchors: seq<WH>, g: Grid, thr: real)
    ensures ScaleAssignments([], anchors, g, thr) == []
  {
  }

  // ----- cell geometry -----

  /** Floor of an integer plus a fraction in [0, 1). */
  lemma FloorShift(i: int, f: real)
    requires 0.0 <= f < 1.0
    ensures (i as real + f).Floor == i
  {
  }

  /** `(n - v) % 1` for an integer n: 0 when v is integral, otherwise 1 - (v % 1). */
  lemma FracComplement(n: int, v: real)
    ensures Frac(v) == 0.0 ==> Frac(n as real - v) == 0.0
    ensures Frac(v) != 0.0 ==> Frac(n as real - v) == 1.0 - Frac(v)
  {
    var fl, f := v.Floor, Frac(v);
    if f == 0.0 {
      FloorShift(n - fl, 0.0);
      assert n as real - v == (n - fl) as real + 0.0;
    } else {
      FloorShift(n - fl - 1, 1.0 - f);
      assert n as real - v == (n - fl - 1) as real + (1.0 - f);
    }
  }

  /** The left (or upper) neighbour: offset +0.5 moves a coordinate with fraction below 0.5 one
      cell down. */
  lemma CellBelow(v: real)
    requires v > 1.0 && Frac(v) < 0.5
    ensures Trunc(v - 0.5) == v.Floor - 1
  {
    FloorShift(v.Floor - 1, Frac(v) + 0.5);
    assert v - 0.5 == (v.Floor - 1) as real + (Frac(v) + 0.5);
  }

  /** The right (or lower) neighbour: offset -0.5 moves a coordinate with fraction above 0.5 one
      cell up, and leaves an integral coordinate in its own cell. */
  lemma CellAbove(v: real, n: nat)
    requires v >= 0.0 && Frac(n as real - v) < 0.5
    ensures Frac(v) == 0.0 ==> Trunc(v - -0.5) == v.Floor
    ensures Frac(v) != 0.0 ==> Frac(v) > 0.5 && Trunc(v - -0.5) == v.Floor + 1
  {
    FracComplement(n, v);
    if Frac(v) == 0.0 {
      FloorShift(v.Floor, 0.5);
      assert v - -0.5 == v.Floor as real + 0.5;
    } else {
      FloorShift(v.Floor + 1, Frac(v) - 0.5);
      assert v - -0.5 == (v.Floor + 1) as real + (Frac(v) - 0.5);
    }
  }

  /** The horizontal cells of one row (the vertical ones are symmetric): the own cell is floor(gx);
      the left neighbour is one cell left; the right neighbour is one cell right, except that an
      integral gx puts it back in the own cell; and unless gx is integral at most one of the two
      is added. */
  lemma HorizontalCells(r: Row, g: Grid, anchors: seq<WH>)
    requires r.a < |anchors| && r.x >= 0.0
    ensures Assign(r, Origin, anchors).gi == r.x.Floor
    ensures Assign(r, Up, anchors).gi == r.x.Floor && Assign(r, Down, anchors).gi == r.x.Floor
    ensures Selected(r, Left, g) ==> Assign(r, Left, anchors).gi == r.x.Floor - 1
    ensures Selected(r, Right, g) && Frac(r.x) != 0.0 ==> Assign(r, Right, anchors).gi == r.x.Floor + 1
    ensures Selected(r, Right, g) && Frac(r.x) == 0.0 ==> Assign(r, Right, anchors).gi == r.x.Floor
    ensures Frac(r.x) != 0.0 ==> !(Selected(r, Left, g) && Selected(r, Right, g))
  {
    if Selected(r, Left, g) {
      CellBelow(r.x);
    }
    if Selected(r, Right, g) {
      CellAbove(r.x, g.nx);
    }
  }

  lemma VerticalCells(r: Row, g: Grid, anchors: seq<WH>)
    requires r.a < |anchors| && r.y >= 0.0
    ensures Assign(r, Origin, anchors).gj == r.y.Floor
    ensures Assign(r, Left, anchors).gj == r.y.Floor && Assign(r, Right, anchors).gj == r.y.Floor
    ensures Selected(r, Up, g) ==> Assign(r, Up, anchors).gj == r.y.Floor - 1
    ensures Selected(r, Down, g) && Frac(r.y) != 0.0 ==> Assign(r, Down, anchors).gj == r.y.Floor + 1
    ensures Selected(r, Down, g) && Frac(r.y) == 0.0 ==> Assign(r, Down, anchors).gj == r.y.Floor
    ensures Frac(r.y) != 0.0 ==> !(Selected(r, Up, g) && Selected(r, Down, g))
  {
    if Selected(r, Up, g) {
      CellBelow(r.y);
    }
    if Selected(r, Down, g) {
      CellAbove(r.y, g.ny);
    }
  }

  /** A centre exactly halfway inside its cell on both axes gets its own cell only. */
  lemma HalfwayOnlyOrigin(r: Row, g: Grid, d: Direction)
    requires Frac(r.x) == 0.5 && Frac(r.y) == 0.5
    ensures Selected(r, d, g) <==> d == Origin
  {
    FracComplement(g.nx, r.x);
    FracComplement(g.ny, r.y);
  }

  /** What every emitted assignment satisfies: its anchor shape is the anchor it names; its
      regression box has the target's grid size and the offset of the centre from the chosen
      cell, within (-0.5, 1.5) on both axes (the range of the `sigmoid * 2 - 0.5` decode); and
      the chosen cell shares a row or a column with the centre's own cell (no diagonal). */
  predicate WellPlaced(x: Assignment, anchors: seq<WH>)
  {
    && x.anchor < |anchors| && x.anchorShape == anchors[x.anchor]
    && x.tbox.w == x.ttar.w && x.tbox.h == x.ttar.h
    && x.tbox.x == x.ttar.x - x.gi as real && x.tbox.y == x.ttar.y - x.gj as real
    && (x.gi == x.ttar.x.Floor || x.gj == x.ttar.y.Floor)
    && -0.5 < x.tbox.x < 1.5 && -0.5 < x.tbox.y < 1.5
  }

  /** One axis of one assignment: the cell index is `(v - off).long()` for the direction's
      offset, and the offset of v inside that cell lies in (-0.5, 1.5). */
  lemma AxisCell(v: real, off: real, n: nat, c: int)
    requires v >= 0.0 && c == Trunc(v - off)
    requires off == 0.0 || (off == 0.5 && v > 1.0 && Frac(v) < 0.5) || (off == -0.5 && Frac(n as real - v) < 0.5)
    ensures off == 0.0 ==> c == v.Floor
    ensures -0.5 < v - c as real < 1.5
  {
    if off == 0.5 {
      CellBelow(v);
    } else if off == -0.5 {
      CellAbove(v, n);
    }
  }

  lemma AssignWellPlaced(r: Row, d: Direction, g: Grid, anchors: seq<WH>)
    requires r.a < |anchors| && r.x >= 0.0 && r.y >= 0.0 && Selected(r, d, g)
    ensures WellPlaced(Assign(r, d, anchors), anchors)
  {
    var x := Assign(r, d, anchors);
    AxisCell(r.x, OffsetX(d), g.nx, x.gi);
    AxisCell(r.y, OffsetY(d), g.ny, x.gj);
  }

  /** Candidates of targets with non-negative centres have non-negative grid centres. */
  lemma CandidateNonNegative(t: Target, a: nat, g: Grid)
    requires t.x >= 0.0 && t.y >= 0.0
    ensures Candidate(t, a, g).x >= 0.0 && Candidate(t, a, g).y >= 0.0
  {
    MulNonNegative(t.x, g.nx as real);
    MulNonNegative(t.y, g.ny as real);
  }

  lemma AssignmentWellPlaced(ts: seq<Target>, anchors: seq<WH>, g: Grid, thr: real, x: Assignment)
    requires forall k :: 0 <= k < |ts| ==> ts[k].x >= 0.0 && ts[k].y >= 0.0
    requires Emits(ts, anchors, g, thr, x)
    ensures WellPlaced(x, anchors)
  {
    var k, a, d :| 0 <= k < |ts| && 0 <= a < |anchors| && Keep(Candidate(ts[k], a, g), anchors, thr)
      && Selected(Candidate(ts[k], a, g), d, g) && x == Assign(Candidate(ts[k], a, g), d, anchors);
    CandidateNonNegative(ts[k], a, g);
    AssignWellPlaced(Candidate(ts[k], a, g), d, g, anchors);
  }

  /** Every assignment emitted for targets with non-negative centres is well placed. */
  lemma ScaleAssignmentsWellPlaced(ts: seq<Target>, anchors: seq<WH>, g: Grid, thr: real, x: Assignment)
    requires forall k :: 0 <= k < |ts| ==> ts[k].x >= 0.0 && ts[k].y >= 0.0
    requires x in ScaleAssignments(ts, anchors, g, thr)
    ensures WellPlaced(x, anchors)
  {
    AssignmentSound(ts, anchors, g, thr, x);
    AssignmentWellPlaced(ts, anchors, g, thr, x);
  }

  /** One axis: a coordinate inside the grid gives a cell index inside it, for each selected
      direction. (The source does not clamp the indices; at v == n the own cell would be n.) */
  lemma AxisInGrid(v: real, off: real, n: nat, c: int)
    requires 0.0 <= v < n as real && c == Trunc(v - off)
    requires off == 0.0 || (off == 0.5 && v > 1.0 && Frac(v) < 0.5)
          || (off == -0.5 && Frac(n as real - v) < 0.5 && n as real - v > 1.0)
    ensures 0 <= c < n
  {
    if off == 0.5 {
      CellBelow(v);
    } else if off == -0.5 {
      CellAbove(v, n);
    }
  }

  /** The cell of every selected direction lies inside the grid. */
  predicate InGrid(x: Assignment, g: Grid)
  {
    0 <= x.gi < g.nx && 0 <= x.gj < g.ny
  }

  lemma AssignInGrid(r: Row, d: Direction, g: Grid, anchors: seq<WH>)
    requires r.a < |anchors| && 0.0 <= r.x < g.nx as real && 0.0 <= r.y < g.ny as real && Selected(r, d, g)
    ensures InGrid(Assign(r, d, anchors), g)
  {
    var x := Assign(r, d, anchors);
    AxisInGrid(r.x, OffsetX(d), g.nx, x.gi);
    AxisInGrid(r.y, OffsetY(d), g.ny, x.gj);
  }

  /** Normalised coordinates in [0, 1) land inside a non-empty grid. */
  lemma ScaledInside(v: real, n: nat)
    requires 0.0 <= v < 1.0 && n > 0
    ensures 0.0 <= v * n as real < n as real
  {
    MulNonNegative(v, n as real);
    MulPositive(1.0 - v, n as real);
    assert (1.0 - v) * n as real == n as real - v * n as real;
  }

  lemma CandidateInside(t: Target, a: nat, g: Grid)
    requires g.nx > 0 && g.ny > 0 && 0.0 <= t.x < 1.0 && 0.0 <= t.y < 1.0
    ensures 0.0 <= Candidate(t, a, g).x < g.nx as real && 0.0 <= Candidate(t, a, g).y < g.ny as real
  {
    var c := Candidate(t, a, g);
    var x, y := t.x * g.nx as real, t.y * g.ny as real;
    ScaledInside(t.x, g.nx);
    ScaledInside(t.y, g.ny);
    assert 0.0 <= x < g.nx as real && 0.0 <= y < g.ny as real;
    assert c.x == x && c.y == y;
  }

  lemma AssignmentInGrid(ts: seq<Target>, anchors: seq<WH>, g: Grid, thr: real, x: Assignment)
    requires g.nx > 0 && g.ny > 0
    requires forall k :: 0 <= k < |ts| ==> 0.0 <= ts[k].x < 1.0 && 0.0 <= ts[k].y < 1.0
    requires Emits(ts, anchors, g, thr, x)
    ensures InGrid(x, g)
  {
    var k, a, d :| 0 <= k < |ts| && 0 <= a < |anchors| && Keep(Candidate(ts[k], a, g), anchors, thr)
      && Selected(Candidate(ts[k], a, g), d, g) && x == Assign(Candidate(ts[k], a, g), d, anchors);
    CandidateInside(ts[k], a, g);
    AssignInGrid(Candidate(ts[k], a, g), d, g, anchors);
  }

  /** Targets with normalised centres in [0, 1) only ever index cells of the prediction grid. */
  lemma ScaleAssignmentsInGrid(ts: seq<Target>, anchors: seq<WH>, g: Grid, thr: real, x: Assignment)
    requires g.nx > 0 && g.ny > 0
    requires forall k :: 0 <= k < |ts| ==> 0.0 <= ts[k].x < 1.0 && 0.0 <= ts[k].y < 1.0
    requires x in ScaleAssignments(ts, anchors, g, thr)
    ensures InGrid(x, g)
  {
    AssignmentSound(ts, anchors, g, thr, x);
    AssignmentInGrid(ts, anchors, g, thr, x);
  }

  // ----- targets that fit no anchor -----

  lemma GridRowsConcat(a: seq<Row>, b: seq<Row>, g: Grid)
    ensures GridRows(a + b, g) == GridRows(a, g) + GridRows(b, g)
  {
  }

  lemma {:induction false} FilterConcat(a: seq<Row>, b: seq<Row>, anchors: seq<WH>, thr: real)
    requires AnchorsIndexed(a, anchors) && AnchorsIndexed(b, anchors)
    ensures AnchorsIndexed(a + b, anchors)
    ensures FilterFits(a + b, anchors, thr) == FilterFits(a, anchors, thr) + FilterFits(b, anchors, thr)
    decreases |a|
  {
    if |a| > 0 {
      assert (a + b)[1..] == a[1..] + b;
      assert (a + b)[0] == a[0];
      assert AnchorsIndexed(a[1..], anchors);
      FilterConcat(a[1..], b, anchors, thr);
    } else {
      assert a + b == b;
    }
  }

  /** The grid rows of na + 1 anchor blocks are those of na blocks followed by block na. */
  lemma ReplicateStep(ts: seq<Target>, a: nat, g: Grid)
    ensures GridRows(Replicate(ts, a + 1), g) == GridRows(Replicate(ts, a), g) + GridRows(Block(ts, a), g)
  {
    GridRowsConcat(Replicate(ts, a), Block(ts, a), g);
  }

  /** Block a of the targets with t appended, filtered, is block a without t when t does not
      fit anchor a. */
  lemma UnfitBlock(ts: seq<Target>, t: Target, a: nat, anchors: seq<WH>, g: Grid, thr: real)
    requires a < |anchors| && !Keep(Candidate(t, a, g), anchors, thr)
    ensures AnchorsIndexed(GridRows(Block(ts + [t], a), g), anchors)
    ensures AnchorsIndexed(GridRows(Block(ts, a), g), anchors)
    ensures FilterFits(GridRows(Block(ts + [t], a), g), anchors, thr) == FilterFits(GridRows(Block(ts, a), g), anchors, thr)
  {
    assert Block(ts + [t], a) == Block(ts, a) + [RowOf(t, a)];
    GridRowsConcat(Block(ts, a), [RowOf(t, a)], g);
    var last := GridRows([RowOf(t, a)], g);
    assert last == [Candidate(t, a, g)];
    FilterConcat(GridRows(Block(ts, a), g), last, anchors, thr);
  }

  /** The first na anchor blocks of the replicated targets, in grid units, with target t appended
      and filtered, are those without t, when t fits none of the anchors. */
  lemma {:induction false} UnfitTargetFiltered(ts: seq<Target>, t: Target, na: nat, anchors: seq<WH>, g: Grid, thr: real)
    requires na <= |anchors|
    requires forall a :: 0 <= a < |anchors| ==> !Keep(Candidate(t, a, g), anchors, thr)
    ensures AnchorsIndexed(GridRows(Replicate(ts + [t], na), g), anchors)
    ensures AnchorsIndexed(GridRows(Replicate(ts, na), g), anchors)
    ensures FilterFits(GridRows(Replicate(ts + [t], na), g), anchors, thr)
         == FilterFits(GridRows(Replicate(ts, na), g), anchors, thr)
    decreases na
  {
    ReplicateIndexed(ts + [t], na, g);
    ReplicateIndexed(ts, na, g);
    if na > 0 {
      var a := na - 1;
      UnfitTargetFiltered(ts, t, a, anchors, g, thr);
      UnfitBlock(ts, t, a, anchors, g, thr);
      ReplicateStep(ts + [t], a, g);
      ReplicateStep(ts, a, g);
      FilterConcat(GridRows(Replicate(ts + [t], a), g), GridRows(Block(ts + [t], a), g), anchors, thr);
      FilterConcat(GridRows(Replicate(ts, a), g), GridRows(Block(ts, a), g), anchors, thr);
    }
  }

  /** A ground truth that fits no anchor of a scale produces no assignment there: appending it
      to the targets leaves the scale's output unchanged. */
  lemma UnfitTargetContributesNothing(ts: seq<Target>, t: Target, anchors: seq<WH>, g: Grid, thr: real)
    requires forall a :: 0 <= a < |anchors| ==> !Fits(WH(t.w * g.nx as real, t.h * g.ny as real), anchors[a], thr)
    ensures ScaleAssignments(ts + [t], anchors, g, thr) == ScaleAssignments(ts, anchors, g, thr)
  {
    forall a | 0 <= a < |anchors|
      ensures !Keep(Candidate(t, a, g), anchors, thr)
    {
      assert WH(Candidate(t, a, g).w, Candidate(t, a, g).h) == WH(t.w * g.nx as real, t.h * g.ny as real);
    }
    UnfitTargetFiltered(ts, t, |anchors|, anchors, g, thr);
    if |ts| == 0 {
      EmptyReplicate(|anchors|);
      assert Kept(ts, anchors, g, thr) == [];
      assert Kept(ts + [t], anchors, g, thr) == [];
    }
  }

  lemma {:induction false} EmptyReplicate(na: nat)
    ensures Replicate([], na) == []
  {
    if na > 0 {
      EmptyReplicate(na - 1);
    }
  }

  // ----- the loop over scales -----

  function IndicesOf(xs: seq<Assignment>): (r: seq<Index>)
    ensures |r| == |xs| && forall k :: 0 <= k < |xs| ==> r[k] == Index(xs[k].img, xs[k].anchor, xs[k].gj, xs[k].gi)
  {
    seq(|xs|, k requires 0 <= k < |xs| => Index(xs[k].img, xs[k].anchor, xs[k].gj, xs[k].gi))
  }

  function TboxOf(xs: seq<Assignment>): (r: seq<XYWH>)
    ensures |r| == |xs| && forall k :: 0 <= k < |xs| ==> r[k] == xs[k].tbox
  {
    seq(|xs|, k requires 0 <= k < |xs| => xs[k].tbox)
  }

  function TtarOf(xs: seq<Assignment>): (r: seq<XYWH>)
    ensures |r| == |xs| && forall k :: 0 <= k < |xs| ==> r[k] == xs[k].ttar
  {
    seq(|xs|, k requires 0 <= k < |xs| => xs[k].ttar)
  }

  function AnchorsOf(xs: seq<Assignment>): (r: seq<WH>)
    ensures |r| == |xs| && forall k :: 0 <= k < |xs| ==> r[k] == xs[k].anchorShape
  {
    seq(|xs|, k requires 0 <= k < |xs| => xs[k].anchorShape)
  }

  function ClassesOf(xs: seq<Assignment>): (r: seq<nat>)
    ensures |r| == |xs| && forall k :: 0 <= k < |xs| ==> r[k] == xs[k].cls
  {
    seq(|xs|, k requires 0 <= k < |xs| => xs[k].cls)
  }

  /** The body of build_targets' scale loop for one scale, on the replicated rows built before
      the loop. */
  method ScaleStep(ts: seq<Target>, reps: seq<Row>, na: nat, anchors: seq<WH>, g: Grid, thr: real)
    returns (out: seq<Assignment>)
    requires reps == Replicate(ts, na) && |anchors| == na
    ensures out == ScaleAssignments(ts, anchors, g, thr)
  {
    if |ts| > 0 {
      var t := GridRows(reps, g);
      ReplicateIndexed(ts, na, g);
      var kept := FilterFits(t, anchors, thr);
      out := AllDirections(kept, g, anchors);
    } else {
      out := [];
    }
  }

  /** The five lists build_targets returns for one scale, read off its assignments. */
  predicate ScaleOutput(out: seq<Assignment>, tcls: seq<nat>, tbox: seq<XYWH>, indices: seq<Index>, anch: seq<WH>,
                        ttar: seq<XYWH>)
  {
    tcls == ClassesOf(out) && tbox == TboxOf(out) && indices == IndicesOf(out) && anch == AnchorsOf(out)
      && ttar == TtarOf(out)
  }

  /** build_targets(p, targets, model): the scale loop appending to the five output lists. The
      grids stand for the prediction shapes p[i].shape and `anchorsPerScale` for det.anchors. */
  method BuildTargets(ts: seq<Target>, na: nat, anchorsPerScale: seq<seq<WH>>, grids: seq<Grid>, thr: real)
    returns (tcls: seq<seq<nat>>, tbox: seq<seq<XYWH>>, indices: seq<seq<Index>>, anch: seq<seq<WH>>,
             ttar: seq<seq<XYWH>>)
    requires |anchorsPerScale| == |grids|
    requires forall i :: 0 <= i < |grids| ==> |anchorsPerScale[i]| == na
    ensures |tcls| == |grids| && |tbox| == |grids| && |indices| == |grids| && |anch| == |grids| && |ttar| == |grids|
    ensures forall i :: 0 <= i < |grids| ==>
      ScaleOutput(ScaleAssignments(ts, anchorsPerScale[i], grids[i], thr), tcls[i], tbox[i], indices[i], anch[i], ttar[i])
  {
    var reps := Replicate(ts, na);
    tcls, tbox, indices, anch, ttar := [], [], [], [], [];
    var i := 0;
    while i < |grids|
      invariant 0 <= i <= |grids|
      invariant |tcls| == i && |tbox| == i && |indices| == i && |anch| == i && |ttar| == i
      invariant forall j :: 0 <= j < i ==>
        ScaleOutput(ScaleAssignments(ts, anchorsPerScale[j], grids[j], thr), tcls[j], tbox[j], indices[j], anch[j], ttar[j])
    {
      var out := ScaleStep(ts, reps, na, anchorsPerScale[i], grids[i], thr);
      tcls, tbox, indices := tcls + [ClassesOf(out)], tbox + [TboxOf(out)], indices + [IndicesOf(out)];
      anch, ttar := anch + [AnchorsOf(out)], ttar + [TtarOf(out)];
      i := i + 1;
    }
  }
}
