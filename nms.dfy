/** The deterministic pipeline of non_max_suppression around torchvision's suppression call:
    the confidence filter, the obj x cls score, multi-label expansion or best class, the class
    allow-list, the class offset, the detection cap and the redundancy filter of merge mode, and
    the loop over the images of a batch. */
module Nms {
  import opened RealMath
  import opened Wrappers
  import opened Boxes
  import opened Iou
  import opened Positions

  /** One prediction row: centre box, objectness and per-class probabilities. */
  datatype Pred = Pred(box: XYWH, obj: real, cls: seq<real>)

  /** One detection row (x1, y1, x2, y2, conf, cls). */
  datatype Det = Det(box: XYXY, conf: real, cls: nat)

  /** conf_thres, iou_thres, merge, classes (empty for None) and agnostic. */
  datatype Params = Params(confThres: real, iouThres: real, merge: bool, classes: seq<nat>, agnostic: bool)

  /** max_wh, the class offset. */
  const MaxWh: real := 4096.0

  /** max_det, the detection cap per image. */
  const MaxDet: nat := 300

  /** time_limit, in seconds. */
  const TimeLimit: real := 10.0

  /** Merge mode applies only to more than 1 and fewer than 3E3 boxes. */
  const MergeMax: nat := 3000

  /** Every row of an image has nc class probabilities. */
  predicate Shaped(x: seq<Pred>, nc: nat)
  {
    forall k :: 0 <= k < |x| ==> |x[k].cls| == nc
  }

  // ----- front end -----

  /** `x = x[xc[xi]]`: the rows whose objectness exceeds conf_thres, in order. */
  function ConfFilter(xs: seq<Pred>, thr: real): (r: seq<Pred>)
    ensures |r| <= |xs|
    ensures forall p :: p in r <==> p in xs && p.obj > thr
    ensures |r| == 0 <==> forall k :: 0 <= k < |xs| ==> xs[k].obj <= thr
  {
    if |xs| == 0 then []
    else (if xs[0].obj > thr then [xs[0]] else []) + ConfFilter(xs[1..], thr)
  }

  /** `x[:, 5:] *= x[:, 4:5]`: each class conf is the class probability times the objectness. */
  function Scores(p: Pred): (s: seq<real>)
    ensures |s| == |p.cls| && forall j :: 0 <= j < |p.cls| ==> s[j] == p.cls[j] * p.obj
  {
    seq(|p.cls|, j requires 0 <= j < |p.cls| => p.cls[j] * p.obj)
  }

  /** The classes j < n whose score exceeds thr, ascending (one row of `nonzero()`). */
  function Above(s: seq<real>, thr: real, n: nat): (js: seq<nat>)
    requires n <= |s|
    ensures forall k :: 0 <= k < |js| ==> js[k] < n
    ensures forall k, l :: 0 <= k < l < |js| ==> js[k] < js[l]
    ensures forall j: nat :: j in js <==> j < n && s[j] > thr
  {
    if n == 0 then []
    else Above(s, thr, n - 1) + (if s[n - 1] > thr then [n - 1] else [])
  }

  /** The multi-label rows of one prediction: one detection per class above the threshold, in
      class order. */
  function RowDets(p: Pred, thr: real): (r: seq<Det>)
    ensures var js := Above(Scores(p), thr, |p.cls|);
      |r| == |js| && forall k :: 0 <= k < |js| ==> r[k] == Det(ToCorners(p.box), Scores(p)[js[k]], js[k])
  {
    var s := Scores(p);
    var js := Above(s, thr, |s|);
    seq(|js|, k requires 0 <= k < |js| => Det(ToCorners(p.box), s[js[k]], js[k]))
  }

  /** A row's detections are its classes above the threshold with their scores. */
  lemma RowDetsMembership(p: Pred, thr: real, d: Det)
    ensures d in RowDets(p, thr) <==>
      exists j :: 0 <= j < |p.cls| && Scores(p)[j] > thr && d == Det(ToCorners(p.box), Scores(p)[j], j)
  {
    var s := Scores(p);
    var js := Above(s, thr, |p.cls|);
    var r := RowDets(p, thr);
    if d in r {
      var k :| 0 <= k < |r| && r[k] == d;
      assert js[k] in js;
    }
    if exists j :: 0 <= j < |p.cls| && s[j] > thr && d == Det(ToCorners(p.box), s[j], j) {
      var j :| 0 <= j < |p.cls| && s[j] > thr && d == Det(ToCorners(p.box), s[j], j);
      var k :| 0 <= k < |js| && js[k] == j;
      assert r[k] == d;
    }
  }

  /** `i, j = (x[:, 5:] > conf_thres).nonzero().T`: the (row, class) pairs in row-major order. */
  function MultiLabel(xs: seq<Pred>, thr: real): seq<Det>
  {
    if |xs| == 0 then [] else RowDets(xs[0], thr) + MultiLabel(xs[1..], thr)
  }

  /** Multi-label mode emits a detection for a (box, class) pair exactly when its score exceeds
      the threshold. */
  lemma MultiLabelMembership(xs: seq<Pred>, thr: real, d: Det)
    ensures d in MultiLabel(xs, thr) <==>
      exists i, j :: 0 <= i < |xs| && 0 <= j < |xs[i].cls| && Scores(xs[i])[j] > thr
                     && d == Det(ToCorners(xs[i].box), Scores(xs[i])[j], j)
  {
    if d in MultiLabel(xs, thr) {
      MultiLabelSound(xs, thr, d);
    }
    if exists i, j :: 0 <= i < |xs| && 0 <= j < |xs[i].cls| && Scores(xs[i])[j] > thr
                      && d == Det(ToCorners(xs[i].box), Scores(xs[i])[j], j) {
      var i, j :| 0 <= i < |xs| && 0 <= j < |xs[i].cls| && Scores(xs[i])[j] > thr
                  && d == Det(ToCorners(xs[i].box), Scores(xs[i])[j], j);
      MultiLabelComplete(xs, thr, i, j);
    }
  }

  /** Every multi-label row is a (box, class) pair scoring above the threshold. */
  lemma {:induction false} MultiLabelSound(xs: seq<Pred>, thr: real, d: Det)
    requires d in MultiLabel(xs, thr)
    ensures exists i, j :: 0 <= i < |xs| && 0 <= j < |xs[i].cls| && Scores(xs[i])[j] > thr
                           && d == Det(ToCorners(xs[i].box), Scores(xs[i])[j], j)
  {
    RowDetsMembership(xs[0], thr, d);
    if d in RowDets(xs[0], thr) {
      var j :| 0 <= j < |xs[0].cls| && Scores(xs[0])[j] > thr && d == Det(ToCorners(xs[0].box), Scores(xs[0])[j], j);
      assert 0 <= 0 < |xs|;
    } else {
      MultiLabelSound(xs[1..], thr, d);
      var i, j :| 0 <= i < |xs[1..]| && 0 <= j < |xs[1..][i].cls| && Scores(xs[1..][i])[j] > thr
                  && d == Det(ToCorners(xs[1..][i].box), Scores(xs[1..][i])[j], j);
      assert xs[1..][i] == xs[i + 1];
    }
  }

  /** Every (box, class) pair scoring above the threshold is a multi-label row. */
  lemma {:induction false} MultiLabelComplete(xs: seq<Pred>, thr: real, i: nat, j: nat)
    requires i < |xs| && j < |xs[i].cls| && Scores(xs[i])[j] > thr
    ensures Det(ToCorners(xs[i].box), Scores(xs[i])[j], j) in MultiLabel(xs, thr)
  {
    var d := Det(ToCorners(xs[i].box), Scores(xs[i])[j], j);
    if i == 0 {
      RowDetsMembership(xs[0], thr, d);
    } else {
      assert xs[1..][i - 1] == xs[i];
      MultiLabelComplete(xs[1..], thr, i - 1, j);
    }
  }

  /** The (row, class) pairs `nonzero()` returns, row-major: the source of each multi-label row. */
  function LabelPairs(xs: seq<Pred>, thr: real): (ps: seq<(nat, nat)>)
    ensures forall k :: 0 <= k < |ps| ==> ps[k].0 < |xs| && ps[k].1 < |xs[ps[k].0].cls|
  {
    if |xs| == 0 then []
    else
      var rest := LabelPairs(xs[1..], thr);
      assert forall k :: 0 <= k < |rest| ==> xs[1..][rest[k].0] == xs[rest[k].0 + 1];
      FirstRowPairs(Above(Scores(xs[0]), thr, |xs[0].cls|)) + NextRows(rest)
  }

  /** The pairs of row 0 for the classes js. */
  function FirstRowPairs(js: seq<nat>): (ps: seq<(nat, nat)>)
    ensures |ps| == |js| && forall k :: 0 <= k < |js| ==> ps[k] == (0, js[k])
  {
    seq(|js|, k requires 0 <= k < |js| => (0, js[k]))
  }

  /** The pairs of the remaining rows, renumbered after row 0. */
  function NextRows(ps: seq<(nat, nat)>): (qs: seq<(nat, nat)>)
    ensures |qs| == |ps| && forall k :: 0 <= k < |ps| ==> qs[k] == (ps[k].0 + 1, ps[k].1)
  {
    seq(|ps|, k requires 0 <= k < |ps| => (ps[k].0 + 1, ps[k].1))
  }

  /** Row-major order on (row, class) pairs. */
  predicate RowMajorBefore(a: (nat, nat), b: (nat, nat))
  {
    a.0 < b.0 || (a.0 == b.0 && a.1 < b.1)
  }

  predicate RowMajorIncreasing(ps: seq<(nat, nat)>)
  {
    forall k, l :: 0 <= k < l < |ps| ==> RowMajorBefore(ps[k], ps[l])
  }

  /** The pairs are strictly increasing in row-major order, so no pair occurs twice. */
  lemma {:induction false} LabelPairsIncreasing(xs: seq<Pred>, thr: real)
    ensures RowMajorIncreasing(LabelPairs(xs, thr))
  {
    if |xs| > 0 {
      LabelPairsIncreasing(xs[1..], thr);
      var js := Above(Scores(xs[0]), thr, |xs[0].cls|);
      var rest := LabelPairs(xs[1..], thr);
      RowMajorStep(js, rest);
      assert FirstRowPairs(js) + NextRows(rest) == LabelPairs(xs, thr);
    }
  }

  /** Row 0's pairs, for increasing classes, in front of the renumbered pairs of the remaining
      rows keep row-major order. */
  lemma RowMajorStep(js: seq<nat>, rest: seq<(nat, nat)>)
    requires forall k, l :: 0 <= k < l < |js| ==> js[k] < js[l]
    requires RowMajorIncreasing(rest)
    ensures RowMajorIncreasing(FirstRowPairs(js) + NextRows(rest))
  {
    var head, tail := FirstRowPairs(js), NextRows(rest);
    var ps := head + tail;
    forall k, l | 0 <= k < l < |ps|
      ensures RowMajorBefore(ps[k], ps[l])
    {
      if l < |js| {
        assert ps[k] == head[k] && ps[l] == head[l];
      } else if k < |js| {
        assert ps[k] == head[k] && ps[l] == tail[l - |js|];
      } else {
        assert ps[k] == tail[k - |js|] && ps[l] == tail[l - |js|];
        assert RowMajorBefore(rest[k - |js|], rest[l - |js|]);
      }
    }
  }

  /** A pair is listed exactly when its class score exceeds the threshold. */
  lemma {:induction false} LabelPairsMembership(xs: seq<Pred>, thr: real, i: nat, j: nat)
    ensures (i, j) in LabelPairs(xs, thr) <==> i < |xs| && j < |xs[i].cls| && Scores(xs[i])[j] > thr
  {
    if |xs| > 0 {
      var js := Above(Scores(xs[0]), thr, |xs[0].cls|);
      var rest := LabelPairs(xs[1..], thr);
      var head, tail := FirstRowPairs(js), NextRows(rest);
      var ps := head + tail;
      assert ps == LabelPairs(xs, thr);
      if i == 0 {
        HeadRowMembership(js, head, tail, j);
      } else {
        LabelPairsMembership(xs[1..], thr, i - 1, j);
        if i < |xs| {
          assert xs[1..][i - 1] == xs[i];
        }
        NextRowMembership(rest, head, tail, i, j);
      }
    }
  }

  lemma HeadRowMembership(js: seq<nat>, head: seq<(nat, nat)>, tail: seq<(nat, nat)>, j: nat)
    requires head == FirstRowPairs(js) && forall k :: 0 <= k < |tail| ==> tail[k].0 > 0
    ensures (0, j) in head + tail <==> j in js
  {
    var ps := head + tail;
    if (0, j) in ps {
      var k :| 0 <= k < |ps| && ps[k] == (0, j);
      assert js[k] in js;
    }
    if j in js {
      var k :| 0 <= k < |js| && js[k] == j;
      assert ps[k] == (0, j);
    }
  }

  lemma NextRowMembership(rest: seq<(nat, nat)>, head: seq<(nat, nat)>, tail: seq<(nat, nat)>, i: nat, j: nat)
    requires tail == NextRows(rest) && i > 0 && forall k :: 0 <= k < |head| ==> head[k].0 == 0
    ensures (i, j) in head + tail <==> (i - 1, j) in rest
  {
    var ps := head + tail;
    if (i, j) in ps {
      var k :| 0 <= k < |ps| && ps[k] == (i, j);
      assert ps[k] == tail[k - |head|];
      assert rest[k - |head|] == (i - 1, j);
    }
    if (i - 1, j) in rest {
      var k :| 0 <= k < |rest| && rest[k] == (i - 1, j);
      assert ps[|head| + k] == (i, j);
    }
  }

  /** Multi-label row k is the detection of the k-th listed (row, class) pair: together with
      LabelPairsIncreasing and LabelPairsMembership, one row per qualifying pair, in order. */
  lemma {:induction false} MultiLabelIndexed(xs: seq<Pred>, thr: real)
    ensures var ps := LabelPairs(xs, thr);
      |MultiLabel(xs, thr)| == |ps|
      && forall k :: 0 <= k < |ps| ==>
        MultiLabel(xs, thr)[k] == Det(ToCorners(xs[ps[k].0].box), Scores(xs[ps[k].0])[ps[k].1], ps[k].1)
  {
    if |xs| > 0 {
      MultiLabelIndexed(xs[1..], thr);
      var js := Above(Scores(xs[0]), thr, |xs[0].cls|);
      var rest := LabelPairs(xs[1..], thr);
      var head, tail := FirstRowPairs(js), NextRows(rest);
      var ps := head + tail;
      assert ps == LabelPairs(xs, thr);
      var row, more := RowDets(xs[0], thr), MultiLabel(xs[1..], thr);
      var m := row + more;
      assert m == MultiLabel(xs, thr);
      forall k | 0 <= k < |ps|
        ensures m[k] == Det(ToCorners(xs[ps[k].0].box), Scores(xs[ps[k].0])[ps[k].1], ps[k].1)
      {
        if k < |js| {
          assert m[k] == row[k] && ps[k] == head[k];
        } else {
          assert m[k] == more[k - |js|] && ps[k] == tail[k - |js|];
          assert xs[1..][rest[k - |js|].0] == xs[ps[k].0];
        }
      }
    }
  }

  /** `x[:, 5:].max(1)`: the first index of a largest score. */
  function ArgMax(s: seq<real>): (j: nat)
    requires |s| > 0
    ensures j < |s| && (forall k :: 0 <= k < |s| ==> s[k] <= s[j]) && (forall k :: 0 <= k < j ==> s[k] < s[j])
  {
    if |s| == 1 then 0
    else
      var j := ArgMax(s[..|s| - 1]);
      assert forall k :: 0 <= k < |s| - 1 ==> s[k] == s[..|s| - 1][k];
      if s[|s| - 1] > s[j] then |s| - 1 else j
  }

  /** A box's largest class score, `conf` of `x[:, 5:].max(1)`. */
  function Top(p: Pred): real
    requires |p.cls| > 0
  {
    Scores(p)[ArgMax(Scores(p))]
  }

  /** The best-class detection of a box: its largest score and the first class reaching it. */
  function BestDet(p: Pred): Det
    requires |p.cls| > 0
  {
    Det(ToCorners(p.box), Top(p), ArgMax(Scores(p)))
  }

  /** Best-class mode: one row per box, its largest score and that class, if above threshold. */
  function BestClass(xs: seq<Pred>, thr: real): seq<Det>
    requires forall k :: 0 <= k < |xs| ==> |xs[k].cls| > 0
  {
    if |xs| == 0 then []
    else (if Top(xs[0]) > thr then [BestDet(xs[0])] else []) + BestClass(xs[1..], thr)
  }

  /** A best-class row is a box with its top score above the threshold, and that class. */
  lemma {:induction false} BestClassMembership(xs: seq<Pred>, thr: real, d: Det)
    requires forall k :: 0 <= k < |xs| ==> |xs[k].cls| > 0
    ensures d in BestClass(xs, thr) <==>
      exists i :: 0 <= i < |xs| && Top(xs[i]) > thr && d == BestDet(xs[i])
  {
    if |xs| > 0 {
      BestClassMembership(xs[1..], thr, d);
      if exists i :: 0 <= i < |xs| && Top(xs[i]) > thr && d == BestDet(xs[i]) {
        var i :| 0 <= i < |xs| && Top(xs[i]) > thr && d == BestDet(xs[i]);
        if i > 0 {
          assert xs[1..][i - 1] == xs[i];
        }
      }
    }
  }

  /** The rows best-class mode keeps: those whose top score exceeds the threshold, ascending. */
  function BestRows(xs: seq<Pred>, thr: real): (rows: seq<nat>)
    requires forall k :: 0 <= k < |xs| ==> |xs[k].cls| > 0
    ensures forall k :: 0 <= k < |rows| ==> rows[k] < |xs|
  {
    if |xs| == 0 then []
    else (if Top(xs[0]) > thr then [0] else []) + Successors(BestRows(xs[1..], thr))
  }

  /** The kept rows are strictly increasing, so best-class mode emits at most one row per box. */
  lemma {:induction false} BestRowsAscending(xs: seq<Pred>, thr: real)
    requires forall k :: 0 <= k < |xs| ==> |xs[k].cls| > 0
    ensures Ascending(BestRows(xs, thr))
  {
    if |xs| > 0 {
      BestRowsAscending(xs[1..], thr);
      var head: seq<nat> := if Top(xs[0]) > thr then [0] else [];
      var rest := BestRows(xs[1..], thr);
      var tail := Successors(rest);
      var rows := head + tail;
      assert rows == BestRows(xs, thr);
      forall k, l | 0 <= k < l < |rows|
        ensures rows[k] < rows[l]
      {
        assert rows[l] == tail[l - |head|];
        if k >= |head| {
          assert rows[k] == tail[k - |head|];
          assert rest[k - |head|] < rest[l - |head|];
        }
      }
    }
  }

  /** A row is kept exactly when its top score exceeds the threshold. */
  lemma {:induction false} BestRowsMembership(xs: seq<Pred>, thr: real, i: nat)
    requires forall k :: 0 <= k < |xs| ==> |xs[k].cls| > 0
    ensures i in BestRows(xs, thr) <==> i < |xs| && Top(xs[i]) > thr
  {
    if |xs| > 0 {
      var head: seq<nat> := if Top(xs[0]) > thr then [0] else [];
      var rest := BestRows(xs[1..], thr);
      var tail := Successors(rest);
      var rows := head + tail;
      assert rows == BestRows(xs, thr);
      if i == 0 {
        assert 0 !in tail;
      } else {
        BestRowsMembership(xs[1..], thr, i - 1);
        if i < |xs| {
          assert xs[1..][i - 1] == xs[i];
        }
        SuccessorMembership(head, rest, i);
      }
    }
  }

  /** Best-class row k is the detection of the k-th kept row: with BestRowsAscending and
      BestRowsMembership, exactly one row per box whose top score exceeds the threshold. */
  lemma {:induction false} BestClassIndexed(xs: seq<Pred>, thr: real)
    requires forall k :: 0 <= k < |xs| ==> |xs[k].cls| > 0
    ensures var rows := BestRows(xs, thr);
      |BestClass(xs, thr)| == |rows| && forall k :: 0 <= k < |rows| ==> BestClass(xs, thr)[k] == BestDet(xs[rows[k]])
  {
    if |xs| > 0 {
      BestClassIndexed(xs[1..], thr);
      var head: seq<nat> := if Top(xs[0]) > thr then [0] else [];
      var rest := BestRows(xs[1..], thr);
      var tail := Successors(rest);
      var rows := head + tail;
      assert rows == BestRows(xs, thr);
      var first := if Top(xs[0]) > thr then [BestDet(xs[0])] else [];
      var more := BestClass(xs[1..], thr);
      assert first + more == BestClass(xs, thr);
      ShiftedDets(xs, head, rest, first, more);
    }
  }

  /** Putting row 0's detection (if any) in front of the detections of the remaining rows keeps
      each detection at the position of its row number. */
  lemma ShiftedDets(xs: seq<Pred>, head: seq<nat>, rest: seq<nat>, first: seq<Det>, more: seq<Det>)
    requires |xs| > 0 && forall k :: 0 <= k < |xs| ==> |xs[k].cls| > 0
    requires |head| == |first| <= 1 && (|head| == 1 ==> head[0] == 0 && first[0] == BestDet(xs[0]))
    requires |more| == |rest|
    requires forall k :: 0 <= k < |rest| ==> rest[k] < |xs| - 1 && more[k] == BestDet(xs[1..][rest[k]])
    ensures var rows := head + Successors(rest);
      forall k :: 0 <= k < |rows| ==> (first + more)[k] == BestDet(xs[rows[k]])
  {
    var tail := Successors(rest);
    var rows := head + tail;
    var m := first + more;
    forall k | 0 <= k < |rows|
      ensures m[k] == BestDet(xs[rows[k]])
    {
      if k >= |head| {
        assert m[k] == more[k - |head|] && rows[k] == tail[k - |head|];
        assert xs[1..][rest[k - |head|]] == xs[rows[k]];
      }
    }
  }

  /** `x = x[(x[:, 5:6] == torch.tensor(classes)).any(1)]` when a non-empty list is given. */
  function Allowed(ds: seq<Det>, classes: seq<nat>): (r: seq<Det>)
    ensures |r| <= |ds|
    ensures forall d :: d in r <==> d in ds && (|classes| == 0 || d.cls in classes)
  {
    if |classes| == 0 || |ds| == 0 then ds
    else (if ds[0].cls in classes then [ds[0]] else []) + Allowed(ds[1..], classes)
  }

  /** The detection matrix before suppression, or None when no row survives (`continue`). */
  function Candidates(x: seq<Pred>, nc: nat, p: Params): Option<seq<Det>>
    requires Shaped(x, nc) && nc >= 1
  {
    var c := ConfFilter(x, p.confThres);
    if |c| == 0 then None
    else
      assert forall k :: 0 <= k < |c| ==> |c[k].cls| > 0 by {
        forall k | 0 <= k < |c|
          ensures |c[k].cls| > 0
        {
          assert c[k] in c;
        }
      }
      var d := if nc > 1 then MultiLabel(c, p.confThres) else BestClass(c, p.confThres);
      var a := Allowed(d, p.classes);
      if |a| == 0 then None else Some(a)
  }

  /** Every candidate has conf above conf_thres and, given an allow-list, an allowed class. */
  lemma CandidatesMeaning(x: seq<Pred>, nc: nat, p: Params, d: Det)
    requires Shaped(x, nc) && nc >= 1
    requires Candidates(x, nc, p).Some? && d in Candidates(x, nc, p).value
    ensures d.conf > p.confThres
    ensures |p.classes| > 0 ==> d.cls in p.classes
  {
    var c := ConfFilter(x, p.confThres);
    assert forall k :: 0 <= k < |c| ==> |c[k].cls| > 0 by {
      forall k | 0 <= k < |c|
        ensures |c[k].cls| > 0
      {
        assert c[k] in c;
      }
    }
    if nc > 1 {
      MultiLabelMembership(c, p.confThres, d);
    } else {
      BestClassMembership(c, p.confThres, d);
    }
  }

  /** An image none of whose rows passes the objectness threshold yields None. */
  lemma NoneBelowThreshold(x: seq<Pred>, nc: nat, p: Params)
    requires Shaped(x, nc) && nc >= 1
    requires forall k :: 0 <= k < |x| ==> x[k].obj <= p.confThres
    ensures Candidates(x, nc, p) == None
  {
  }

  // ----- back end -----

  /** `c = x[:, 5:6] * (0 if agnostic else max_wh)`, added to all four coordinates. */
  function OffsetBox(d: Det, agnostic: bool): XYXY
  {
    var c := d.cls as real * (if agnostic then 0.0 else MaxWh);
    XYXY(d.box.x1 + c, d.box.y1 + c, d.box.x2 + c, d.box.y2 + c)
  }

  function OffsetBoxes(ds: seq<Det>, agnostic: bool): (b: seq<XYXY>)
    ensures |b| == |ds| && forall k :: 0 <= k < |ds| ==> b[k] == OffsetBox(ds[k], agnostic)
  {
    seq(|ds|, k requires 0 <= k < |ds| => OffsetBox(ds[k], agnostic))
  }

  /** Boxes within [0, 4096] of different classes never overlap once offset, so class-blind
      suppression of the offset boxes suppresses only within a class; agnostic mode leaves the
      boxes as they are. */
  lemma OffsetSeparatesClasses(d1: Det, d2: Det)
    requires 0.0 <= d1.box.x1 && d1.box.x2 <= MaxWh && 0.0 <= d2.box.x1 && d2.box.x2 <= MaxWh
    requires d1.cls != d2.cls
    ensures RawOverlapW(OffsetBox(d1, false), OffsetBox(d2, false)) <= 0.0
    ensures Inter(OffsetBox(d1, false), OffsetBox(d2, false)) == 0.0
  {
    var b1, b2 := OffsetBox(d1, false), OffsetBox(d2, false);
    if d1.cls < d2.cls {
      assert b1.x2 <= (d1.cls + 1) as real * MaxWh <= d2.cls as real * MaxWh <= b2.x1;
    } else {
      assert b2.x2 <= (d2.cls + 1) as real * MaxWh <= d1.cls as real * MaxWh <= b1.x1;
    }
    assert Max(RawOverlapW(b1, b2), 0.0) == 0.0;
  }

  lemma AgnosticKeepsBoxes(d: Det)
    ensures OffsetBox(d, true) == d.box
  {
  }

  function Confs(ds: seq<Det>): (s: seq<real>)
    ensures |s| == |ds| && forall k :: 0 <= k < |ds| ==> s[k] == ds[k].conf
  {
    seq(|ds|, k requires 0 <= k < |ds| => ds[k].conf)
  }

  /** What the suppression oracle must return: distinct indices of its input boxes. */
  predicate OracleOk(keep: seq<nat>, n: nat)
  {
    (forall k :: 0 <= k < |keep| ==> keep[k] < n) && (forall k, l :: 0 <= k < l < |keep| ==> keep[k] != keep[l])
  }

  /** `if i.shape[0] > max_det: i = i[:max_det]`. */
  function Cap(keep: seq<nat>): (c: seq<nat>)
    ensures |c| <= MaxDet && |c| <= |keep|
    ensures |c| == if |keep| > MaxDet then MaxDet else |keep|
    ensures forall k :: 0 <= k < |c| ==> c[k] == keep[k]
  {
    if |keep| > MaxDet then keep[..MaxDet] else keep
  }

  /** `box_iou(boxes[i], boxes) > iou_thres` for one pair, with IEEE 754 division: a zero union
      gives nan (false) for zero overlap and inf (true) otherwise. */
  predicate Overlaps(a: XYXY, b: XYXY, thr: real)
  {
    if PairDenom(a, b) == 0.0 then Inter(a, b) > 0.0 else PairIou(a, b) > thr
  }

  /** `iou.sum(1)` for one kept box: how many boxes it overlaps. */
  function OverlapCount(a: XYXY, boxes: seq<XYXY>, thr: real): (c: nat)
    ensures c <= |boxes|
  {
    if |boxes| == 0 then 0
    else OverlapCount(a, boxes[..|boxes| - 1], thr) + (if Overlaps(a, boxes[|boxes| - 1], thr) then 1 else 0)
  }

  /** `weights = iou * scores[None]` for one kept box. */
  function Weights(a: XYXY, boxes: seq<XYXY>, scores: seq<real>, thr: real): (w: seq<real>)
    requires |scores| == |boxes|
    ensures |w| == |boxes|
  {
    seq(|boxes|, j requires 0 <= j < |boxes| => if Overlaps(a, boxes[j], thr) then scores[j] else 0.0)
  }

  function Dot(w: seq<real>, v: seq<real>): real
    requires |w| == |v|
  {
    Sum(seq(|w|, j requires 0 <= j < |w| => w[j] * v[j]))
  }

  /** `torch.mm(weights, x[:, :4]) / weights.sum(1)` for one kept box: the score-weighted mean of
      the (unshifted) boxes it overlaps. A zero weight sum, which torch turns into nan, keeps the
      box instead; such a box has no overlap and the redundancy filter drops it (see
      MergeOutputMeaning). */
  function MergedBox(ds: seq<Det>, w: seq<real>, own: XYXY): XYXY
    requires |w| == |ds|
  {
    var t := Sum(w);
    if t == 0.0 then own
    else
      XYXY(Dot(w, seq(|ds|, j requires 0 <= j < |ds| => ds[j].box.x1)) / t,
           Dot(w, seq(|ds|, j requires 0 <= j < |ds| => ds[j].box.y1)) / t,
           Dot(w, seq(|ds|, j requires 0 <= j < |ds| => ds[j].box.x2)) / t,
           Dot(w, seq(|ds|, j requires 0 <= j < |ds| => ds[j].box.y2)) / t)
  }

  /** Merge mode: each kept box overlapping more than one box (itself included) is emitted with
      its merged coordinates; `i = i[iou.sum(1) > 1]` keeps their order. */
  function MergeOutput(ds: seq<Det>, boxes: seq<XYXY>, keep: seq<nat>, thr: real): (r: seq<Det>)
    requires |boxes| == |ds| && forall k :: 0 <= k < |keep| ==> keep[k] < |ds|
    ensures |r| <= |keep|
  {
    if |keep| == 0 then []
    else
      (if OverlapCount(boxes[keep[0]], boxes, thr) > 1 then [Merged(ds, boxes, keep[0], thr)] else [])
        + MergeOutput(ds, boxes, keep[1..], thr)
  }

  /** Kept candidate i with its merged box, `x[i, :4] = torch.mm(weights, x[:, :4]).float() / ...`. */
  function Merged(ds: seq<Det>, boxes: seq<XYXY>, i: nat, thr: real): (d: Det)
    requires |boxes| == |ds| && i < |ds|
    ensures d.conf == ds[i].conf && d.cls == ds[i].cls
  {
    Det(MergedBox(ds, Weights(boxes[i], boxes, Confs(ds), thr), ds[i].box), ds[i].conf, ds[i].cls)
  }

  /** `iou.sum(1) > 1` over the kept boxes. */
  function RedundantMask(boxes: seq<XYXY>, keep: seq<nat>, thr: real): (m: seq<bool>)
    requires forall k :: 0 <= k < |keep| ==> keep[k] < |boxes|
    ensures |m| == |keep| && forall k :: 0 <= k < |keep| ==> m[k] == (OverlapCount(boxes[keep[k]], boxes, thr) > 1)
  {
    seq(|keep|, k requires 0 <= k < |keep| => OverlapCount(boxes[keep[k]], boxes, thr) > 1)
  }

  /** Every kept candidate merged, before the redundancy filter. */
  function MergedAll(ds: seq<Det>, boxes: seq<XYXY>, keep: seq<nat>, thr: real): (xs: seq<Det>)
    requires |boxes| == |ds| && forall k :: 0 <= k < |keep| ==> keep[k] < |ds|
    ensures |xs| == |keep| && forall k :: 0 <= k < |keep| ==> xs[k] == Merged(ds, boxes, keep[k], thr)
  {
    seq(|keep|, k requires 0 <= k < |keep| => Merged(ds, boxes, keep[k], thr))
  }

  /** Merge mode emits exactly the kept candidates whose box overlaps more than one box, in the
      order they were kept, each with its merged coordinates: entry k is kept candidate ps[k] for
      the ascending positions ps at which the redundancy mask holds (see Positions.WhereAscending
      and Positions.WhereMembership). */
  lemma {:induction false} MergeOutputIndexed(ds: seq<Det>, boxes: seq<XYXY>, keep: seq<nat>, thr: real)
    requires |boxes| == |ds| && forall k :: 0 <= k < |keep| ==> keep[k] < |ds|
    ensures var ps := Where(RedundantMask(boxes, keep, thr));
      |MergeOutput(ds, boxes, keep, thr)| == |ps| &&
      forall k :: 0 <= k < |ps| ==> MergeOutput(ds, boxes, keep, thr)[k] == Merged(ds, boxes, keep[ps[k]], thr)
    decreases |keep|
  {
    if |keep| > 0 {
      var mask := RedundantMask(boxes, keep, thr);
      assert mask[1..] == RedundantMask(boxes, keep[1..], thr);
      MergeOutputIndexed(ds, boxes, keep[1..], thr);
      var rest := Where(mask[1..]);
      var head: seq<nat> := if mask[0] then [0] else [];
      assert head + Successors(rest) == Where(mask);
      var first := if mask[0] then [Merged(ds, boxes, keep[0], thr)] else [];
      var more := MergeOutput(ds, boxes, keep[1..], thr);
      assert first + more == MergeOutput(ds, boxes, keep, thr);
      var xs := MergedAll(ds, boxes, keep, thr);
      MergedShift(ds, boxes, keep, thr, rest, more);
      ShiftedPick(xs, head, rest, first, more);
    }
  }

  lemma MergedShift(ds: seq<Det>, boxes: seq<XYXY>, keep: seq<nat>, thr: real, rest: seq<nat>, more: seq<Det>)
    requires |boxes| == |ds| && |keep| > 0 && forall k :: 0 <= k < |keep| ==> keep[k] < |ds|
    requires |more| == |rest|
    requires forall k :: 0 <= k < |rest| ==> rest[k] < |keep| - 1 && more[k] == Merged(ds, boxes, keep[1..][rest[k]], thr)
    ensures forall k :: 0 <= k < |rest| ==> more[k] == MergedAll(ds, boxes, keep, thr)[1..][rest[k]]
  {
    forall k | 0 <= k < |rest|
      ensures more[k] == MergedAll(ds, boxes, keep, thr)[1..][rest[k]]
    {
      assert keep[1..][rest[k]] == keep[rest[k] + 1];
    }
  }

  /** Every merged detection carries the conf and class of a kept candidate whose box overlaps
      at least two of the candidate boxes (itself usually among them). */
  lemma {:induction false} MergeOutputMeaning(ds: seq<Det>, boxes: seq<XYXY>, keep: seq<nat>, thr: real, d: Det)
    requires |boxes| == |ds| && forall k :: 0 <= k < |keep| ==> keep[k] < |ds|
    requires d in MergeOutput(ds, boxes, keep, thr)
    ensures exists k :: (0 <= k < |keep| && d.conf == ds[keep[k]].conf && d.cls == ds[keep[k]].cls
                         && OverlapCount(boxes[keep[k]], boxes, thr) > 1)
  {
    var i := keep[0];
    if OverlapCount(boxes[i], boxes, thr) > 1 && d == Merged(ds, boxes, i, thr) {
      assert 0 <= 0 < |keep|;
    } else {
      MergeOutputMeaning(ds, boxes, keep[1..], thr, d);
      var k :| 0 <= k < |keep[1..]| && d.conf == ds[keep[1..][k]].conf && d.cls == ds[keep[1..][k]].cls
        && OverlapCount(boxes[keep[1..][k]], boxes, thr) > 1;
      assert keep[1..][k] == keep[k + 1];
    }
  }

  /** With positive scores, a box that overlaps any box has a positive weight sum, so its
      merged box is the weighted mean. */
  lemma {:induction false} RedundantWeightPositive(a: XYXY, boxes: seq<XYXY>, scores: seq<real>, thr: real)
    requires |scores| == |boxes| && forall j :: 0 <= j < |scores| ==> scores[j] > 0.0
    requires OverlapCount(a, boxes, thr) > 0
    ensures Sum(Weights(a, boxes, scores, thr)) > 0.0
  {
    var n := |boxes|;
    var w := Weights(a, boxes, scores, thr);
    var front := boxes[..n - 1];
    assert w[..n - 1] == Weights(a, front, scores[..n - 1], thr);
    if OverlapCount(a, front, thr) > 0 {
      RedundantWeightPositive(a, front, scores[..n - 1], thr);
      assert w[n - 1] >= 0.0;
    } else {
      assert Overlaps(a, boxes[n - 1], thr);
      WeightsNonNegative(a, front, scores[..n - 1], thr);
    }
  }

  lemma WeightsNonNegative(a: XYXY, boxes: seq<XYXY>, scores: seq<real>, thr: real)
    requires |scores| == |boxes| && forall j :: 0 <= j < |scores| ==> scores[j] > 0.0
    ensures Sum(Weights(a, boxes, scores, thr)) >= 0.0
  {
    SumNonNegative(Weights(a, boxes, scores, thr));
  }

  /** `output[xi] = x[i]` without merging. */
  function Select(ds: seq<Det>, keep: seq<nat>): (r: seq<Det>)
    requires forall k :: 0 <= k < |keep| ==> keep[k] < |ds|
    ensures |r| == |keep| && forall k :: 0 <= k < |keep| ==> r[k] == ds[keep[k]]
  {
    seq(|keep|, k requires 0 <= k < |keep| => ds[keep[k]])
  }

  /** The suppression oracle stands for `torchvision.ops.boxes.nms(boxes, scores, iou_thres)`. */
  type Oracle = (seq<XYXY>, seq<real>, real) -> seq<nat>

  ghost predicate OracleValid(nms: Oracle)
  {
    forall b: seq<XYXY>, s: seq<real>, t: real :: OracleOk(nms(b, s, t), |b|)
  }

  /** What non_max_suppression stores for one image (before the time limit): None without
      candidates, otherwise the kept detections, capped and, in merge mode, merged and filtered
      for redundancy. */
  function ImageDetections(x: seq<Pred>, nc: nat, p: Params, nms: Oracle): Option<seq<Det>>
    requires Shaped(x, nc) && nc >= 1 && OracleValid(nms)
  {
    match Candidates(x, nc, p)
    case None => None
    case Some(ds) =>
      var boxes := OffsetBoxes(ds, p.agnostic);
      var keep := Cap(nms(boxes, Confs(ds), p.iouThres));
      assert OracleOk(nms(boxes, Confs(ds), p.iouThres), |boxes|);
      if p.merge && 1 < |ds| < MergeMax then Some(MergeOutput(ds, boxes, keep, p.iouThres))
      else Some(Select(ds, keep))
  }

  /** Every detection stored for an image has conf above conf_thres and an allowed class, and at
      most 300 are stored. */
  lemma ImageDetectionsMeaning(x: seq<Pred>, nc: nat, p: Params, nms: Oracle)
    requires Shaped(x, nc) && nc >= 1 && OracleValid(nms)
    requires ImageDetections(x, nc, p, nms).Some?
    ensures |ImageDetections(x, nc, p, nms).value| <= MaxDet
    ensures forall d :: d in ImageDetections(x, nc, p, nms).value ==>
      d.conf > p.confThres && (|p.classes| > 0 ==> d.cls in p.classes)
  {
    var ds := Candidates(x, nc, p).value;
    var boxes := OffsetBoxes(ds, p.agnostic);
    var keep := Cap(nms(boxes, Confs(ds), p.iouThres));
    assert OracleOk(nms(boxes, Confs(ds), p.iouThres), |boxes|);
    var out := ImageDetections(x, nc, p, nms).value;
    forall d | d in out
      ensures d.conf > p.confThres && (|p.classes| > 0 ==> d.cls in p.classes)
    {
      if p.merge && 1 < |ds| < MergeMax {
        MergeOutputMeaning(ds, boxes, keep, p.iouThres, d);
        var k :| 0 <= k < |keep| && d.conf == ds[keep[k]].conf && d.cls == ds[keep[k]].cls
          && OverlapCount(boxes[keep[k]], boxes, p.iouThres) > 1;
        CandidatesMeaning(x, nc, p, ds[keep[k]]);
      } else {
        var k :| 0 <= k < |out| && out[k] == d;
        CandidatesMeaning(x, nc, p, ds[keep[k]]);
      }
    }
  }

  /** Whether image xi ends the loop: it stored detections and the clock then exceeded the
      time limit. */
  predicate Stops(prediction: seq<seq<Pred>>, nc: nat, p: Params, nms: Oracle, clock: seq<real>, xi: nat)
    requires xi < |prediction| && |clock| == |prediction| && nc >= 1 && OracleValid(nms)
    requires forall i :: 0 <= i < |prediction| ==> Shaped(prediction[i], nc)
  {
    ImageDetections(prediction[xi], nc, p, nms).Some? && clock[xi] > TimeLimit
  }

  /** Whether the loop reaches image xi: no earlier image stopped it (an image skipped with
      `continue` does not read the clock). */
  predicate Reached(prediction: seq<seq<Pred>>, nc: nat, p: Params, nms: Oracle, clock: seq<real>, xi: nat)
    requires xi <= |prediction| && |clock| == |prediction| && nc >= 1 && OracleValid(nms)
    requires forall i :: 0 <= i < |prediction| ==> Shaped(prediction[i], nc)
  {
    forall xj :: 0 <= xj < xi ==> !Stops(prediction, nc, p, nms, clock, xj)
  }

  lemma StopsAfter(prediction: seq<seq<Pred>>, nc: nat, p: Params, nms: Oracle, clock: seq<real>, xi: nat)
    requires xi < |prediction| && |clock| == |prediction| && nc >= 1 && OracleValid(nms)
    requires forall i :: 0 <= i < |prediction| ==> Shaped(prediction[i], nc)
    requires Stops(prediction, nc, p, nms, clock, xi)
    ensures forall i :: xi < i <= |prediction| ==> !Reached(prediction, nc, p, nms, clock, i)
  {
  }

  lemma ReachedNext(prediction: seq<seq<Pred>>, nc: nat, p: Params, nms: Oracle, clock: seq<real>, xi: nat)
    requires xi < |prediction| && |clock| == |prediction| && nc >= 1 && OracleValid(nms)
    requires forall i :: 0 <= i < |prediction| ==> Shaped(prediction[i], nc)
    requires Reached(prediction, nc, p, nms, clock, xi) && !Stops(prediction, nc, p, nms, clock, xi)
    ensures Reached(prediction, nc, p, nms, clock, xi + 1)
  {
  }

  /** non_max_suppression(prediction, ...): `clock[xi]` is `time.time() - t` read after image xi. */
  method NonMaxSuppression(prediction: seq<seq<Pred>>, nc: nat, p: Params, nms: Oracle, clock: seq<real>)
    returns (output: seq<Option<seq<Det>>>)
    requires |clock| == |prediction| && nc >= 1 && OracleValid(nms)
    requires forall i :: 0 <= i < |prediction| ==> Shaped(prediction[i], nc)
    ensures |output| == |prediction|
    ensures forall xi :: 0 <= xi < |prediction| ==>
      output[xi] == if Reached(prediction, nc, p, nms, clock, xi) then ImageDetections(prediction[xi], nc, p, nms) else None
  {
    output := seq(|prediction|, i => None);
    var xi := 0;
    while xi < |prediction|
      invariant 0 <= xi <= |prediction| && |output| == |prediction|
      invariant Reached(prediction, nc, p, nms, clock, xi)
      invariant forall i :: 0 <= i < xi ==> Reached(prediction, nc, p, nms, clock, i)
      invariant forall i :: 0 <= i < xi ==> output[i] == ImageDetections(prediction[i], nc, p, nms)
      invariant forall i :: xi <= i < |prediction| ==> output[i] == None
    {
      var r := ImageDetections(prediction[xi], nc, p, nms);
      if r.Some? {
        output := output[xi := r];
        if clock[xi] > TimeLimit {
          StopsAfter(prediction, nc, p, nms, clock, xi);
          return;
        }
      }
      ReachedNext(prediction, nc, p, nms, clock, xi);
      xi := xi + 1;
    }
  }
}
