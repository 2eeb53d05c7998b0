/** Ascending lists of positions: what boolean-mask indexing such as `t[j]` or `x[xc[xi]]` keeps
    of a tensor, stated as the positions it keeps rather than the rows themselves. */
module Positions {

  /** Row numbers shifted past row 0. */
  function Successors(rows: seq<nat>): (next: seq<nat>)
    ensures |next| == |rows| && forall k :: 0 <= k < |rows| ==> next[k] == rows[k] + 1
  {
    seq(|rows|, k requires 0 <= k < |rows| => rows[k] + 1)
  }

  predicate Ascending(rows: seq<nat>)
  {
    forall k, l :: 0 <= k < l < |rows| ==> rows[k] < rows[l]
  }

  lemma SuccessorMembership(head: seq<nat>, rest: seq<nat>, i: nat)
    requires i > 0 && forall k :: 0 <= k < |head| ==> head[k] == 0
    ensures i in head + Successors(rest) <==> i - 1 in rest
  {
    var tail := Successors(rest);
    var rows := head + tail;
    if i in rows {
      var k :| 0 <= k < |rows| && rows[k] == i;
      assert rows[k] == tail[k - |head|];
      assert rest[k - |head|] == i - 1;
    }
    if i - 1 in rest {
      var k :| 0 <= k < |rest| && rest[k] == i - 1;
      assert rows[|head| + k] == i;
    }
  }

  /** Putting at most a row 0 in front of the shifted positions of the remaining rows keeps
      them ascending. */
  lemma AscendingStep(head: seq<nat>, rest: seq<nat>)
    requires |head| <= 1 && (|head| == 1 ==> head[0] == 0) && Ascending(rest)
    ensures Ascending(head + Successors(rest))
  {
    var tail := Successors(rest);
    var rows := head + tail;
    forall k, l | 0 <= k < l < |rows|
      ensures rows[k] < rows[l]
    {
      assert rows[l] == tail[l - |head|];
      if k >= |head| {
        assert rows[k] == tail[k - |head|];
        assert rest[k - |head|] < rest[l - |head|];
      }
    }
  }

  /** The positions at which the mask holds, ascending. */
  function Where(mask: seq<bool>): (ps: seq<nat>)
    ensures forall k :: 0 <= k < |ps| ==> ps[k] < |mask|
  {
    if |mask| == 0 then []
    else (if mask[0] then [0] else []) + Successors(Where(mask[1..]))
  }

  /** No position is listed twice, and they come in order. */
  lemma {:induction false} WhereAscending(mask: seq<bool>)
    ensures Ascending(Where(mask))
  {
    if |mask| > 0 {
      WhereAscending(mask[1..]);
      var head: seq<nat> := if mask[0] then [0] else [];
      AscendingStep(head, Where(mask[1..]));
      assert head + Successors(Where(mask[1..])) == Where(mask);
    }
  }

  /** A position is listed exactly when the mask holds there. */
  lemma {:induction false} WhereMembership(mask: seq<bool>, i: nat)
    ensures i in Where(mask) <==> i < |mask| && mask[i]
  {
    if |mask| > 0 {
      var head: seq<nat> := if mask[0] then [0] else [];
      var tail := Successors(Where(mask[1..]));
      assert head + tail == Where(mask);
      if i == 0 {
        assert 0 !in tail;
      } else {
        WhereMembership(mask[1..], i - 1);
        SuccessorMembership(head, Where(mask[1..]), i);
      }
    }
  }

  /** Putting row 0's entry (if kept) in front of the entries kept from the remaining rows keeps
      every entry at the position of its row number. */
  lemma ShiftedPick<T>(xs: seq<T>, head: seq<nat>, rest: seq<nat>, first: seq<T>, more: seq<T>)
    requires |xs| > 0 && |head| == |first| <= 1 && (|head| == 1 ==> head[0] == 0 && first[0] == xs[0])
    requires |more| == |rest| && forall k :: 0 <= k < |rest| ==> rest[k] < |xs| - 1 && more[k] == xs[1..][rest[k]]
    ensures var ps := head + Successors(rest);
      forall k :: 0 <= k < |ps| ==> ps[k] < |xs| && (first + more)[k] == xs[ps[k]]
  {
    var tail := Successors(rest);
    var ps := head + tail;
    var m := first + more;
    forall k | 0 <= k < |ps|
      ensures ps[k] < |xs| && m[k] == xs[ps[k]]
    {
      if k >= |head| {
        assert m[k] == more[k - |head|] && ps[k] == tail[k - |head|];
        assert xs[1..][rest[k - |head|]] == xs[ps[k]];
      }
    }
  }
}
