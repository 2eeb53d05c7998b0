/** Exact real-number counterparts of the tensor primitives the detector core uses:
    elementwise max/min, torch's clamp, Python's `% 1`, `.long()` truncation, `sign()` and sums. */
module RealMath {

  function Max(a: real, b: real): (m: real)
    ensures m >= a && m >= b && (m == a || m == b)
  {
    if a >= b then a else b
  }

  function Min(a: real, b: real): (m: real)
    ensures m <= a && m <= b && (m == a || m == b)
  {
    if a <= b then a else b
  }

  /** torch.clamp(v, lo, hi), which is min(max(v, lo), hi). */
  function Clamp(v: real, lo: real, hi: real): (c: real)
    ensures lo <= hi ==> lo <= c <= hi
    ensures lo <= v <= hi ==> c == v
    ensures hi < lo ==> c == hi
  {
    Min(Max(v, lo), hi)
  }

  /** `x % 1.` on a float tensor: Python's floored remainder, always in [0, 1). */
  function Frac(r: real): (f: real)
    ensures 0.0 <= f < 1.0
    ensures (r - f).Floor as real == r - f
  {
    r - r.Floor as real
  }

  /** `.long()` on a float tensor: truncation toward zero. */
  function Trunc(r: real): (t: int)
    ensures r >= 0.0 ==> t == r.Floor && t >= 0
    ensures r < 0.0 ==> t == -((-r).Floor) && t <= 0
  {
    if r >= 0.0 then r.Floor else -((-r).Floor)
  }

  /** torch's sign(): -1, 0 or 1. */
  function Sign(r: real): (s: int)
    ensures s == 1 <==> r > 0.0
    ensures s == -1 <==> r < 0.0
    ensures s == 0 <==> r == 0.0
  {
    if r > 0.0 then 1 else if r < 0.0 then -1 else 0
  }

  /** Left-to-right sum, the order in which the source's loops accumulate. */
  function Sum(s: seq<real>): real
  {
    if |s| == 0 then 0.0 else Sum(s[..|s| - 1]) + s[|s| - 1]
  }

  lemma SumAppend(s: seq<real>, x: real)
    ensures Sum(s + [x]) == Sum(s) + x
  {
    assert (s + [x])[..|s|] == s;
  }

  lemma {:induction false} SumConcat(s: seq<real>, t: seq<real>)
    ensures Sum(s + t) == Sum(s) + Sum(t)
    decreases |t|
  {
    if |t| == 0 {
      assert s + t == s;
    } else {
      var t' := t[..|t| - 1];
      assert s + t == (s + t') + [t[|t| - 1]];
      assert t == t' + [t[|t| - 1]];
      SumAppend(s + t', t[|t| - 1]);
      SumAppend(t', t[|t| - 1]);
      SumConcat(s, t');
    }
  }

  lemma {:induction false} SumNonNegative(s: seq<real>)
    requires forall k :: 0 <= k < |s| ==> s[k] >= 0.0
    ensures Sum(s) >= 0.0
  {
    if |s| > 0 {
      SumNonNegative(s[..|s| - 1]);
    }
  }

  /** Sum of the first n elements of a sequence with the first element moved out. */
  lemma {:induction false} SumFirst(s: seq<real>)
    requires |s| > 0
    ensures Sum(s) == s[0] + Sum(s[1..])
    decreases |s|
  {
    if |s| > 1 {
      var init := s[..|s| - 1];
      SumFirst(init);
      assert init[1..] == s[1..][..|s[1..]| - 1];
    } else {
      assert s[..|s| - 1] == [];
      assert s[1..] == [];
    }
  }

  /** Sum of n copies of q. */
  lemma {:induction false} ConstantSum(n: nat, q: real)
    ensures Sum(seq(n, j requires 0 <= j < n => q)) == n as real * q
  {
    if n > 0 {
      ConstantSum(n - 1, q);
      assert seq(n, j requires 0 <= j < n => q)[..n - 1] == seq(n - 1, j requires 0 <= j < n - 1 => q);
      assert n as real * q == (n - 1) as real * q + q;
    }
  }

  /** A sum of entries each at most c is at most |s| * c. */
  lemma {:induction false} SumAtMost(s: seq<real>, c: real)
    requires forall k :: 0 <= k < |s| ==> s[k] <= c
    ensures Sum(s) <= |s| as real * c
  {
    if |s| > 0 {
      SumAtMost(s[..|s| - 1], c);
      assert |s| as real * c == (|s| - 1) as real * c + c;
    }
  }

  /** Sum of a scaled sequence. */
  function Scale(s: seq<real>, c: real): (r: seq<real>)
    ensures |r| == |s| && forall k :: 0 <= k < |s| ==> r[k] == s[k] * c
  {
    seq(|s|, k requires 0 <= k < |s| => s[k] * c)
  }

  lemma {:induction false} SumScale(s: seq<real>, c: real)
    ensures Sum(Scale(s, c)) == Sum(s) * c
    decreases |s|
  {
    if |s| > 0 {
      var l, r := Scale(s, c)[..|s| - 1], Scale(s[..|s| - 1], c);
      assert |l| == |r| && forall k :: 0 <= k < |l| ==> l[k] == r[k];
      assert l == r;
      SumScale(s[..|s| - 1], c);
    }
  }

  lemma MulNonNegative(a: real, b: real)
    requires a >= 0.0 && b >= 0.0
    ensures a * b >= 0.0
  {
  }

  lemma SquareNonNegative(u: real)
    ensures u * u >= 0.0
  {
    if u < 0.0 {
      MulNonNegative(-u, -u);
    } else {
      MulNonNegative(u, u);
    }
  }

  lemma MulPositive(a: real, b: real)
    requires a > 0.0 && b > 0.0
    ensures a * b > 0.0
  {
  }

  /** A product of two factors each at least a positive lower bound is at least the product of
      the bounds, strictly so when either factor exceeds its bound. */
  lemma ProductTight(x: real, y: real, mx: real, my: real)
    requires 0.0 < mx <= x && 0.0 < my <= y
    ensures x * y >= mx * my
    ensures x > mx || y > my ==> x * y > mx * my
  {
    MulMono(mx, my, x, my);
    MulMono(x, my, x, y);
    assert x * my - mx * my == (x - mx) * my;
    assert x * y - x * my == x * (y - my);
    if x > mx {
      MulPositive(x - mx, my);
    }
    if y > my {
      MulPositive(x, y - my);
    }
  }

  /** Multiplication of non-negative reals is monotone in both factors. */
  lemma MulMono(a: real, b: real, c: real, d: real)
    requires 0.0 <= a <= c && 0.0 <= b <= d
    ensures a * b <= c * d
  {
    assert a * b <= c * b by {
      MulNonNegative(c - a, b);
      assert (c - a) * b == c * b - a * b;
    }
    assert c * b <= c * d by {
      MulNonNegative(c, d - b);
      assert c * (d - b) == c * d - c * b;
    }
  }

  /** Multiplying both sides of an inequality by a non-negative factor, on either side. */
  lemma MulMonoLeq(a: real, b: real, c: real)
    requires a <= b && c >= 0.0
    ensures a * c <= b * c && c * a <= c * b
  {
    MulNonNegative(b - a, c);
    assert (b - a) * c == b * c - a * c;
  }

  /** Multiplying both sides of a strict inequality by a positive factor. */
  lemma MulMonoStrict(a: real, b: real, c: real)
    requires a < b && c > 0.0
    ensures a * c < b * c && c * a < c * b
  {
    MulPositive(b - a, c);
    assert (b - a) * c == b * c - a * c;
  }

  /** A value within [-v, v] has a square at most v squared. */
  lemma SquareMono(u: real, v: real)
    requires -v <= u <= v
    ensures u * u <= v * v
  {
    MulNonNegative(v - u, v + u);
    assert (v - u) * (v + u) == v * v - u * u;
  }

  lemma PositiveQuotient(a: real, t: real)
    requires a > 0.0 && t > 0.0
    ensures a / t > 0.0
  {
  }

  lemma QuotientOrder(a: real, b: real, t: real)
    requires a <= b && t > 0.0
    ensures a / t <= b / t
  {
    MulMonoLeq(a, b, 1.0 / t);
  }

  lemma QuotientBelowOne(d: real, w: real)
    requires 0.0 < d < w
    ensures 0.0 < d / w < 1.0
  {
    PositiveQuotient(1.0, w);
    MulMonoStrict(d, w, 1.0 / w);
    assert w * (1.0 / w) == 1.0;
    assert d / w == d * (1.0 / w);
  }
}
