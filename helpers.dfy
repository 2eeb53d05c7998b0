/** The small numeric helpers of the detector: rounding image sizes up to a stride multiple,
    label-smoothing targets and inverse-frequency class weights. */
module Helpers {
  import opened RealMath
  import opened Wrappers

  /** math.ceil on a real. */
  function Ceil(r: real): (c: int)
    ensures c as real >= r && (c - 1) as real < r
  {
    -((-r).Floor)
  }

  /** make_divisible(x, divisor): math.ceil(x / divisor) * divisor. */
  function MakeDivisible(x: int, divisor: nat): int
    requires divisor > 0
  {
    Ceil(x as real / divisor as real) * divisor
  }

  /** A quotient q = ceil(x / d) brackets x between (q - 1) * d and q * d. */
  lemma CeilBracket(x: int, d: nat, q: int)
    requires d > 0 && q == Ceil(x as real / d as real)
    ensures (q - 1) * d < x <= q * d
  {
    var r := x as real / d as real;
    assert r * d as real == x as real;
    MulMonoStrict((q - 1) as real, r, d as real);
    MulMonoLeq(r, q as real, d as real);
  }

  /** make_divisible returns the least multiple of the divisor that is at least x. */
  lemma MakeDivisibleLeast(x: int, divisor: nat)
    requires divisor > 0
    ensures MakeDivisible(x, divisor) % divisor == 0
    ensures x <= MakeDivisible(x, divisor) < x + divisor
  {
    var q := Ceil(x as real / divisor as real);
    CeilBracket(x, divisor, q);
    MultipleMod(q, divisor);
    assert (q - 1) * divisor == q * divisor - divisor;
  }

  lemma MultipleMod(q: int, d: nat)
    requires d > 0
    ensures (q * d) % d == 0
  {
    var a := q * d;
    var k, r := a / d, a % d;
    assert (q - k) * d == r;
    if r != 0 {
      if q - k >= 1 {
        MulMonoLeq(1.0, (q - k) as real, d as real);
      } else {
        MulMonoLeq((q - k) as real, 0.0, d as real);
      }
    }
  }

  /** Any multiple of the divisor that is at least x is at least make_divisible(x). */
  lemma {:induction false} MakeDivisibleMinimal(x: int, divisor: nat, m: int)
    requires divisor > 0 && m % divisor == 0 && m >= x
    ensures MakeDivisible(x, divisor) <= m
  {
    MakeDivisibleLeast(x, divisor);
    var r := MakeDivisible(x, divisor);
    MultiplesApart(r, m, divisor);
  }

  /** Two multiples of d closer than d apart are equal, so a multiple above r - d is at least r. */
  lemma MultiplesApart(r: int, m: int, d: nat)
    requires d > 0 && r % d == 0 && m % d == 0 && m > r - d
    ensures m >= r
  {
    var qr, qm := r / d, m / d;
    assert r == qr * d && m == qm * d;
    if m < r {
      assert qm < qr by {
        if qm >= qr {
          MulMonoLeq(qr as real, qm as real, d as real);
          assert false;
        }
      }
      assert qm <= qr - 1;
      MulMonoLeq(qm as real, (qr - 1) as real, d as real);
    }
  }

  /** A size that is already a multiple is returned unchanged, so make_divisible is idempotent. */
  lemma MakeDivisibleFixed(x: int, divisor: nat)
    requires divisor > 0 && x % divisor == 0
    ensures MakeDivisible(x, divisor) == x
  {
    MakeDivisibleLeast(x, divisor);
    MakeDivisibleMinimal(x, divisor, x);
  }

  lemma MakeDivisibleIdempotent(x: int, divisor: nat)
    requires divisor > 0
    ensures MakeDivisible(MakeDivisible(x, divisor), divisor) == MakeDivisible(x, divisor)
  {
    MakeDivisibleLeast(x, divisor);
    MakeDivisibleFixed(MakeDivisible(x, divisor), divisor);
  }

  /** check_img_size(img_size, s): the size rounded up to a multiple of the stride (the warning
      it prints on a change is output only). */
  function CheckImgSize(imgSize: int, s: nat): (n: int)
    requires s > 0
    ensures n % s == 0 && imgSize <= n < imgSize + s
    ensures n == imgSize <==> imgSize % s == 0
  {
    MakeDivisibleLeast(imgSize, s);
    MakeDivisibleUnchanged(imgSize, s);
    MakeDivisible(imgSize, s)
  }

  lemma MakeDivisibleUnchanged(x: int, divisor: nat)
    requires divisor > 0
    ensures MakeDivisible(x, divisor) == x <==> x % divisor == 0
  {
    MakeDivisibleLeast(x, divisor);
    if x % divisor == 0 {
      MakeDivisibleFixed(x, divisor);
    }
  }

  /** smooth_BCE(eps): positive and negative label-smoothing targets. */
  function SmoothBce(eps: real): (r: (real, real))
    ensures r.0 + r.1 == 1.0 && r.0 - r.1 == 1.0 - eps
    ensures eps == 0.0 ==> r == (1.0, 0.0)
  {
    (1.0 - 0.5 * eps, 0.5 * eps)
  }

  /** Any pair of targets summing to one and eps apart is the one smooth_BCE returns. */
  lemma SmoothBceUnique(eps: real, pos: real, neg: real)
    requires pos + neg == 1.0 && pos - neg == 1.0 - eps
    ensures SmoothBce(eps) == (pos, neg)
  {
  }

  // ----- labels_to_class_weights -----

  /** Occurrences of class c among the labels. */
  function CountOf(classes: seq<nat>, c: nat): nat
  {
    if |classes| == 0 then 0
    else CountOf(classes[..|classes| - 1], c) + (if classes[|classes| - 1] == c then 1 else 0)
  }

  /** One more than the largest class, 0 for no labels. */
  function ClassSpan(classes: seq<nat>): (n: nat)
    ensures forall k :: 0 <= k < |classes| ==> classes[k] < n
  {
    if |classes| == 0 then 0
    else
      var rest := ClassSpan(classes[..|classes| - 1]);
      var m := if classes[|classes| - 1] + 1 > rest then classes[|classes| - 1] + 1 else rest;
      assert forall k :: 0 <= k < |classes| - 1 ==> classes[k] == classes[..|classes| - 1][k];
      m
  }

  /** np.bincount(classes, minlength=nc). */
  function Bincount(classes: seq<nat>, nc: nat): (b: seq<nat>)
    ensures |b| == if nc >= ClassSpan(classes) then nc else ClassSpan(classes)
    ensures forall c :: 0 <= c < |b| ==> b[c] == CountOf(classes, c)
  {
    var n := if nc >= ClassSpan(classes) then nc else ClassSpan(classes);
    seq(n, c requires 0 <= c < n => CountOf(classes, c))
  }

  /** A class that occurs among the labels is counted. */
  lemma {:induction false} CountOfPositive(classes: seq<nat>, k: nat)
    requires k < |classes|
    ensures CountOf(classes, classes[k]) > 0
  {
    if k < |classes| - 1 {
      CountOfPositive(classes[..|classes| - 1], k);
    }
  }

  /** `weights[weights == 0] = 1; weights = 1 / weights`. */
  function Inverse(counts: seq<nat>): (w: seq<real>)
    ensures |w| == |counts|
    ensures forall c :: 0 <= c < |counts| ==> w[c] > 0.0
  {
    seq(|counts|, c requires 0 <= c < |counts| => 1.0 / (if counts[c] == 0 then 1 else counts[c]) as real)
  }

  /** `weights /= weights.sum()`. */
  function Normalise(w: seq<real>): (n: seq<real>)
    requires Sum(w) > 0.0
    ensures |n| == |w| && forall c :: 0 <= c < |w| ==> n[c] == w[c] / Sum(w)
  {
    seq(|w|, c requires 0 <= c < |w| => w[c] / Sum(w))
  }

  lemma {:induction false} SumPositive(s: seq<real>)
    requires |s| > 0 && forall k :: 0 <= k < |s| ==> s[k] > 0.0
    ensures Sum(s) > 0.0
  {
    SumNonNegative(s[..|s| - 1]);
  }

  /** Normalised weights add up to one. */
  lemma NormaliseSumsToOne(w: seq<real>)
    requires Sum(w) > 0.0
    ensures Sum(Normalise(w)) == 1.0
  {
    var t := Sum(w);
    var n := Normalise(w);
    assert n == Scale(w, 1.0 / t) by {
      forall c | 0 <= c < |w|
        ensures n[c] == Scale(w, 1.0 / t)[c]
      {
        DivAsMul(w[c], t);
      }
    }
    SumScale(w, 1.0 / t);
    DivAsMul(t, t);
  }

  lemma DivAsMul(a: real, t: real)
    requires t != 0.0
    ensures a / t == a * (1.0 / t)
  {
  }

  /** The reasons labels_to_class_weights fails: `labels[0]` on no images, or np.concatenate
      meeting an image whose labels were not loaded. */
  datatype WeightError = NoImages | UnloadedLabels

  /** The labels of all images in order, or None when some image has none loaded. */
  function Concat(labels: seq<Option<seq<nat>>>): Option<seq<nat>>
  {
    if |labels| == 0 then Some([])
    else match (Concat(labels[..|labels| - 1]), labels[|labels| - 1])
      case (Some(front), Some(last)) => Some(front + last)
      case _ => None
  }

  /** labels_to_class_weights(labels, nc): the class column of every image's labels, counted per
      class, with empty classes counted once, inverted and normalised. Each image's labels are
      given by their class column. An empty result stands for the empty tensor. */
  function LabelsToClassWeights(labels: seq<Option<seq<nat>>>, nc: nat): Result<seq<real>, WeightError>
  {
    if |labels| == 0 then Err(NoImages)
    else if labels[0].None? then Ok([])
    else match Concat(labels)
      case None => Err(UnloadedLabels)
      case Some(classes) =>
        var w := Inverse(Bincount(classes, nc));
        if |w| == 0 then Ok([])
        else
          SumPositive(w);
          Ok(Normalise(w))
  }

  /** The weights: one per class (at least nc, more when a label's class exceeds it), all
      positive, summing to one, and ordered inversely to the class counts. */
  lemma ClassWeightsMeaning(labels: seq<Option<seq<nat>>>, nc: nat, classes: seq<nat>)
    requires |labels| > 0 && labels[0].Some? && Concat(labels) == Some(classes)
    requires nc > 0 || |classes| > 0
    ensures LabelsToClassWeights(labels, nc).Ok?
    ensures var w := LabelsToClassWeights(labels, nc).value;
      && |w| == (if nc >= ClassSpan(classes) then nc else ClassSpan(classes))
      && (forall c :: 0 <= c < |w| ==> w[c] > 0.0)
      && Sum(w) == 1.0
      && (forall c, d :: 0 <= c < |w| && 0 <= d < |w| && 1 <= CountOf(classes, c) <= CountOf(classes, d) ==> w[c] >= w[d])
      && (forall c, d :: 0 <= c < |w| && 0 <= d < |w| && CountOf(classes, c) == 0 && CountOf(classes, d) == 1 ==> w[c] == w[d])
  {
    var inv := Inverse(Bincount(classes, nc));
    if |classes| > 0 {
      assert ClassSpan(classes) > 0;
    }
    assert |inv| > 0;
    SumPositive(inv);
    NormaliseSumsToOne(inv);
    NormalisedPositive(inv);
    forall c, d | 0 <= c < |inv| && 0 <= d < |inv| && 1 <= CountOf(classes, c) <= CountOf(classes, d)
      ensures Normalise(inv)[c] >= Normalise(inv)[d]
    {
      InverseOrder(CountOf(classes, c), CountOf(classes, d));
      QuotientOrder(inv[d], inv[c], Sum(inv));
    }
  }

  lemma NormalisedPositive(w: seq<real>)
    requires Sum(w) > 0.0 && forall c :: 0 <= c < |w| ==> w[c] > 0.0
    ensures forall c :: 0 <= c < |w| ==> Normalise(w)[c] > 0.0
  {
    forall c | 0 <= c < |w|
      ensures Normalise(w)[c] > 0.0
    {
      PositiveQuotient(w[c], Sum(w));
    }
  }

  lemma InverseOrder(m: nat, n: nat)
    requires 1 <= m <= n
    ensures 1.0 / n as real <= 1.0 / m as real
  {
    MulMonoLeq(m as real, n as real, 1.0 / (m as real * n as real));
    assert m as real * (1.0 / (m as real * n as real)) == 1.0 / n as real;
    assert n as real * (1.0 / (m as real * n as real)) == 1.0 / m as real;
  }

}
