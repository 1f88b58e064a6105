/**
 The score decoder of `predictDisease`: the interpreter's raw signed 8-bit
 scores are dequantized with the output tensor's scale and zero point,
 clipped into [0, 1] and turned into a probability distribution by softmax.
 Floating-point values are modelled as `real`; the exponential is a parameter
 (any positive, strictly increasing function).
 */
module Scores {
  import opened Numerics

  /** Quantization parameters of the interpreter's output tensor. */
  datatype QuantParams = QuantParams(scale: real, zeroPoint: Int32)

  /** Zero points for which `int8Value - zeroPoint` cannot leave the 32-bit
      range, whatever the signed byte; int8 tensors use zero points in
      [-128, 127], well inside it. */
  predicate NoWrap(q: QuantParams) {
    -0x7FFF_FF80 <= q.zeroPoint <= 0x7FFF_FF80
  }

  /** `(int8Value - zeroPoint) * scale`, the subtraction done in 32-bit `Int`
      arithmetic. */
  function Dequantize(b: Int8, q: QuantParams): (r: real)
    ensures NoWrap(q) ==> r == (b - q.zeroPoint) as real * q.scale
  {
    WrapInt32(b - q.zeroPoint) as real * q.scale
  }

  /** One real score per raw output byte, in the same order. */
  function DequantizeAll(raw: seq<Int8>, q: QuantParams): (r: seq<real>)
    ensures |r| == |raw|
    ensures forall i :: 0 <= i < |raw| ==> r[i] == Dequantize(raw[i], q)
    ensures forall i :: 0 <= i < |raw| ==> NoWrap(q) ==> r[i] == (raw[i] - q.zeroPoint) as real * q.scale
  {
    seq(|raw|, i requires 0 <= i < |raw| => Dequantize(raw[i], q))
  }

  /** With a positive scale, dequantization keeps the order of the raw bytes:
      a larger byte is a larger score and conversely. */
  lemma DequantizeKeepsOrder(b: Int8, c: Int8, q: QuantParams)
    requires q.scale > 0.0 && NoWrap(q)
    ensures b < c <==> Dequantize(b, q) < Dequantize(c, q)
    ensures b == c <==> Dequantize(b, q) == Dequantize(c, q)
  {
    var x, y := (b - q.zeroPoint) as real, (c - q.zeroPoint) as real;
    if b < c {
      assert (y - x) * q.scale > 0.0;
    } else if b > c {
      assert (x - y) * q.scale > 0.0;
    }
  }

  /** Round trip: with a non-zero scale, the raw byte is recovered from its
      score as `zeroPoint + score / scale`. */
  lemma DequantizeRoundTrip(b: Int8, q: QuantParams)
    requires q.scale != 0.0 && NoWrap(q)
    ensures b == q.zeroPoint + (Dequantize(b, q) / q.scale).Floor
  {
    var x := (b - q.zeroPoint) as real;
    assert Dequantize(b, q) / q.scale == x;
  }

  /** `x.coerceIn(0f, 1f)` */
  function Clamp(x: real): (r: real)
    ensures 0.0 <= r <= 1.0
    ensures 0.0 <= x <= 1.0 ==> r == x
  {
    if x < 0.0 then 0.0 else if x > 1.0 then 1.0 else x
  }

  function Abs(x: real): real {
    if x < 0.0 then -x else x
  }

  /** The clamped value is the point of [0, 1] nearest to the input. */
  lemma ClampNearest(x: real, y: real)
    requires 0.0 <= y <= 1.0
    ensures Abs(Clamp(x) - x) <= Abs(y - x)
  {
  }

  /** Clamping never reverses the order of two scores. */
  lemma ClampMonotone(x: real, y: real)
    requires x <= y
    ensures Clamp(x) <= Clamp(y)
  {
  }

  /** `rawScores.map { it.coerceIn(0f, 1f) }` */
  function ClampAll(v: seq<real>): (r: seq<real>)
    ensures |r| == |v|
    ensures forall i :: 0 <= i < |r| ==> 0.0 <= r[i] <= 1.0
    ensures forall i :: 0 <= i < |r| ==> 0.0 <= v[i] <= 1.0 ==> r[i] == v[i]
    ensures forall i :: 0 <= i < |r| ==> (v[i] < 0.0 ==> r[i] == 0.0) && (v[i] > 1.0 ==> r[i] == 1.0)
  {
    seq(|v|, i requires 0 <= i < |v| => Clamp(v[i]))
  }

  /** Clamping a clamped vector changes nothing. */
  lemma ClampAllIdempotent(v: seq<real>)
    ensures ClampAll(ClampAll(v)) == ClampAll(v)
  {
  }

  /** `sum()` of a list of scores. */
  function Sum(s: seq<real>): real {
    if |s| == 0 then 0.0 else s[0] + Sum(s[1..])
  }

  lemma {:induction false} SumPositive(s: seq<real>)
    requires |s| > 0
    requires forall i :: 0 <= i < |s| ==> s[i] > 0.0
    ensures Sum(s) > 0.0
  {
    if |s| > 1 {
      SumPositive(s[1..]);
    }
  }

  /** In a vector of non-negative values no entry exceeds the total. */
  lemma {:induction false} EntryAtMostSum(s: seq<real>, k: int)
    requires forall i :: 0 <= i < |s| ==> s[i] >= 0.0
    requires 0 <= k < |s|
    ensures s[k] <= Sum(s)
  {
    if |s| > 1 {
      SumNonNegative(s[1..]);
      if k > 0 {
        EntryAtMostSum(s[1..], k - 1);
      }
    }
  }

  lemma {:induction false} SumNonNegative(s: seq<real>)
    requires forall i :: 0 <= i < |s| ==> s[i] >= 0.0
    ensures Sum(s) >= 0.0
  {
    if |s| > 0 {
      SumNonNegative(s[1..]);
    }
  }

  /** Every entry divided by `c`. */
  function DivideAll(s: seq<real>, c: real): seq<real>
    requires c != 0.0
  {
    seq(|s|, i requires 0 <= i < |s| => s[i] / c)
  }

  /** Dividing every entry by `c` divides the total by `c`. */
  lemma {:induction false} SumDivided(s: seq<real>, c: real)
    requires c != 0.0
    ensures Sum(DivideAll(s, c)) == Sum(s) / c
  {
    if |s| > 0 {
      assert DivideAll(s, c)[1..] == DivideAll(s[1..], c);
      SumDivided(s[1..], c);
    }
  }

  /** An upper bound on every entry bounds the total by `|s|` times it. */
  lemma {:induction false} SumAtMostBound(s: seq<real>, bound: real)
    requires forall i :: 0 <= i < |s| ==> s[i] <= bound
    ensures Sum(s) <= |s| as real * bound
  {
    if |s| > 0 {
      SumAtMostBound(s[1..], bound);
    }
  }

  /** `n` copies of `c` add up to `n * c`. */
  lemma {:induction false} SumConstant(s: seq<real>, c: real)
    requires forall i :: 0 <= i < |s| ==> s[i] == c
    ensures Sum(s) == |s| as real * c
  {
    if |s| > 0 {
      SumConstant(s[1..], c);
    }
  }

  /** The properties of `exp` the classifier relies on: positive and strictly
      increasing. */
  ghost predicate ExpLike(exp: real -> real) {
    && (forall x :: exp(x) > 0.0)
    && (forall x, y :: x < y ==> exp(x) < exp(y))
  }

  /** `e.map { it / e.sum() }` for positive weights `e`. */
  function Normalize(e: seq<real>): (r: seq<real>)
    requires forall i :: 0 <= i < |e| ==> e[i] > 0.0
    ensures |r| == |e|
    ensures forall i :: 0 <= i < |r| ==> 0.0 < r[i] <= 1.0
    ensures |r| > 0 ==> Sum(r) == 1.0
    ensures forall i, j :: 0 <= i < |r| && 0 <= j < |r| ==> (e[i] < e[j] <==> r[i] < r[j])
    ensures forall i, j :: 0 <= i < |r| && 0 <= j < |r| ==> (e[i] == e[j] <==> r[i] == r[j])
  {
    if |e| == 0 then []
    else
      SumPositive(e);
      NormalizedEntries(e);
      DivideAll(e, Sum(e))
  }

  lemma NormalizedEntries(e: seq<real>)
    requires |e| > 0 && forall i :: 0 <= i < |e| ==> e[i] > 0.0
    ensures Sum(e) > 0.0
    ensures var r := DivideAll(e, Sum(e));
      && Sum(r) == 1.0
      && (forall i :: 0 <= i < |r| ==> 0.0 < r[i] <= 1.0)
      && (forall i, j :: 0 <= i < |r| && 0 <= j < |r| ==> (e[i] < e[j] <==> r[i] < r[j]))
      && (forall i, j :: 0 <= i < |r| && 0 <= j < |r| ==> (e[i] == e[j] <==> r[i] == r[j]))
  {
    SumPositive(e);
    var total := Sum(e);
    var r := DivideAll(e, total);
    SumDivided(e, total);
    DivideKeepsOrder(total, total, total);
    forall i | 0 <= i < |r|
      ensures 0.0 < r[i] <= 1.0
    {
      assert r[i] == e[i] / total;
      EntryAtMostSum(e, i);
      DivideKeepsOrder(e[i], total, total);
    }
    forall i, j | 0 <= i < |r| && 0 <= j < |r|
      ensures e[i] < e[j] <==> r[i] < r[j]
      ensures e[i] == e[j] <==> r[i] == r[j]
    {
      assert r[i] == e[i] / total && r[j] == e[j] / total;
      DivideKeepsOrder(e[i], e[j], total);
    }
  }

  lemma DivideKeepsOrder(a: real, b: real, t: real)
    requires t > 0.0
    ensures a < b <==> a / t < b / t
    ensures a <= b <==> a / t <= b / t
    ensures a == b <==> a / t == b / t
    ensures 0.0 < a ==> 0.0 < a / t
    ensures t / t == 1.0
  {
    assert a == (a / t) * t && b == (b / t) * t;
  }

  lemma ExpPositive(exp: real -> real, x: real)
    requires ExpLike(exp)
    ensures exp(x) > 0.0
  {
  }

  lemma ExpIncreasing(exp: real -> real, x: real, y: real)
    requires ExpLike(exp) && x < y
    ensures exp(x) < exp(y)
  {
  }

  /** `clampedScores.map { exp(it) }` */
  function ExpAll(v: seq<real>, exp: real -> real): seq<real> {
    seq(|v|, i requires 0 <= i < |v| => exp(v[i]))
  }

  lemma ExpWeights(v: seq<real>, exp: real -> real, e: seq<real>)
    requires ExpLike(exp)
    requires e == ExpAll(v, exp)
    ensures forall i :: 0 <= i < |e| ==> e[i] > 0.0
    ensures forall i, j :: 0 <= i < |v| && 0 <= j < |v| ==> (v[i] < v[j] <==> e[i] < e[j])
    ensures forall i, j :: 0 <= i < |v| && 0 <= j < |v| ==> (v[i] == v[j] <==> e[i] == e[j])
  {
    forall i | 0 <= i < |e|
      ensures e[i] > 0.0
    {
      ExpPositive(exp, v[i]);
    }
    forall i, j | 0 <= i < |v| && 0 <= j < |v|
      ensures v[i] < v[j] <==> e[i] < e[j]
      ensures v[i] == v[j] <==> e[i] == e[j]
    {
      if v[i] < v[j] {
        ExpIncreasing(exp, v[i], v[j]);
      } else if v[j] < v[i] {
        ExpIncreasing(exp, v[j], v[i]);
      }
    }
  }

  /** Softmax over the clamped scores: `exp` of each score divided by the sum
      of all of them. */
  function Softmax(v: seq<real>, exp: real -> real): (r: seq<real>)
    requires ExpLike(exp)
    ensures |r| == |v|
    ensures forall i :: 0 <= i < |r| ==> 0.0 < r[i] <= 1.0
    ensures |r| > 0 ==> Sum(r) == 1.0
    ensures forall i, j :: 0 <= i < |r| && 0 <= j < |r| ==> (v[i] < v[j] <==> r[i] < r[j])
    ensures forall i, j :: 0 <= i < |r| && 0 <= j < |r| ==> (v[i] == v[j] <==> r[i] == r[j])
  {
    var e := ExpAll(v, exp);
    ExpWeights(v, exp, e);
    Normalize(e)
  }

  /** Softmax of a vector of `n` equal scores is the uniform distribution:
      every entry is 1/n. */
  lemma SoftmaxOfConstant(v: seq<real>, exp: real -> real, n: real)
    requires ExpLike(exp) && |v| > 0 && n == |v| as real
    requires forall i :: 0 <= i < |v| ==> v[i] == v[0]
    ensures forall i :: 0 <= i < |v| ==> n * Softmax(v, exp)[i] == 1.0
  {
    var r := Softmax(v, exp);
    forall i | 0 <= i < |r|
      ensures r[i] == r[0]
    {
      assert v[i] == v[0];
    }
    EqualShares(r, n);
  }

  /** Equal entries adding up to one are each one `n`-th, `n` the length. */
  lemma EqualShares(r: seq<real>, n: real)
    requires |r| > 0 && n == |r| as real && Sum(r) == 1.0
    requires forall i :: 0 <= i < |r| ==> r[i] == r[0]
    ensures forall i :: 0 <= i < |r| ==> n * r[i] == 1.0
  {
    SumConstant(r, r[0]);
    forall i | 0 <= i < |r|
      ensures n * r[i] == 1.0
    {
      assert n * r[i] == n * r[0];
    }
  }

  lemma ExpMonotone(exp: real -> real, x: real, y: real)
    requires ExpLike(exp) && x <= y
    ensures exp(x) <= exp(y)
  {
    if x < y {
      ExpIncreasing(exp, x, y);
    }
  }

  /** A lower bound on every entry bounds the total from below. */
  lemma {:induction false} SumAtLeastBound(s: seq<real>, bound: real)
    requires forall i :: 0 <= i < |s| ==> s[i] >= bound
    ensures Sum(s) >= |s| as real * bound
  {
    if |s| > 0 {
      SumAtLeastBound(s[1..], bound);
    }
  }

  /** The total is at least one entry plus the lower bound for each of the
      others. */
  lemma {:induction false} SumAtLeastEntryPlusRest(s: seq<real>, k: int, bound: real)
    requires 0 <= k < |s|
    requires forall i :: 0 <= i < |s| ==> s[i] >= bound
    ensures Sum(s) >= s[k] + (|s| - 1) as real * bound
  {
    if k == 0 {
      SumAtLeastBound(s[1..], bound);
    } else {
      SumAtLeastEntryPlusRest(s[1..], k - 1, bound);
    }
  }

  /** `x / (x + rest)` grows with `x` and shrinks with `rest`. */
  lemma FractionBound(x: real, hi: real, rest: real, m: real)
    requires 0.0 < x <= hi && 0.0 <= m <= rest
    ensures x / (x + rest) <= hi / (hi + m)
  {
    assert x * m <= hi * m;
    assert hi * m <= hi * rest;
    assert x * (hi + m) == x * hi + x * m;
    assert hi * (x + rest) == hi * x + hi * rest;
    CrossMultiply(x, x + rest, hi, hi + m);
  }

  lemma CrossMultiply(a: real, b: real, c: real, d: real)
    requires b > 0.0 && d > 0.0 && a * d <= c * b
    ensures a / b <= c / d
  {
    var p, q := a / b, c / d;
    assert a == p * b && c == q * d;
    assert p * (b * d) <= q * (b * d);
  }

  /** Positive weights all within [lo, hi] normalise to entries of at most
      `hi / (hi + m)`, where `m = (|e| - 1) * lo` is the least the other
      weights can add. */
  lemma NormalizeBounded(e: seq<real>, lo: real, hi: real, m: real)
    requires |e| > 0 && 0.0 < lo && m == (|e| - 1) as real * lo
    requires forall i :: 0 <= i < |e| ==> lo <= e[i] <= hi
    ensures Sum(e) > 0.0 && hi + m > 0.0
    ensures forall i :: 0 <= i < |e| ==> e[i] / Sum(e) <= hi / (hi + m)
  {
    SumPositive(e);
    forall i | 0 <= i < |e|
      ensures e[i] / Sum(e) <= hi / (hi + m)
    {
      EntryShareBounded(e, i, lo, hi, m);
    }
  }

  lemma EntryShareBounded(e: seq<real>, k: int, lo: real, hi: real, m: real)
    requires 0 <= k < |e| && 0.0 < lo && m == (|e| - 1) as real * lo
    requires forall i :: 0 <= i < |e| ==> lo <= e[i] <= hi
    ensures Sum(e) > 0.0 && hi + m > 0.0
    ensures e[k] / Sum(e) <= hi / (hi + m)
  {
    SumAtLeastEntryPlusRest(e, k, lo);
    var total, x := Sum(e), e[k];
    NonNegativeProduct((|e| - 1) as real, lo);
    FractionBound(x, hi, total - x, m);
    assert x + (total - x) == total;
  }

  lemma NonNegativeProduct(a: real, b: real)
    requires 0.0 <= a && 0.0 <= b
    ensures 0.0 <= a * b
  {
  }

  /** Entries equal to quotients that are each bounded are bounded. */
  lemma QuotientsBounded(r: seq<real>, e: seq<real>, total: real, bound: real)
    requires |r| == |e| && total != 0.0
    requires forall i :: 0 <= i < |r| ==> r[i] == e[i] / total
    requires forall i :: 0 <= i < |e| ==> e[i] / total <= bound
    ensures forall i :: 0 <= i < |r| ==> r[i] <= bound
  {
  }

  /** When every score lies in [0, 1], no softmax entry exceeds
      `exp(1) / (exp(1) + (|v| - 1) * exp(0))`: with many classes the
      distribution stays close to uniform. */
  lemma SoftmaxOfUnitScoresBounded(v: seq<real>, exp: real -> real, others: real)
    requires ExpLike(exp) && |v| > 0 && others == (|v| - 1) as real
    requires forall i :: 0 <= i < |v| ==> 0.0 <= v[i] <= 1.0
    ensures exp(1.0) + others * exp(0.0) > 0.0
    ensures forall i :: 0 <= i < |v| ==>
      Softmax(v, exp)[i] <= exp(1.0) / (exp(1.0) + others * exp(0.0))
  {
    UnitScoreWeights(v, exp);
    NormalizeBounded(ExpAll(v, exp), exp(0.0), exp(1.0), others * exp(0.0));
    SoftmaxIsDivided(v, exp);
    QuotientsBounded(Softmax(v, exp), ExpAll(v, exp), Sum(ExpAll(v, exp)),
      exp(1.0) / (exp(1.0) + others * exp(0.0)));
  }

  lemma UnitScoreWeights(v: seq<real>, exp: real -> real)
    requires ExpLike(exp)
    requires forall i :: 0 <= i < |v| ==> 0.0 <= v[i] <= 1.0
    ensures exp(0.0) > 0.0
    ensures forall i :: 0 <= i < |v| ==> exp(0.0) <= ExpAll(v, exp)[i] <= exp(1.0)
  {
    ExpPositive(exp, 0.0);
    forall i | 0 <= i < |v|
      ensures exp(0.0) <= ExpAll(v, exp)[i] <= exp(1.0)
    {
      ExpMonotone(exp, 0.0, v[i]);
      ExpMonotone(exp, v[i], 1.0);
    }
  }

  lemma SoftmaxIsDivided(v: seq<real>, exp: real -> real)
    requires ExpLike(exp) && |v| > 0
    ensures Sum(ExpAll(v, exp)) != 0.0
    ensures forall i :: 0 <= i < |v| ==> Softmax(v, exp)[i] == ExpAll(v, exp)[i] / Sum(ExpAll(v, exp))
  {
    var e := ExpAll(v, exp);
    ExpWeights(v, exp, e);
    SumPositive(e);
    assert Softmax(v, exp) == DivideAll(e, Sum(e));
  }
}
