/**
 Mean and population variance of a non-empty sequence of pixel values,
 the two quantities the region scorer reports (the standard deviation is
 the square root of the variance).

 The variance is kept exact by scaling every deviation by the count `n`:
 with `S` the sum, `n * v - S` is `n` times the deviation of `v` from the
 mean, so the mean squared deviation is `Σ (n * v - S)^2 / n^3`.
 */
module Statistics {

  function Sum(s: seq<int>): int {
    if |s| == 0 then 0 else s[0] + Sum(s[1..])
  }

  /** Arithmetic mean: the value that, taken `|s|` times, adds up to the sum. */
  function Mean(s: seq<int>): (r: real)
    requires |s| > 0
    ensures r * |s| as real == Sum(s) as real
  {
    Sum(s) as real / |s| as real
  }

  /** `Σ (n * v - total)^2` over the values `v` of `s`. */
  function ScaledDeviation(s: seq<int>, n: int, total: int): (r: int)
    ensures 0 <= r
  {
    if |s| == 0 then 0
    else
      var d := n * s[0] - total;
      ScaledDeviation(s[1..], n, total) + d * d
  }

  /** `Σ (v - m)^2` over the values `v` of `s`: the squared deviations from `m`. */
  function SquaredDeviation(s: seq<int>, m: real): real {
    if |s| == 0 then 0.0
    else
      var d := s[0] as real - m;
      SquaredDeviation(s[1..], m) + d * d
  }

  /** Population variance: the mean of the squared deviations from the mean (divides by `n`, not `n - 1`). */
  function Variance(s: seq<int>): (r: real)
    requires |s| > 0
    ensures 0.0 <= r
  {
    var n := |s|;
    ScaledDeviation(s, n, Sum(s)) as real / (n * n * n) as real
  }

  /** All values are the same. */
  predicate Uniform(s: seq<int>) {
    forall i :: 0 <= i < |s| ==> s[i] == s[0]
  }

  lemma {:induction false} SumBounds(s: seq<int>, lo: int, hi: int)
    requires forall i :: 0 <= i < |s| ==> lo <= s[i] <= hi
    ensures |s| * lo <= Sum(s) <= |s| * hi
  {
    if |s| > 0 {
      SumBounds(s[1..], lo, hi);
      assert |s| * lo == lo + (|s| - 1) * lo;
      assert |s| * hi == hi + (|s| - 1) * hi;
    }
  }

  /** The mean lies between any bounds that hold for every value. */
  lemma MeanBounds(s: seq<int>, lo: int, hi: int)
    requires |s| > 0
    requires forall i :: 0 <= i < |s| ==> lo <= s[i] <= hi
    ensures lo as real <= Mean(s) <= hi as real
  {
    SumBounds(s, lo, hi);
    QuotientBounds(Sum(s), |s|, lo, hi);
  }

  lemma QuotientBounds(total: int, n: int, lo: int, hi: int)
    requires 0 < n && n * lo <= total <= n * hi
    ensures lo as real <= total as real / n as real <= hi as real
  {
    CastProduct(n, lo);
    CastProduct(n, hi);
    DivideBounds(total as real, n as real, lo as real, hi as real);
  }

  lemma CastProduct(a: int, b: int)
    ensures (a * b) as real == a as real * b as real
  {
  }

  lemma DivideBounds(a: real, n: real, lo: real, hi: real)
    requires 0.0 < n && n * lo <= a <= n * hi
    ensures lo <= a / n <= hi
  {
    var q := a / n;
    assert a == n * q;
  }

  lemma {:induction false} SumConstant(s: seq<int>, v: int)
    requires forall i :: 0 <= i < |s| ==> s[i] == v
    ensures Sum(s) == |s| * v
  {
    if |s| > 0 {
      SumConstant(s[1..], v);
      assert |s| * v == v + (|s| - 1) * v;
    }
  }

  /** Deviations vanish when every value, scaled by `n`, equals the total. */
  lemma {:induction false} BalancedDeviation(s: seq<int>, n: int, total: int)
    requires forall i :: 0 <= i < |s| ==> n * s[i] == total
    ensures ScaledDeviation(s, n, total) == 0
  {
    if |s| > 0 {
      BalancedDeviation(s[1..], n, total);
    }
  }

  /** A vanishing sum of squared scaled deviations means every scaled value equals the total. */
  lemma {:induction false} ZeroDeviation(s: seq<int>, n: int, total: int)
    requires ScaledDeviation(s, n, total) == 0
    ensures forall i :: 0 <= i < |s| ==> n * s[i] == total
  {
    if |s| > 0 {
      var d := n * s[0] - total;
      assert d * d >= 0;
      assert ScaledDeviation(s[1..], n, total) == 0 && d * d == 0;
      ZeroDeviation(s[1..], n, total);
      forall i | 0 <= i < |s| ensures n * s[i] == total {
        if i > 0 {
          assert s[i] == s[1..][i - 1];
        }
      }
    }
  }

  /** The mean of a uniform sequence is its common value. */
  lemma UniformMean(s: seq<int>)
    requires |s| > 0 && Uniform(s)
    ensures Mean(s) == s[0] as real
  {
    SumConstant(s, s[0]);
    assert (|s| * s[0]) as real == |s| as real * s[0] as real;
  }

  lemma CancelFactor(n: int, a: int, b: int)
    requires 0 < n && n * a == n * b
    ensures a == b
  {
  }

  /** The population variance is zero exactly when all values are equal. */
  lemma VarianceZeroIffUniform(s: seq<int>)
    requires |s| > 0
    ensures Variance(s) == 0.0 <==> Uniform(s)
  {
    var n := |s|;
    var total := Sum(s);
    var cube := (n * n * n) as real;
    assert 0.0 < cube;
    if Uniform(s) {
      SumConstant(s, s[0]);
      BalancedDeviation(s, n, total);
    }
    if Variance(s) == 0.0 {
      assert ScaledDeviation(s, n, total) as real == Variance(s) * cube;
      ZeroDeviation(s, n, total);
      forall i | 0 <= i < n ensures s[i] == s[0] {
        CancelFactor(n, s[i], s[0]);
      }
    }
  }

  /**
   The scaled form is the population variance as usually written: the sum
   of the squared deviations from the mean, divided by the count `n` (not
   `n - 1`).
   */
  lemma VarianceIsMeanSquaredDeviation(s: seq<int>)
    requires |s| > 0
    ensures Variance(s) == SquaredDeviation(s, Mean(s)) / |s| as real
  {
    VarianceAround(s, Mean(s));
  }

  /** The variance is the squared deviation from any `m` with `m * n == Sum(s)`, divided by `n`. */
  lemma VarianceAround(s: seq<int>, m: real)
    requires |s| > 0 && m * |s| as real == Sum(s) as real
    ensures Variance(s) == SquaredDeviation(s, m) / |s| as real
  {
    var n := |s|;
    ScaledIsSquared(s, n, Sum(s), m);
    ScaledQuotient(Variance(s), ScaledDeviation(s, n, Sum(s)), n, SquaredDeviation(s, m));
  }

  lemma CubeCast(n: int)
    ensures (n * n * n) as real == n as real * n as real * n as real
  {
    CastProduct(n, n);
    CastProduct(n * n, n);
  }

  /** Dividing `n^2 * q` by `n^3` leaves `q / n`. */
  lemma ScaledQuotient(variance: real, scaled: int, n: int, q: real)
    requires 0 < n
    requires ScaledBy(scaled, q, n)
    requires variance == scaled as real / (n * n * n) as real
    ensures variance == q / n as real
  {
    CubeCast(n);
    CancelSquare(n as real, q);
  }

  /** `scaled` is `n^2` times `plain`: how a deviation scaled by `n` relates to the plain one. */
  predicate ScaledBy(scaled: int, plain: real, n: int) {
    scaled as real == (n as real * n as real) * plain
  }

  /** Summed over a sequence, each scaled deviation squared is `n^2` times the plain one squared, for the mean `m = total / n`. */
  lemma {:induction false} ScaledIsSquared(s: seq<int>, n: int, total: int, m: real)
    requires 0 < n && m * n as real == total as real
    ensures ScaledBy(ScaledDeviation(s, n, total), SquaredDeviation(s, m), n)
  {
    if |s| > 0 {
      ScaledIsSquared(s[1..], n, total, m);
      ScaledHead(s, n, total, m);
    }
  }

  /** The inductive step of `ScaledIsSquared`: adding the first value keeps the relation. */
  lemma ScaledHead(s: seq<int>, n: int, total: int, m: real)
    requires 0 < |s| && m * n as real == total as real
    requires ScaledBy(ScaledDeviation(s[1..], n, total), SquaredDeviation(s[1..], m), n)
    ensures ScaledBy(ScaledDeviation(s, n, total), SquaredDeviation(s, m), n)
  {
    ScaledUnfold(s, n, total);
    SquaredUnfold(s, m);
    HeadAlgebra(ScaledDeviation(s, n, total), ScaledDeviation(s[1..], n, total),
                SquaredDeviation(s, m), SquaredDeviation(s[1..], m), n, s[0], total, m);
  }

  lemma ScaledUnfold(s: seq<int>, n: int, total: int)
    requires 0 < |s|
    ensures ScaledDeviation(s, n, total) == ScaledDeviation(s[1..], n, total) + (n * s[0] - total) * (n * s[0] - total)
  {
  }

  lemma SquaredUnfold(s: seq<int>, m: real)
    requires 0 < |s|
    ensures SquaredDeviation(s, m) == SquaredDeviation(s[1..], m) + (s[0] as real - m) * (s[0] as real - m)
  {
  }

  /** One step of the sum: if the tails are related by `n^2`, so are the sums with the head `v` added. */
  lemma HeadAlgebra(scaled: int, scaledRest: int, plain: real, plainRest: real, n: int, v: int, total: int, m: real)
    requires m * n as real == total as real
    requires scaled == scaledRest + (n * v - total) * (n * v - total)
    requires plain == plainRest + (v as real - m) * (v as real - m)
    requires ScaledBy(scaledRest, plainRest, n)
    ensures ScaledBy(scaled, plain, n)
  {
    ScaledStep(n, v, total, m);
    CombineStep(n as real * n as real, plainRest, (v as real - m) * (v as real - m), scaledRest, (n * v - total) * (n * v - total));
  }

  lemma CombineStep(square: real, rest: real, step: real, scaledRest: int, scaledStep: int)
    requires scaledRest as real == square * rest
    requires scaledStep as real == square * step
    ensures (scaledRest + scaledStep) as real == square * (rest + step)
  {
    Distribute(square, rest, step);
  }

  lemma Distribute(k: real, a: real, b: real)
    ensures k * a + k * b == k * (a + b)
  {
  }

  /** `(n * v - total)^2 == n^2 * (v - m)^2` when `n * m == total`. */
  lemma ScaledStep(n: int, v: int, total: int, m: real)
    requires m * n as real == total as real
    ensures ((n * v - total) * (n * v - total)) as real == (n as real * n as real) * ((v as real - m) * (v as real - m))
  {
    var e := v as real - m;
    CastProduct(n, v);
    assert (n * v - total) as real == n as real * e;
    CastProduct(n * v - total, n * v - total);
  }

  lemma CancelSquare(count: real, q: real)
    requires 0.0 < count
    ensures (count * count * q) / (count * count * count) == q / count
  {
    var c3 := count * count * count;
    assert 0.0 < count * count;
    assert 0.0 < c3;
    assert c3 * (q / count) == count * count * q;
  }
}
