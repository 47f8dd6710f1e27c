/** Population statistics of a pulse sequence, in exact arithmetic.

    The receiver compares a floating-point standard deviation against a
    bound. Dafny has no square root, so the model keeps the real-valued mean
    and variance as ghost reference definitions and works, in the executable
    parts, with the integer `Spread(xs) = n * SumSq(xs) - Sum(xs)^2`, which is
    `n^2` times the variance. A standard deviation is any `sigma >= 0` whose
    square is the variance. */
module Stats {
  import opened RealArith

  function Sum(xs: seq<int>): int
  {
    if xs == [] then 0 else xs[0] + Sum(xs[1..])
  }

  function SumSq(xs: seq<int>): int
  {
    if xs == [] then 0 else xs[0] * xs[0] + SumSq(xs[1..])
  }

  /** `n^2` times the population variance (see `SpreadIsScaledVariance`). */
  function Spread(xs: seq<int>): int
  {
    |xs| * SumSq(xs) - Sum(xs) * Sum(xs)
  }

  ghost function Mean(xs: seq<int>): real
    requires |xs| > 0
  {
    Sum(xs) as real / |xs| as real
  }

  /** Sum of squared deviations from `m`. */
  ghost function SqDev(xs: seq<int>, m: real): real
  {
    if xs == [] then 0.0
    else (xs[0] as real - m) * (xs[0] as real - m) + SqDev(xs[1..], m)
  }

  /** Population variance: the mean squared deviation from the mean. */
  ghost function Variance(xs: seq<int>): real
    requires |xs| > 0
  {
    SqDev(xs, Mean(xs)) / |xs| as real
  }

  /** `sigma` is the population standard deviation of `xs`. */
  ghost predicate IsStdDev(xs: seq<int>, sigma: real)
  {
    |xs| > 0 && sigma >= 0.0 && sigma * sigma == Variance(xs)
  }

  /** Integer test for "standard deviation strictly below `bound`". */
  predicate StdDevBelow(xs: seq<int>, bound: nat)
  {
    Spread(xs) < |xs| * |xs| * bound * bound
  }

  /** A sum of squares is never negative. */
  lemma {:induction false} SqDevNonNegative(xs: seq<int>, m: real)
    ensures SqDev(xs, m) >= 0.0
  {
    if xs != [] {
      SqDevNonNegative(xs[1..], m);
    }
  }

  /** The squared deviations from `m`, expanded into the moments. */
  ghost predicate ExpandsAt(xs: seq<int>, m: real)
  {
    SqDev(xs, m) == SumSq(xs) as real - 2.0 * m * Sum(xs) as real + |xs| as real * m * m
  }

  /** Expanding the squares: the sum of squared deviations from any `m` is
      a function of the count, the sum and the sum of squares. */
  lemma {:induction false} SqDevExpand(xs: seq<int>, m: real)
    ensures ExpandsAt(xs, m)
    decreases |xs|
  {
    if xs != [] {
      var rest := xs[1..];
      SqDevExpand(rest, m);
      RealOfProduct(xs[0], xs[0]);
      ExpandStep(xs[0] as real, m, |rest| as real, Sum(rest) as real, SumSq(rest) as real, SqDev(rest, m),
                 |xs| as real, Sum(xs) as real, SumSq(xs) as real, SqDev(xs, m));
    }
  }

  /** `n` times the sum of squared deviations from the mean is the spread. */
  lemma {:induction false} SpreadIsScaledSqDev(xs: seq<int>)
    requires |xs| > 0
    ensures |xs| as real * SqDev(xs, Mean(xs)) == Spread(xs) as real
  {
    var m := Mean(xs);
    SqDevExpand(xs, m);
    AtMeanCore(|xs|, Sum(xs), SumSq(xs), m, SqDev(xs, m));
  }

  /** The integer spread is exactly `n^2` times the real-valued variance. */
  lemma {:induction false} SpreadIsScaledVariance(xs: seq<int>)
    requires |xs| > 0
    ensures |xs| as real * |xs| as real * Variance(xs) == Spread(xs) as real
  {
    SpreadIsScaledSqDev(xs);
    DivScale(|xs| as real, SqDev(xs, Mean(xs)), Variance(xs));
  }

  /** The variance, hence the spread, is never negative. */
  lemma {:induction false} SpreadNonNegative(xs: seq<int>)
    ensures Spread(xs) >= 0
  {
    if xs != [] {
      SqDevNonNegative(xs, Mean(xs));
      SpreadIsScaledVariance(xs);
      var n := |xs| as real;
      assert Variance(xs) >= 0.0;
      assert (|xs| * |xs|) as real >= 0.0;
    }
  }

  /** The qualifier test over moments: `n` values with spread `sp`, whose
      variance `v` is the square of `sigma`. */
  lemma BelowFromMoments(n: int, sp: int, bound: nat, sigma: real, v: real)
    ensures n > 0 && sigma >= 0.0 && sigma * sigma == v && n as real * n as real * v == sp as real ==>
      (sigma < bound as real <==> sp < n * n * bound * bound)
  {
    if n > 0 && sigma >= 0.0 && sigma * sigma == v && n as real * n as real * v == sp as real {
      var b := bound as real;
      var nr := n as real;
      assert nr * nr * (sigma * sigma) == sp as real;
      SquareStrictMonotone(sigma, b);
      ScaleBySquare(nr, sigma * sigma, b * b);
      RealOfProduct(n, n);
      RealOfProduct(bound, bound);
      RealOfProduct(n * n, bound * bound);
      assert (n * n * bound * bound) as real == nr * nr * (b * b);
    }
  }

  /** The integer qualifier test agrees with comparing the standard deviation. */
  lemma {:induction false} StdDevBelowMeaning(xs: seq<int>, bound: nat, sigma: real)
    requires IsStdDev(xs, sigma)
    ensures sigma < bound as real <==> StdDevBelow(xs, bound)
  {
    SpreadIsScaledVariance(xs);
    BelowFromMoments(|xs|, Spread(xs), bound, sigma, Variance(xs));
  }
}
