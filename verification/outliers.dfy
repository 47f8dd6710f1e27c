/** The outlier filter applied to a qualified burst before bit decoding:
    values farther than two standard deviations from the mean are dropped,
    the rest keep their order. */
module Outliers {
  import opened Config
  import opened Stats
  import opened RealArith

  /** `r` can be obtained from `s` by deleting elements (order preserved). */
  predicate IsSubsequence(r: seq<int>, s: seq<int>)
    decreases |s|
  {
    if r == [] then true
    else if s == [] then false
    else if r[0] == s[0] then IsSubsequence(r[1..], s[1..])
    else IsSubsequence(r, s[1..])
  }

  /** Integer form of `mean - 2*sigma <= x <= mean + 2*sigma` over `xs`
      (see `WithinBandMeaning`). */
  predicate WithinBand(xs: seq<int>, x: int)
  {
    InBand(|xs|, Sum(xs), Spread(xs), x)
  }

  /** The band test over moments: `n` values summing to `s` with spread `sp`. */
  predicate InBand(n: int, s: int, sp: int, x: int)
  {
    (n * x - s) * (n * x - s) <= STD_MULTIPLIER * STD_MULTIPLIER * sp
  }

  /** The band test over plain moments: `n` values summing to `s` whose
      spread is `sp`, with real mean `mean`, variance `v` and standard
      deviation `sigma`. */
  lemma BandFromMoments(n: int, s: int, sp: int, x: int, mean: real, sigma: real, v: real)
    ensures n > 0 && sigma >= 0.0 && mean == s as real / n as real &&
            sigma * sigma == v && n as real * n as real * v == sp as real ==>
      (mean - 2.0 * sigma <= x as real <= mean + 2.0 * sigma <==> InBand(n, s, sp, x))
  {
    if n > 0 && sigma >= 0.0 && mean == s as real / n as real && sigma * sigma == v && n as real * n as real * v == sp as real {
      assert n as real * n as real * (sigma * sigma) == sp as real;
      BandFromMomentsCore(n, s, sp, x, mean, sigma);
    }
  }

  lemma BandFromMomentsCore(n: int, s: int, sp: int, x: int, mean: real, sigma: real)
    requires n > 0 && sigma >= 0.0 && mean == s as real / n as real
    requires n as real * n as real * (sigma * sigma) == sp as real
    ensures mean - 2.0 * sigma <= x as real <= mean + 2.0 * sigma <==> InBand(n, s, sp, x)
  {
    var e := n * x - s;
    RealOfProduct(e, e);
    DivMul(s as real, n as real);
    RealOfProduct(n, x);
    assert e as real == n as real * (x as real - mean);
    IntervalBySquare(n as real, mean, x as real, e as real, 2.0, sigma, sp as real);
    RealOfProduct(STD_MULTIPLIER * STD_MULTIPLIER, sp);
  }

  /** The integer band test agrees with the real-valued interval test. */
  lemma {:induction false} WithinBandMeaning(xs: seq<int>, x: int, sigma: real)
    requires IsStdDev(xs, sigma)
    ensures Mean(xs) - 2.0 * sigma <= x as real <= Mean(xs) + 2.0 * sigma <==> WithinBand(xs, x)
  {
    SpreadIsScaledVariance(xs);
    BandFromMoments(|xs|, Sum(xs), Spread(xs), x, Mean(xs), sigma, Variance(xs));
  }

  /** The elements of `ys` that lie within the band of `xs`, in order. */
  function KeepWithin(ys: seq<int>, xs: seq<int>): (r: seq<int>)
    ensures IsSubsequence(r, ys)
    ensures forall i :: 0 <= i < |r| ==> WithinBand(xs, r[i])
    ensures forall v :: multiset(r)[v] == if WithinBand(xs, v) then multiset(ys)[v] else 0
  {
    if ys == [] then []
    else
      assert ys == [ys[0]] + ys[1..];
      if WithinBand(xs, ys[0]) then [ys[0]] + KeepWithin(ys[1..], xs)
      else KeepWithin(ys[1..], xs)
  }

  /** Drops the outliers of `data` (the source's `filter_outliers` with its
      default multiplier of two). Fewer than two values are returned as is. */
  function FilterOutliers(data: seq<int>): (r: seq<int>)
    ensures |data| < 2 ==> r == data
    ensures IsSubsequence(r, data)
    ensures |data| >= 2 ==> forall i :: 0 <= i < |r| ==> WithinBand(data, r[i])
    ensures |data| >= 2 ==>
      forall v :: multiset(r)[v] == if WithinBand(data, v) then multiset(data)[v] else 0
  {
    if |data| < 2 then data else KeepWithin(data, data)
  }

  /** Stated with the real mean and standard deviation: every survivor lies
      in the closed band, and every element of `data` in the band survives. */
  lemma {:induction false} FilterOutliersBand(data: seq<int>, sigma: real)
    requires |data| >= 2 && IsStdDev(data, sigma)
    ensures forall i :: 0 <= i < |FilterOutliers(data)| ==>
      Mean(data) - 2.0 * sigma <= FilterOutliers(data)[i] as real <= Mean(data) + 2.0 * sigma
    ensures forall i :: 0 <= i < |data| ==>
      (Mean(data) - 2.0 * sigma <= data[i] as real <= Mean(data) + 2.0 * sigma ==> data[i] in FilterOutliers(data))
  {
    var r := FilterOutliers(data);
    forall i | 0 <= i < |r|
      ensures Mean(data) - 2.0 * sigma <= r[i] as real <= Mean(data) + 2.0 * sigma
    {
      WithinBandMeaning(data, r[i], sigma);
    }
    forall i | 0 <= i < |data| && Mean(data) - 2.0 * sigma <= data[i] as real <= Mean(data) + 2.0 * sigma
      ensures data[i] in r
    {
      WithinBandMeaning(data, data[i], sigma);
      assert multiset(data)[data[i]] > 0;
      assert multiset(r)[data[i]] > 0;
    }
  }

  /** When every value lies within the band, nothing is dropped. */
  lemma {:induction false} KeepWithinAll(ys: seq<int>, xs: seq<int>)
    requires forall i :: 0 <= i < |ys| ==> WithinBand(xs, ys[i])
    ensures KeepWithin(ys, xs) == ys
  {
    if ys != [] {
      KeepWithinAll(ys[1..], xs);
    }
  }
}
