/** The bit decoder (`timings_to_bits`): after outlier filtering, the pulse
    sequence is read as alternating high and low durations; each pair is
    classified against the average high and the average low duration. */
module BitDecoder {
  import opened Config
  import opened RealArith
  import opened Stats
  import opened Outliers
  import opened Bitstrings

  /** The elements at even positions (Python's `xs[::2]`). */
  function Evens(xs: seq<int>): (r: seq<int>)
    ensures |r| == (|xs| + 1) / 2
    ensures forall j :: 0 <= j < |r| ==> r[j] == xs[2 * j]
    decreases |xs|
  {
    if xs == [] then [] else [xs[0]] + Odds(xs[1..])
  }

  /** The elements at odd positions (Python's `xs[1::2]`). */
  function Odds(xs: seq<int>): (r: seq<int>)
    ensures |r| == |xs| / 2
    ensures forall j :: 0 <= j < |r| ==> r[j] == xs[2 * j + 1]
    decreases |xs|
  {
    if xs == [] then [] else Evens(xs[1..])
  }

  /** Sums and counts of the high (even) and low (odd) durations: the
      averages are `highSum / highCount` and `lowSum / lowCount`. */
  datatype Thresholds = Thresholds(highSum: int, highCount: nat, lowSum: int, lowCount: nat)

  function ThresholdsOf(f: seq<int>): Thresholds
  {
    Thresholds(Sum(Evens(f)), |Evens(f)|, Sum(Odds(f)), |Odds(f)|)
  }

  ghost function AvgHigh(th: Thresholds): real
    requires th.highCount > 0
  {
    th.highSum as real / th.highCount as real
  }

  ghost function AvgLow(th: Thresholds): real
    requires th.lowCount > 0
  {
    th.lowSum as real / th.lowCount as real
  }

  /** One (high, low) pair: '0' for a short high and a long low, '1' for a
      long high and a short low, nothing otherwise. Comparisons with the
      averages are cross-multiplied by the counts. */
  function Classify(high: int, low: int, th: Thresholds): Option<char>
  {
    if high * th.highCount < th.highSum && low * th.lowCount > th.lowSum then Some('0')
    else if high * th.highCount > th.highSum && low * th.lowCount < th.lowSum then Some('1')
    else None
  }

  /** `x < s / n` and `x > s / n` read over the integers, for positive `n`. */
  lemma CompareWithMean(x: int, s: int, n: int)
    requires n > 0
    ensures x as real < s as real / n as real <==> x * n < s
    ensures x as real > s as real / n as real <==> x * n > s
  {
    var m := s as real / n as real;
    var nr := n as real;
    DivMul(s as real, nr);
    RealOfProduct(x, n);
    if x as real < m { MulPositive(nr, m - x as real); }
    if x as real > m { MulPositive(nr, x as real - m); }
    if x * n < s { assert nr * (m - x as real) > 0.0; }
    if x * n > s { assert nr * (x as real - m) > 0.0; }
  }

  /** The classification in the source's terms: strict comparisons of the
      pair with the two averages. */
  lemma ClassifyMeaning(high: int, low: int, th: Thresholds)
    requires th.highCount > 0 && th.lowCount > 0
    ensures Classify(high, low, th) == Some('0') <==>
      high as real < AvgHigh(th) && low as real > AvgLow(th)
    ensures Classify(high, low, th) == Some('1') <==>
      high as real > AvgHigh(th) && low as real < AvgLow(th)
    ensures Classify(high, low, th).None? <==>
      !(high as real < AvgHigh(th) && low as real > AvgLow(th)) &&
      !(high as real > AvgHigh(th) && low as real < AvgLow(th))
  {
    CompareWithMean(high, th.highSum, th.highCount);
    CompareWithMean(low, th.lowSum, th.lowCount);
  }

  function BitOf(c: Option<char>): string
  {
    if c.Some? then [c.value] else []
  }

  /** The classification of the `p`-th pair `(f[2p], f[2p+1])`. */
  function PairClass(f: seq<int>, th: Thresholds, p: nat): Option<char>
    requires 2 * p + 2 <= |f|
  {
    Classify(f[2 * p], f[2 * p + 1], th)
  }

  /** The bits contributed by the first `k` pairs. */
  function PairBits(f: seq<int>, th: Thresholds, k: nat): (r: string)
    requires 2 * k <= |f|
    ensures |r| <= k
    ensures IsBinary(r)
  {
    if k == 0 then []
    else PairBits(f, th, k - 1) + BitOf(PairClass(f, th, k - 1))
  }

  /** When each of the first `k` pairs classifies as the corresponding
      symbol of `target`, the pairs spell out the first `k` symbols. */
  lemma {:induction false} PairBitsMatch(f: seq<int>, th: Thresholds, target: string, k: nat)
    requires 2 * k <= |f| && k <= |target|
    requires forall p :: 0 <= p < k ==> PairClass(f, th, p) == Some(target[p])
    ensures PairBits(f, th, k) == target[..k]
  {
    if k > 0 {
      PairBitsMatch(f, th, target, k - 1);
      assert BitOf(PairClass(f, th, k - 1)) == [target[k - 1]];
      assert target[..k] == target[..k - 1] + [target[k - 1]];
    }
  }

  /** When none of the first `k` pairs classifies, they contribute no bits. */
  lemma {:induction false} PairBitsSilent(f: seq<int>, th: Thresholds, k: nat)
    requires 2 * k <= |f|
    requires forall p :: 0 <= p < k ==> PairClass(f, th, p).None?
    ensures PairBits(f, th, k) == []
  {
    if k > 0 {
      PairBitsSilent(f, th, k - 1);
    }
  }

  /** `timings_to_bits`: filter, split, classify every complete pair of the
      filtered sequence, and keep the result only when its length is
      admissible. */
  function TimingsToBits(timings: seq<int>): (r: Option<string>)
    ensures |FilterOutliers(timings)| < 4 ==> r.None?
    ensures r.Some? ==> IsBinary(r.value)
    ensures r.Some? ==> MIN_BITS_LEN <= |r.value| <= MAX_BITS_LEN
    ensures r.Some? ==> |r.value| <= |FilterOutliers(timings)| / 2
  {
    var f := FilterOutliers(timings);
    if |Evens(f)| < 2 || |Odds(f)| < 2 then None
    else
      var bits := PairBits(f, ThresholdsOf(f), |f| / 2);
      if MIN_BITS_LEN <= |bits| <= MAX_BITS_LEN then Some(bits) else None
  }

  /** When the filter drops nothing and each pair classifies as the
      corresponding symbol of an admissible-length `target`, the decoder
      returns `target`. */
  lemma {:induction false} DecodeUnfiltered(t: seq<int>, target: string)
    requires FilterOutliers(t) == t && |t| == 2 * |target|
    requires MIN_BITS_LEN <= |target| <= MAX_BITS_LEN
    requires forall p :: 0 <= p < |target| ==> PairClass(t, ThresholdsOf(t), p) == Some(target[p])
    ensures TimingsToBits(t) == Some(target)
  {
    PairBitsMatch(t, ThresholdsOf(t), target, |target|);
    assert target[..|target|] == target;
    assert |t| / 2 == |target|;
  }

  /** When the filter drops nothing and no pair classifies, the decoder
      returns nothing. */
  lemma {:induction false} DecodeSilent(t: seq<int>)
    requires FilterOutliers(t) == t
    requires forall p :: 0 <= p < |t| / 2 ==> PairClass(t, ThresholdsOf(t), p).None?
    ensures TimingsToBits(t).None?
  {
    PairBitsSilent(t, ThresholdsOf(t), |t| / 2);
  }

  /** The pair index each output bit comes from. */
  ghost function PairSources(f: seq<int>, th: Thresholds, k: nat): seq<nat>
    requires 2 * k <= |f|
  {
    if k == 0 then []
    else PairSources(f, th, k - 1) + (if PairClass(f, th, k - 1).Some? then [k - 1] else [])
  }

  /** Every output bit comes from one of the first `k` pairs and is that
      pair's classification. */
  lemma {:induction false} PairBitsProvenance(f: seq<int>, th: Thresholds, k: nat)
    requires 2 * k <= |f|
    ensures |PairSources(f, th, k)| == |PairBits(f, th, k)|
    ensures forall i :: 0 <= i < |PairSources(f, th, k)| ==>
      PairSources(f, th, k)[i] < k && PairClass(f, th, PairSources(f, th, k)[i]) == Some(PairBits(f, th, k)[i])
  {
    if k > 0 {
      PairBitsProvenance(f, th, k - 1);
      var src, bits := PairSources(f, th, k - 1), PairBits(f, th, k - 1);
      var src', bits' := PairSources(f, th, k), PairBits(f, th, k);
      forall i | 0 <= i < |src'|
        ensures src'[i] < k && PairClass(f, th, src'[i]) == Some(bits'[i])
      {
        if i < |src| {
          assert src'[i] == src[i] && bits'[i] == bits[i];
        } else {
          assert src'[i] == k - 1 && bits'[i] == PairClass(f, th, k - 1).value;
        }
      }
    }
  }

  /** The source pairs of the output bits are in strictly increasing order:
      the bits keep the order of the pairs. */
  lemma {:induction false} PairSourcesIncreasing(f: seq<int>, th: Thresholds, k: nat)
    requires 2 * k <= |f|
    ensures forall i, j :: 0 <= i < j < |PairSources(f, th, k)| ==>
      PairSources(f, th, k)[i] < PairSources(f, th, k)[j]
  {
    if k > 0 {
      PairSourcesIncreasing(f, th, k - 1);
      PairBitsProvenance(f, th, k - 1);
      var src, src' := PairSources(f, th, k - 1), PairSources(f, th, k);
      forall i, j | 0 <= i < j < |src'|
        ensures src'[i] < src'[j]
      {
        if j < |src| {
          assert src'[i] == src[i] && src'[j] == src[j];
        } else {
          assert src'[i] == src[i] && src'[j] == k - 1;
        }
      }
    }
  }

  /** No classifying pair is skipped: every pair among the first `k` that
      classifies contributes a bit. */
  lemma {:induction false} PairSourcesComplete(f: seq<int>, th: Thresholds, k: nat)
    requires 2 * k <= |f|
    ensures forall p :: 0 <= p < k && PairClass(f, th, p).Some? ==> p in PairSources(f, th, k)
  {
    if k > 0 {
      PairSourcesComplete(f, th, k - 1);
    }
  }

  /** `timings_to_bits` in full: after filtering, a pattern is produced
      exactly when at least two pulses of each level survive and the pairs
      that classify number between the length bounds; the pattern then
      holds, in order, the bit of each pair that classifies (by
      `PairSourcesIncreasing` and `PairSourcesComplete`, these are all the
      pairs that classify, taken in order). */
  lemma {:induction false} TimingsToBitsMeaning(t: seq<int>)
    ensures var f := FilterOutliers(t);
      var th := ThresholdsOf(f);
      var src := PairSources(f, th, |f| / 2);
      (TimingsToBits(t).Some? <==> |f| >= 4 && MIN_BITS_LEN <= |src| <= MAX_BITS_LEN) &&
      (TimingsToBits(t).Some? ==>
        |TimingsToBits(t).value| == |src| &&
        forall i :: 0 <= i < |src| ==>
          src[i] < |f| / 2 && PairClass(f, th, src[i]) == Some(TimingsToBits(t).value[i]))
  {
    var f := FilterOutliers(t);
    PairBitsProvenance(f, ThresholdsOf(f), |f| / 2);
  }
}
