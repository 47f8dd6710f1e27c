/** End-to-end properties of the receiver on clean synthetic bursts: such a
    burst is stored, qualifies, and is reported with its decoding at the
    watchdog timeout. */
module EndToEnd {
  import opened Config
  import opened Stats
  import opened Bitstrings
  import opened Codec
  import opened SyntheticBurst
  import opened Receiver

  /** A clean burst whose two levels lie strictly between the duration
      bounds is stored in full. */
  lemma {:induction false} BurstAdmissible(bits: string, short: int, long: int)
    requires Admissible(short) && Admissible(long)
    ensures AllAdmissible(Encode(bits, short, long))
  {
    EncodeLevels(bits, short, long);
  }

  /** `n` pulses of each level qualify when the two levels are less than
      twice the ceiling apart, over plain integers. */
  lemma TwoLevelBelowCeiling(n: int, gap: int)
    requires n > 0 && 0 <= gap < 2 * MAX_STD_DEV
    ensures n * n * (gap * gap) < (2 * n) * (2 * n) * MAX_STD_DEV * MAX_STD_DEV
  {
    var c := 2 * MAX_STD_DEV;
    var nn := n * n;
    MulLeftStrict(gap, gap, c);
    MulLeftStrict(c, gap, c);
    MulLeftStrict(nn, gap * gap, c * c);
    assert (2 * n) * (2 * n) * MAX_STD_DEV * MAX_STD_DEV == nn * (c * c);
  }

  lemma MulLeftStrict(a: int, b: int, c: int)
    requires a >= 0 && b < c
    ensures a * b <= a * c && (a > 0 ==> a * b < a * c)
  {
    if a > 0 {
      MulPositiveInt(a, c - b);
      assert a * c - a * b == a * (c - b);
    }
  }

  lemma MulPositiveInt(p: int, q: int)
    requires p > 0 && q > 0
    ensures p * q > 0
  {
  }

  /** A clean burst of at least five pairs qualifies when its levels are
      less than twice the ceiling apart: its standard deviation is half the
      gap between the levels. */
  lemma {:induction false} BurstQualifies(bits: string, short: int, long: int)
    requires 2 * |bits| >= MIN_PULSES && 0 <= long - short < 2 * MAX_STD_DEV
    ensures Qualifies(Encode(bits, short, long))
  {
    var t := Encode(bits, short, long);
    var n := |bits|;
    EncodeSum(bits, short, long);
    EncodeSumSq(bits, short, long);
    TwoLevelSpread(n, short, long, Sum(t), SumSq(t));
    TwoLevelBelowCeiling(n, long - short);
  }

  /** End to end: at the timeout after a clean burst of an admissible
      pattern, the pattern is reported with its decoding unless it repeats
      the last report inside the window. */
  lemma {:induction false} CleanBurstReported(bits: string, short: int, long: int, s: State, now: real)
    requires IsBinary(bits) && MIN_BITS_LEN <= |bits| <= MAX_BITS_LEN && '0' in bits && '1' in bits
    requires 0 < long - short < 2 * MAX_STD_DEV
    requires s.timings == Encode(bits, short, long)
    ensures OnTimeout(s, now).1 ==
      if Separated(s.dedup, Emission(now, bits, None))
      then Some(Emission(now, bits, DecodeBits(bits)))
      else None
  {
    BurstQualifies(bits, short, long);
    EncodeDecodeRoundTrip(bits, short, long);
  }
}
