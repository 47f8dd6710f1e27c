/** Synthetic bursts: a bit pattern written out as a clean two-level pulse
    train, and the proof that the decoder reads the pattern back. */
module SyntheticBurst {
  import opened Config
  import opened Stats
  import opened Outliers
  import opened Bitstrings
  import opened BitDecoder

  /** Each '0' becomes a short high then a long low; each '1' a long high
      then a short low. */
  function Encode(bits: string, short: int, long: int): (r: seq<int>)
    ensures |r| == 2 * |bits|
  {
    if bits == [] then []
    else (if bits[0] == '0' then [short, long] else [long, short]) + Encode(bits[1..], short, long)
  }

  function Ones(bits: string): (n: nat)
    ensures n <= |bits|
  {
    if bits == [] then 0 else (if bits[0] == '1' then 1 else 0) + Ones(bits[1..])
  }

  lemma {:induction false} OnesBounds(bits: string)
    requires IsBinary(bits)
    ensures '1' in bits ==> Ones(bits) > 0
    ensures '0' in bits ==> Ones(bits) < |bits|
  {
    if bits != [] {
      OnesBounds(bits[1..]);
      assert bits == [bits[0]] + bits[1..];
    }
  }

  /** Peeling the first pair off an encoded burst. */
  lemma {:induction false} EncodeCons(bits: string, short: int, long: int)
    requires bits != []
    ensures Encode(bits, short, long) ==
      (if bits[0] == '0' then [short, long] else [long, short]) + Encode(bits[1..], short, long)
    ensures Sum(Encode(bits, short, long)) == short + long + Sum(Encode(bits[1..], short, long))
    ensures SumSq(Encode(bits, short, long)) ==
      short * short + long * long + SumSq(Encode(bits[1..], short, long))
  {
    var r := Encode(bits, short, long);
    var rest := Encode(bits[1..], short, long);
    var a, b := r[0], r[1];
    assert r == [a, b] + rest;
    assert r[1..] == [b] + rest;
    assert r[1..][1..] == rest;
    assert Sum(r) == a + Sum(r[1..]);
    assert Sum(r[1..]) == b + Sum(rest);
    assert SumSq(r) == a * a + SumSq(r[1..]);
    assert SumSq(r[1..]) == b * b + SumSq(rest);
  }

  /** The high and low halves of an encoded burst, pair by pair. */
  lemma {:induction false} EncodeHalvesCons(bits: string, short: int, long: int)
    requires bits != []
    ensures Evens(Encode(bits, short, long)) ==
      [if bits[0] == '0' then short else long] + Evens(Encode(bits[1..], short, long))
    ensures Odds(Encode(bits, short, long)) ==
      [if bits[0] == '0' then long else short] + Odds(Encode(bits[1..], short, long))
  {
    var r := Encode(bits, short, long);
    var rest := Encode(bits[1..], short, long);
    var a, b := r[0], r[1];
    assert r == [a, b] + rest;
    assert r[1..] == [b] + rest;
    assert r[1..][1..] == rest;
    assert Evens(r) == [a] + Odds(r[1..]);
    assert Odds(r[1..]) == Evens(rest);
    assert Odds(r) == Evens(r[1..]);
    assert Evens(r[1..]) == [b] + Odds(rest);
  }

  lemma {:induction false} EncodeSum(bits: string, short: int, long: int)
    ensures Sum(Encode(bits, short, long)) == |bits| * (short + long)
  {
    if bits != [] {
      var m := |bits| - 1;
      var c := short + long;
      EncodeSum(bits[1..], short, long);
      EncodeCons(bits, short, long);
      assert (m + 1) * c == m * c + c;
    }
  }

  lemma {:induction false} EncodeSumSq(bits: string, short: int, long: int)
    ensures SumSq(Encode(bits, short, long)) == |bits| * (short * short + long * long)
  {
    if bits != [] {
      var m := |bits| - 1;
      var c := short * short + long * long;
      EncodeSumSq(bits[1..], short, long);
      EncodeCons(bits, short, long);
      assert (m + 1) * c == m * c + c;
    }
  }

  /** The sums of the two halves, pair by pair. */
  lemma {:induction false} EncodeHalfSumsCons(bits: string, short: int, long: int)
    requires bits != [] && IsBinary(bits)
    ensures IsBinary(bits[1..])
    ensures Ones(bits) == Ones(bits[1..]) + (if bits[0] == '1' then 1 else 0)
    ensures Sum(Evens(Encode(bits, short, long))) ==
      (if bits[0] == '1' then long else short) + Sum(Evens(Encode(bits[1..], short, long)))
    ensures Sum(Odds(Encode(bits, short, long))) ==
      (if bits[0] == '1' then short else long) + Sum(Odds(Encode(bits[1..], short, long)))
  {
    EncodeHalvesCons(bits, short, long);
    var h, l := if bits[0] == '0' then short else long, if bits[0] == '0' then long else short;
    var hs, ls := Evens(Encode(bits[1..], short, long)), Odds(Encode(bits[1..], short, long));
    assert ([h] + hs)[1..] == hs;
    assert ([l] + ls)[1..] == ls;
  }

  /** One step of the half-sum induction, over plain integers. */
  lemma HalfSumStep(one: bool, o: int, m: int, x: int, y: int, prev: int)
    requires prev == o * x + (m - o) * y
    ensures (if one then x else y) + prev ==
      (o + (if one then 1 else 0)) * x + (m + 1 - (o + (if one then 1 else 0))) * y
  {
    if one {
      assert (o + 1) * x == o * x + x;
    } else {
      assert (m + 1 - o) * y == (m - o) * y + y;
    }
  }

  lemma {:induction false} EncodeHighSum(bits: string, short: int, long: int)
    requires IsBinary(bits)
    ensures Sum(Evens(Encode(bits, short, long))) == Ones(bits) * long + (|bits| - Ones(bits)) * short
  {
    if bits != [] {
      var rest := bits[1..];
      EncodeHalfSumsCons(bits, short, long);
      EncodeHighSum(rest, short, long);
      HalfSumStep(bits[0] == '1', Ones(rest), |rest|, long, short, Sum(Evens(Encode(rest, short, long))));
    }
  }

  lemma {:induction false} EncodeLowSum(bits: string, short: int, long: int)
    requires IsBinary(bits)
    ensures Sum(Odds(Encode(bits, short, long))) == Ones(bits) * short + (|bits| - Ones(bits)) * long
  {
    if bits != [] {
      var rest := bits[1..];
      EncodeHalfSumsCons(bits, short, long);
      EncodeLowSum(rest, short, long);
      HalfSumStep(bits[0] == '1', Ones(rest), |rest|, short, long, Sum(Odds(Encode(rest, short, long))));
    }
  }

  /** The `j`-th pair of a burst encodes the `j`-th bit. */
  lemma {:induction false} EncodeAt(bits: string, short: int, long: int, j: nat)
    requires j < |bits|
    ensures Encode(bits, short, long)[2 * j] == (if bits[j] == '0' then short else long)
    ensures Encode(bits, short, long)[2 * j + 1] == (if bits[j] == '0' then long else short)
  {
    EncodeCons(bits, short, long);
    if j > 0 {
      var rest := Encode(bits[1..], short, long);
      EncodeAt(bits[1..], short, long, j - 1);
      assert Encode(bits, short, long)[2 * j] == rest[2 * (j - 1)];
      assert Encode(bits, short, long)[2 * j + 1] == rest[2 * (j - 1) + 1];
    }
  }

  lemma EncodeLevelAt(bits: string, short: int, long: int, i: nat)
    requires i < 2 * |bits|
    ensures Encode(bits, short, long)[i] == short || Encode(bits, short, long)[i] == long
  {
    var j := i / 2;
    EncodeAt(bits, short, long, j);
    assert i == 2 * j || i == 2 * j + 1;
  }

  /** Every duration of a burst is one of the two levels. */
  lemma {:induction false} EncodeLevels(bits: string, short: int, long: int)
    ensures forall i :: 0 <= i < |Encode(bits, short, long)| ==>
      Encode(bits, short, long)[i] == short || Encode(bits, short, long)[i] == long
  {
    forall i | 0 <= i < |Encode(bits, short, long)|
      ensures Encode(bits, short, long)[i] == short || Encode(bits, short, long)[i] == long
    {
      EncodeLevelAt(bits, short, long, i);
    }
  }

  /** The spread of `n` shorts and `n` longs, over plain integers. */
  lemma TwoLevelSpread(n: int, short: int, long: int, sum: int, sumSq: int)
    requires sum == n * (short + long) && sumSq == n * (short * short + long * long)
    ensures 2 * n * sumSq - sum * sum == n * n * ((long - short) * (long - short))
  {
    var g := long - short;
    assert sum == n * (2 * short + g);
    assert sumSq == n * (2 * short * short + 2 * short * g + g * g);
  }

  /** Either level deviates from the mean by exactly one standard
      deviation, so it lies within two. */
  lemma TwoLevelInBand(n: int, short: int, long: int, x: int)
    requires x == short || x == long
    ensures InBand(2 * n, n * (short + long), n * n * ((long - short) * (long - short)), x)
  {
    var g := long - short;
    var d := 2 * n * x - n * (short + long);
    if x == short { assert d == -(n * g); } else { assert d == n * g; }
    assert d * d == n * n * (g * g);
    assert n * n * (g * g) >= 0;
  }

  /** Nothing is dropped from a clean burst: every pulse is within two
      standard deviations of the mean. */
  lemma {:induction false} NothingFiltered(bits: string, short: int, long: int)
    ensures FilterOutliers(Encode(bits, short, long)) == Encode(bits, short, long)
  {
    var t := Encode(bits, short, long);
    var n := |bits|;
    EncodeSum(bits, short, long);
    EncodeSumSq(bits, short, long);
    TwoLevelSpread(n, short, long, Sum(t), SumSq(t));
    EncodeLevels(bits, short, long);
    forall i | 0 <= i < |t|
      ensures WithinBand(t, t[i])
    {
      TwoLevelInBand(n, short, long, t[i]);
    }
    KeepWithinAll(t, t);
  }

  /** The averages of a burst with `o` ones and `z` zeros lie strictly
      between the short and the long duration, over plain integers. */
  lemma AveragesBetween(o: int, z: int, short: int, long: int)
    requires o > 0 && z > 0 && short < long
    ensures short * (o + z) < o * long + z * short
    ensures long * (o + z) > o * long + z * short
    ensures short * (o + z) < o * short + z * long
    ensures long * (o + z) > o * short + z * long
  {
    var g := long - short;
    assert o * g > 0;
    assert z * g > 0;
    assert o * long == o * short + o * g;
    assert z * long == z * short + z * g;
  }

  /** The thresholds of a clean burst, in terms of how many of its bits are
      ones (a missing symbol leaves that level's count at zero). */
  lemma {:induction false} EncodeThresholds(bits: string, short: int, long: int)
    requires IsBinary(bits)
    ensures ThresholdsOf(Encode(bits, short, long)) ==
      Thresholds(Ones(bits) * long + (|bits| - Ones(bits)) * short, |bits|,
                 Ones(bits) * short + (|bits| - Ones(bits)) * long, |bits|)
  {
    EncodeHighSum(bits, short, long);
    EncodeLowSum(bits, short, long);
  }

  /** Each pair of a clean burst classifies as the bit it encodes, provided
      the pattern holds both symbols and short is shorter than long. */
  lemma {:induction false} ClassifyEncoded(bits: string, short: int, long: int, j: nat)
    requires IsBinary(bits) && '0' in bits && '1' in bits && short < long && j < |bits|
    ensures var t := Encode(bits, short, long);
      PairClass(t, ThresholdsOf(t), j) == Some(bits[j])
  {
    var t := Encode(bits, short, long);
    var o := Ones(bits);
    var z := |bits| - o;
    EncodeThresholds(bits, short, long);
    EncodeAt(bits, short, long, j);
    OnesBounds(bits);
    AveragesBetween(o, z, short, long);
    assert o + z == |bits|;
  }

  /** Every pair of a clean burst classifies as the bit it encodes. */
  lemma {:induction false} EncodedPairsClassify(bits: string, short: int, long: int)
    requires IsBinary(bits) && '0' in bits && '1' in bits && short < long
    ensures var t := Encode(bits, short, long);
      forall p :: 0 <= p < |bits| ==> PairClass(t, ThresholdsOf(t), p) == Some(bits[p])
  {
    var t := Encode(bits, short, long);
    forall p | 0 <= p < |bits|
      ensures PairClass(t, ThresholdsOf(t), p) == Some(bits[p])
    {
      ClassifyEncoded(bits, short, long, p);
    }
  }

  /** A pattern without one of the two symbols has only one kind of bit. */
  lemma {:induction false} OnesUniform(bits: string)
    requires IsBinary(bits)
    ensures !('1' in bits) ==> Ones(bits) == 0
    ensures !('0' in bits) ==> Ones(bits) == |bits|
  {
    if bits != [] {
      OnesUniform(bits[1..]);
      assert bits == [bits[0]] + bits[1..];
    }
  }

  /** In a clean burst of a single symbol every pair equals the averages,
      so no pair classifies. */
  lemma {:induction false} UniformPairSilent(bits: string, short: int, long: int, j: nat)
    requires IsBinary(bits) && (!('0' in bits) || !('1' in bits)) && j < |bits|
    ensures var t := Encode(bits, short, long);
      PairClass(t, ThresholdsOf(t), j).None?
  {
    EncodeThresholds(bits, short, long);
    EncodeAt(bits, short, long, j);
    OnesUniform(bits);
    assert bits[j] in bits;
  }

  /** A clean burst of a single repeated symbol never decodes: the decoder
      needs both symbols to place the averages between the two levels. */
  lemma {:induction false} UniformBurstNotDecoded(bits: string, short: int, long: int)
    requires IsBinary(bits) && |bits| > 0 && (!('0' in bits) || !('1' in bits))
    ensures TimingsToBits(Encode(bits, short, long)).None?
  {
    var t := Encode(bits, short, long);
    NothingFiltered(bits, short, long);
    forall p | 0 <= p < |bits|
      ensures PairClass(t, ThresholdsOf(t), p).None?
    {
      UniformPairSilent(bits, short, long, p);
    }
    assert |t| / 2 == |bits|;
    DecodeSilent(t);
  }

  /** Round trip: a clean burst of an admissible-length pattern that holds
      both symbols decodes to exactly that pattern. */
  lemma {:induction false} EncodeDecodeRoundTrip(bits: string, short: int, long: int)
    requires IsBinary(bits) && MIN_BITS_LEN <= |bits| <= MAX_BITS_LEN
    requires '0' in bits && '1' in bits && short < long
    ensures TimingsToBits(Encode(bits, short, long)) == Some(bits)
  {
    var t := Encode(bits, short, long);
    NothingFiltered(bits, short, long);
    EncodedPairsClassify(bits, short, long);
    DecodeUnfiltered(t, bits);
  }
}
