/** Bitstrings as the receiver produces them: sequences of the characters
    '0' and '1', read as unsigned big-endian binary numbers. */
module Bitstrings {

  predicate IsBinary(s: string)
  {
    forall i :: 0 <= i < |s| ==> s[i] == '0' || s[i] == '1'
  }

  function Pow2(k: nat): (r: nat)
    ensures r > 0
  {
    if k == 0 then 1 else 2 * Pow2(k - 1)
  }

  function BitValue(c: char): nat
  {
    if c == '1' then 1 else 0
  }

  /** The big-endian value of a bitstring (Python's `int(bits, 2)` on such a string). */
  function BinValue(s: string): nat
    requires IsBinary(s)
  {
    if s == [] then 0 else 2 * BinValue(s[..|s| - 1]) + BitValue(s[|s| - 1])
  }

  /** The low `width` bits of `v`, most significant first. */
  function ToBinary(v: nat, width: nat): (r: string)
    ensures |r| == width
    ensures IsBinary(r)
  {
    if width == 0 then []
    else ToBinary(v / 2, width - 1) + [if v % 2 == 1 then '1' else '0']
  }

  /** A bitstring of length `k` denotes a value below `2^k`. */
  lemma {:induction false} BinValueBound(s: string)
    requires IsBinary(s)
    ensures BinValue(s) < Pow2(|s|)
  {
    if s != [] {
      BinValueBound(s[..|s| - 1]);
    }
  }

  /** Rendering the value back in `|s|` digits gives the original string,
      leading zeros included. */
  lemma {:induction false} BinaryRoundTrip(s: string)
    requires IsBinary(s)
    ensures ToBinary(BinValue(s), |s|) == s
  {
    if s != [] {
      var init := s[..|s| - 1];
      BinaryRoundTrip(init);
      var v := BinValue(s);
      assert v / 2 == BinValue(init);
      assert s == init + [s[|s| - 1]];
    }
  }

  /** Every value below `2^w` is rendered in `w` digits without loss. */
  lemma {:induction false} ValueRoundTrip(v: nat, w: nat)
    requires v < Pow2(w)
    ensures BinValue(ToBinary(v, w)) == v
  {
    if w > 0 {
      ValueRoundTrip(v / 2, w - 1);
      var r := ToBinary(v, w);
      assert r[..|r| - 1] == ToBinary(v / 2, w - 1);
    }
  }
}
