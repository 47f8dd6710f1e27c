/** The code emitter: a decoded bitstring becomes its decimal value and its
    hexadecimal text, as Python's `int(bits, 2)` and `hex()` produce them. */
module Codec {
  import opened Config
  import opened Bitstrings

  const HEX_DIGITS: string := "0123456789abcdef"

  predicate IsHexDigit(c: char)
  {
    c in HEX_DIGITS
  }

  function HexDigitValue(c: char): (d: nat)
    requires IsHexDigit(c)
    ensures d < 16 && HEX_DIGITS[d] == c
  {
    if c == '0' then 0 else if c == '1' then 1 else if c == '2' then 2 else if c == '3' then 3
    else if c == '4' then 4 else if c == '5' then 5 else if c == '6' then 6 else if c == '7' then 7
    else if c == '8' then 8 else if c == '9' then 9 else if c == 'a' then 10 else if c == 'b' then 11
    else if c == 'c' then 12 else if c == 'd' then 13 else if c == 'e' then 14 else 15
  }

  lemma DigitValueOfDigit(d: nat)
    requires d < 16
    ensures HexDigitValue(HEX_DIGITS[d]) == d
  {
  }

  predicate IsHex(s: string)
  {
    forall i :: 0 <= i < |s| ==> IsHexDigit(s[i])
  }

  /** The value of a lower-case hexadecimal digit string. */
  function HexValue(s: string): nat
    requires IsHex(s)
  {
    if s == [] then 0 else 16 * HexValue(s[..|s| - 1]) + HexDigitValue(s[|s| - 1])
  }

  /** Lower-case hexadecimal digits of `n` with no leading zeros ("0" for zero). */
  function HexDigits(n: nat): (r: string)
    ensures |r| > 0 && IsHex(r)
  {
    if n < 16 then [HEX_DIGITS[n]] else HexDigits(n / 16) + [HEX_DIGITS[n % 16]]
  }

  /** Python's `hex()` of a non-negative integer: unpadded, "0x"-prefixed. */
  function Hex(n: nat): string
  {
    "0x" + HexDigits(n)
  }

  /** The digits read back give the value, and only zero has a leading '0'. */
  lemma {:induction false} HexRoundTrip(n: nat)
    ensures HexValue(HexDigits(n)) == n
    ensures HexDigits(n)[0] == '0' <==> n == 0
  {
    if n < 16 {
      DigitValueOfDigit(n);
    } else {
      HexRoundTrip(n / 16);
      DigitValueOfDigit(n % 16);
      var r := HexDigits(n);
      assert r[..|r| - 1] == HexDigits(n / 16);
    }
  }

  /** A digit string without leading zeros is the text `HexDigits` gives
      for its value: the unpadded text of a value is unique. */
  lemma {:induction false} HexCanonical(s: string)
    requires |s| > 0 && IsHex(s)
    requires s[0] == '0' ==> |s| == 1
    ensures s == HexDigits(HexValue(s))
    decreases |s|
  {
    if |s| == 1 {
      assert s[..0] == [];
    } else {
      var init := s[..|s| - 1];
      assert init[0] == s[0] != '0';
      HexCanonical(init);
      var vi, d := HexValue(init), HexDigitValue(s[|s| - 1]);
      HexRoundTrip(vi);
      CanonicalStep(s, init, vi, d, HexValue(s));
    }
  }

  lemma CanonicalStep(s: string, init: string, vi: nat, d: nat, v: nat)
    requires |s| > 1 && init == s[..|s| - 1]
    requires init == HexDigits(vi) && vi > 0
    requires d < 16 && HEX_DIGITS[d] == s[|s| - 1]
    requires v == 16 * vi + d
    ensures s == HexDigits(v)
  {
    assert v / 16 == vi && v % 16 == d;
    assert s == init + [s[|s| - 1]];
  }

  datatype Code = Code(decimal: nat, hex: string)

  /** `decode_bits`: the decimal and hexadecimal readings of a bitstring.
      Strings that are not a non-empty run of binary digits are the
      `ValueError` case and give `None`. */
  function DecodeBits(bits: string): (r: Option<Code>)
    ensures r.Some? <==> |bits| > 0 && IsBinary(bits)
    ensures r.Some? ==> r.value.decimal < Pow2(|bits|)
    ensures r.Some? ==> ToBinary(r.value.decimal, |bits|) == bits
    ensures r.Some? ==> |r.value.hex| > 2 && r.value.hex[..2] == "0x"
    ensures r.Some? ==> IsHex(r.value.hex[2..]) && HexValue(r.value.hex[2..]) == r.value.decimal
    ensures r.Some? ==> (r.value.hex[2] == '0' <==> r.value.decimal == 0)
    ensures r.Some? ==> (r.value.hex[2] == '0' ==> |r.value.hex| == 3)
  {
    if |bits| > 0 && IsBinary(bits) then
      var v := BinValue(bits);
      BinValueBound(bits);
      BinaryRoundTrip(bits);
      HexRoundTrip(v);
      assert Hex(v)[2..] == HexDigits(v);
      Some(Code(v, Hex(v)))
    else
      None
  }
}
