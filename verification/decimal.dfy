/**
  A plain decimal reading of `Double.parseDouble`: surrounding blanks are
  ignored (as `parseDouble` trims its argument), then an optional sign, digits,
  and an optional point followed by digits, with at least one digit in all.
  Exponents, `NaN`, `Infinity`, hexadecimal and the `d`/`f` suffixes are not
  part of this grammar. The temperature probe takes its parser as a parameter;
  this one is the parser its worked examples use.
*/
module Decimal {
  import opened Options
  import opened JavaStrings

  predicate IsDigit(c: char) {
    '0' <= c <= '9'
  }

  predicate AllDigits(s: string) {
    forall k :: 0 <= k < |s| ==> IsDigit(s[k])
  }

  /** Characters that can appear in text this grammar accepts. */
  predicate IsNumeral(c: char) {
    IsDigit(c) || c == '.' || c == '+' || c == '-'
  }

  function DigitValue(c: char): (v: nat)
    requires IsDigit(c)
    ensures v < 10
  {
    (c as int) - ('0' as int)
  }

  /** The digit for `v`; `DigitValue` reads it back. */
  function DigitChar(v: nat): (c: char)
    requires v < 10
    ensures IsDigit(c) && DigitValue(c) == v
  {
    (v + '0' as int) as char
  }

  /** The value of a run of digits, most significant first. */
  function DigitsValue(s: string): (v: nat)
    requires AllDigits(s)
    ensures v < Pow10(|s|)
  {
    if |s| == 0 then 0 else 10 * DigitsValue(s[..|s| - 1]) + DigitValue(s[|s| - 1])
  }

  function Pow10(n: nat): (p: nat)
    ensures p >= 1
  {
    if n == 0 then 1 else 10 * Pow10(n - 1)
  }

  /** Digits with at most one point, and at least one digit. */
  function ParseUnsigned(s: string): (r: Option<real>)
    ensures r.Some? ==> r.value >= 0.0
    ensures r.Some? ==> forall k :: 0 <= k < |s| ==> IsNumeral(s[k])
  {
    if '.' in s then
      var i := IndexOf(s, '.');
      var whole := s[..i];
      var frac := s[i + 1..];
      if AllDigits(whole) && AllDigits(frac) && |whole| + |frac| > 0 then
        assert forall k :: 0 <= k < |s| && k != i ==> (k < i && s[k] == whole[k]) || (k > i && s[k] == frac[k - i - 1]);
        Some(DigitsValue(whole) as real + DigitsValue(frac) as real / Pow10(|frac|) as real)
      else None
    else if AllDigits(s) && |s| > 0 then Some(DigitsValue(s) as real)
    else None
  }

  function ParseSigned(s: string): (r: Option<real>)
    ensures r.Some? ==> forall k :: 0 <= k < |s| ==> IsNumeral(s[k])
  {
    if |s| > 0 && s[0] == '-' then
      match ParseUnsigned(s[1..])
      case Some(v) => Some(-v)
      case None => None
    else if |s| > 0 && s[0] == '+' then ParseUnsigned(s[1..])
    else ParseUnsigned(s)
  }

  /**
    The parser: only text whose trimmed form is made of digits, points and
    signs is accepted, so residue holding any other character is rejected.
  */
  function ParseDecimal(s: string): (r: Option<real>)
    ensures r.Some? ==> forall k :: 0 <= k < |Trim(s)| ==> IsNumeral(Trim(s)[k])
  {
    ParseSigned(Trim(s))
  }

  /** The decimal numeral of `n`, without leading zeros. */
  function NatText(n: nat): (s: string)
    ensures |s| > 0 && AllDigits(s)
  {
    if n < 10 then [DigitChar(n)] else NatText(n / 10) + [DigitChar(n % 10)]
  }

  lemma {:induction false} DigitsValueOfNatText(n: nat)
    ensures DigitsValue(NatText(n)) == n
  {
    var s := NatText(n);
    if n >= 10 {
      DigitsValueOfNatText(n / 10);
      assert s[..|s| - 1] == NatText(n / 10);
    }
  }

  lemma ParseUnsignedNatText(n: nat)
    ensures ParseUnsigned(NatText(n)) == Some(n as real)
  {
    DigitsValueOfNatText(n);
  }

  /** Printing a count in decimal and parsing it back gives the count. */
  lemma NatTextRoundTrip(n: nat)
    ensures ParseDecimal(NatText(n)) == Some(n as real)
  {
    TrimOfTrimmed(NatText(n));
    ParseUnsignedNatText(n);
  }

  /** A negative count printed with a minus sign parses back to itself. */
  lemma NegativeNatTextRoundTrip(n: nat)
    ensures ParseDecimal("-" + NatText(n)) == Some(-(n as real))
  {
    var s := NatText(n);
    var t := "-" + s;
    TrimOfTrimmed(t);
    assert t[1..] == s;
    ParseUnsignedNatText(n);
  }
}
