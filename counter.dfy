/**
 * The statistics counter's text (app.js:279-298). Only the final frame is modelled:
 * at progress 1 the eased factor `1 - (1 - 1)^3` is exactly 1, so the shown number
 * is `Math.floor(target * 1)`, which is the integer `target` itself.
 */
module Counter {
  import opened Wrappers

  /** `target === 95 ? '%' : target === 15 ? '+' : target === 500 ? '+' : ''`. */
  function Suffix(target: int): (s: string)
    ensures s == "%" <==> target == 95
    ensures s == "+" <==> target == 15 || target == 500
    ensures s == "" <==> target !in {15, 95, 500}
  {
    if target == 95 then "%" else if target == 15 then "+" else if target == 500 then "+" else ""
  }

  predicate IsDigit(c: char) {
    '0' <= c <= '9'
  }

  predicate AllDigits(s: string) {
    forall i :: 0 <= i < |s| ==> IsDigit(s[i])
  }

  function DigitChar(d: nat): (c: char)
    requires d < 10
    ensures IsDigit(c)
  {
    ('0' as int + d) as char
  }

  function DigitValue(c: char): (d: nat)
    requires IsDigit(c)
    ensures d < 10 && DigitChar(d) == c
  {
    c as int - '0' as int
  }

  /** The decimal digits of `n`, most significant first, without leading zeros. */
  function NatToDecimal(n: nat): (s: string)
    ensures |s| > 0 && AllDigits(s)
    ensures n >= 10 ==> s[0] != '0'
  {
    if n < 10 then [DigitChar(n)] else NatToDecimal(n / 10) + [DigitChar(n % 10)]
  }

  /** `String(n)` for an integer-valued number, exact while |n| <= 2^53, where every integer is a double. */
  function IntToDecimal(n: int): (s: string)
    ensures |s| > 0 && (s[0] == '-' <==> n < 0)
    ensures AllDigits(if n < 0 then s[1..] else s)
  {
    if n < 0 then "-" + NatToDecimal(-n) else NatToDecimal(n)
  }

  /** The counter's text when the animation completes: the target followed by its suffix. */
  function FinalText(target: int): (t: string)
    ensures |t| > 0
    ensures t[0] == '-' <==> target < 0
    ensures t[|t| - 1] == '%' <==> target == 95
    ensures t[|t| - 1] == '+' <==> target == 15 || target == 500
    ensures target !in {15, 95, 500} ==> IsDigit(t[|t| - 1])
  {
    IntToDecimal(target) + Suffix(target)
  }

  /** The value of a run of decimal digits. */
  function DigitsValue(d: string): nat
    requires AllDigits(d)
  {
    if d == [] then 0 else DigitsValue(d[..|d| - 1]) * 10 + DigitValue(d[|d| - 1])
  }

  /** The longest prefix of `s` made of decimal digits. */
  function LeadingDigits(s: string): (d: string)
    ensures |d| <= |s| && d == s[..|d|] && AllDigits(d)
    ensures |d| == |s| || !IsDigit(s[|d|])
  {
    if s != [] && IsDigit(s[0]) then [s[0]] + LeadingDigits(s[1..]) else []
  }

  /**
   * `parseInt(s)` for a string without leading white space: an optional sign, then
   * the longest run of digits; `None` (NaN) when there is no digit.
   */
  function ParseInt(s: string): (r: Option<int>)
    ensures s == [] ==> r.None?
    ensures s != [] && IsDigit(s[0]) ==> r.Some? && r.value >= 0
    ensures s != [] && !IsDigit(s[0]) && s[0] != '-' && s[0] != '+' ==> r.None?
    ensures r.Some? && r.value < 0 ==> s[0] == '-'
  {
    var signed := s != [] && (s[0] == '-' || s[0] == '+');
    var digits := LeadingDigits(if signed then s[1..] else s);
    var value: int := if digits == [] then 0 else DigitsValue(digits);
    if digits == [] then None
    else if signed && s[0] == '-' then Some(-value)
    else Some(value)
  }

  lemma {:induction false} NatToDecimalValue(n: nat)
    ensures DigitsValue(NatToDecimal(n)) == n
  {
    if n >= 10 {
      var s := NatToDecimal(n);
      NatToDecimalValue(n / 10);
      assert s[..|s| - 1] == NatToDecimal(n / 10);
    }
  }

  /** Digits followed by a non-digit (or nothing) are read up to that character. */
  lemma {:induction false} LeadingDigitsStop(d: string, rest: string)
    requires AllDigits(d)
    requires rest == [] || !IsDigit(rest[0])
    ensures LeadingDigits(d + rest) == d
  {
    if d != [] {
      assert (d + rest)[1..] == d[1..] + rest;
      LeadingDigitsStop(d[1..], rest);
    }
  }

  /** `parseInt` reads a negative decimal back. */
  lemma NegativeParsesBack(n: nat)
    requires n > 0
    ensures ParseInt("-" + NatToDecimal(n)) == Some(-(n as int))
  {
    var digits := NatToDecimal(n);
    var s := "-" + digits;
    assert s[1..] == digits + [];
    LeadingDigitsStop(digits, []);
    NatToDecimalValue(n);
  }

  /** `parseInt` reads a non-negative decimal back and stops at a following non-digit. */
  lemma NonNegativeParsesBack(n: nat, suffix: string)
    requires suffix == [] || !IsDigit(suffix[0])
    ensures ParseInt(NatToDecimal(n) + suffix) == Some(n)
  {
    var digits := NatToDecimal(n);
    var s := digits + suffix;
    assert s[0] == digits[0];
    LeadingDigitsStop(digits, suffix);
    NatToDecimalValue(n);
  }

  /** `parseInt` applied to the final text gives back the target: the suffix is never read as a digit. */
  lemma FinalTextParsesBack(target: int)
    ensures ParseInt(FinalText(target)) == Some(target)
  {
    if target < 0 {
      assert FinalText(target) == "-" + NatToDecimal(-target) + "";
      assert "-" + NatToDecimal(-target) + "" == "-" + NatToDecimal(-target);
      NegativeParsesBack(-target);
    } else {
      NonNegativeParsesBack(target, Suffix(target));
    }
  }

  /** The fixed values the page uses. */
  lemma FinalTextExamples()
    ensures FinalText(95) == "95%"
    ensures FinalText(15) == "15+"
    ensures FinalText(500) == "500+"
    ensures FinalText(42) == "42"
    ensures FinalText(0) == "0"
  {
  }
}
