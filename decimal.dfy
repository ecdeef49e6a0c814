/** Decimal digits: reading a run of digits (`parseInt(_, 10)`) and writing a number (`String(n)`). */
module Decimal {

  /** `\d` in a pattern without the `u` flag: the ASCII digits only. */
  predicate IsDigit(c: char) {
    '0' <= c <= '9'
  }

  predicate AllDigits(s: string) {
    forall j :: 0 <= j < |s| ==> IsDigit(s[j])
  }

  function DigitValue(c: char): (d: nat)
    requires IsDigit(c)
    ensures d < 10
  {
    (c as int) - ('0' as int)
  }

  function DigitChar(d: nat): (c: char)
    requires d < 10
    ensures IsDigit(c) && DigitValue(c) == d
  {
    (('0' as int) + d) as char
  }

  function Pow10(n: nat): (p: nat)
    ensures p >= 1
  {
    if n == 0 then 1 else 10 * Pow10(n - 1)
  }

  /** `parseInt(s, 10)` of a run of decimal digits: a number below 10 to the length of the run. */
  function DigitsValue(s: string): (v: nat)
    requires AllDigits(s)
    ensures v < Pow10(|s|)
    ensures |s| == 1 ==> v == DigitValue(s[0])
  {
    if |s| == 0 then 0 else DigitsValue(s[..|s| - 1]) * 10 + DigitValue(s[|s| - 1])
  }

  /** `String(n)` for a whole number: its decimal digits without leading zeros, read back as `n`. */
  function DecimalString(n: nat): (r: string)
    ensures |r| >= 1 && AllDigits(r)
    ensures |r| > 1 ==> r[0] != '0'
    ensures DigitsValue(r) == n
  {
    if n < 10 then [DigitChar(n)]
    else
      var prefix := DecimalString(n / 10);
      var r := prefix + [DigitChar(n % 10)];
      assert r[..|r| - 1] == prefix;
      r
  }

  /** Three digits read as hundreds, tens and units. */
  lemma ThreeDigits(s: string)
    requires |s| == 3 && AllDigits(s)
    ensures DigitsValue(s) == 100 * DigitValue(s[0]) + 10 * DigitValue(s[1]) + DigitValue(s[2])
  {
    assert s[..2][..1] == s[..1];
  }

  /** Digits that do not start with a zero have a positive value. */
  lemma {:induction false} LeadingDigitPositive(s: string)
    requires |s| >= 1 && AllDigits(s) && s[0] != '0'
    ensures DigitsValue(s) >= 1
  {
    if |s| > 1 {
      var p := s[..|s| - 1];
      assert p[0] == s[0];
      LeadingDigitPositive(p);
    }
  }

  /**
   * The other round trip: writing the value of a run of digits without a
   * leading zero gives back the run.
   */
  lemma {:induction false} DigitsRoundTrip(s: string)
    requires |s| >= 1 && AllDigits(s)
    requires |s| > 1 ==> s[0] != '0'
    ensures DecimalString(DigitsValue(s)) == s
  {
    if |s| == 1 {
      assert DecimalString(DigitsValue(s)) == [DigitChar(DigitValue(s[0]))];
    } else {
      var p := s[..|s| - 1];
      var d := DigitValue(s[|s| - 1]);
      assert p[0] == s[0];
      LeadingDigitPositive(s);
      DigitsRoundTrip(p);
      var n := DigitsValue(s);
      assert n == DigitsValue(p) * 10 + d;
      assert n / 10 == DigitsValue(p) && n % 10 == d;
      assert DecimalString(n) == DecimalString(n / 10) + [DigitChar(n % 10)];
      assert s == p + [s[|s| - 1]];
    }
  }

  /** A number from 100 to 999 is written with three digits. */
  lemma ThreeDigitString(n: nat)
    requires 100 <= n < 1000
    ensures |DecimalString(n)| == 3
  {
    assert |DecimalString(n / 100)| == 1;
    assert |DecimalString(n / 10)| == |DecimalString(n / 10 / 10)| + 1;
    assert n / 10 / 10 == n / 100;
  }
}
