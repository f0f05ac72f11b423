/**
 * Positional numerals in base 10 and base 16: the decimal text that .NET
 * writes for an Int64 and parses back, and the fixed-width digit strings
 * used by the Guid "N" format and by the date-time format.
 */
module Numerals {
  import opened Wrappers

  const LongMin: int := -0x8000_0000_0000_0000
  const LongMax: int := 0x7FFF_FFFF_FFFF_FFFF

  /** The C# `long` (System.Int64). */
  type Long = i: int | LongMin <= i <= LongMax

  /** A base the numerals here are written in. */
  type Base = b: nat | b == 10 || b == 16 witness 10

  /** Digit characters; base 16 uses the lower-case letters, as Guid.ToString does. */
  const DigitChars: string := "0123456789abcdef"

  function DigitChar(d: nat, b: Base): (c: char)
    requires d < b
    ensures IsDigit(c, b) && DigitValue(c, b) == d
  {
    DigitChars[d]
  }

  predicate IsDigit(c: char, b: Base) {
    ('0' <= c <= '9') || (b == 16 && 'a' <= c <= 'f')
  }

  function DigitValue(c: char, b: Base): (d: nat)
    requires IsDigit(c, b)
    ensures d < b
  {
    if '0' <= c <= '9' then (c as int) - ('0' as int) else (c as int) - ('a' as int) + 10
  }

  predicate AllDigits(s: string, b: Base) {
    forall i :: 0 <= i < |s| ==> IsDigit(s[i], b)
  }

  /** The number a digit string denotes, most significant digit first. */
  function ValueOf(s: string, b: Base): nat
    requires AllDigits(s, b)
  {
    if |s| == 0 then 0 else ValueOf(s[..|s| - 1], b) * b + DigitValue(s[|s| - 1], b)
  }

  function Pow(b: nat, w: nat): (r: nat)
    ensures b > 0 ==> r > 0
  {
    if w == 0 then 1 else b * Pow(b, w - 1)
  }

  /** `n` written with exactly `w` digits, padded with leading zeros. */
  function Fixed(n: nat, b: Base, w: nat): (s: string)
    requires n < Pow(b, w)
    ensures |s| == w && AllDigits(s, b)
    ensures ValueOf(s, b) == n
  {
    if w == 0 then ""
    else
      assert n / b < Pow(b, w - 1) by { DivBelowPow(n, b, w); }
      var s := Fixed(n / b, b, w - 1) + [DigitChar(n % b, b)];
      assert s[..|s| - 1] == Fixed(n / b, b, w - 1);
      s
  }

  lemma DivBelowPow(n: nat, b: Base, w: nat)
    requires w > 0 && n < Pow(b, w)
    ensures n / b < Pow(b, w - 1)
  {
    MulMonotone(b, n / b, Pow(b, w - 1));
    assert n == b * (n / b) + n % b;
  }

  lemma MulMonotone(b: nat, x: nat, y: nat)
    ensures x >= y ==> b * x >= b * y
  {
  }

  /** The shortest decimal digit string of `n` (no leading zeros), as Int64.ToString writes it. */
  function Digits(n: nat): (s: string)
    ensures |s| >= 1 && AllDigits(s, 10)
    ensures ValueOf(s, 10) == n
    ensures n > 0 ==> s[0] != '0'
  {
    if n < 10 then [DigitChar(n, 10)]
    else
      var s := Digits(n / 10) + [DigitChar(n % 10, 10)];
      assert s[..|s| - 1] == Digits(n / 10);
      s
  }

  /** Int64.ToString() in the invariant culture: a minus sign for negatives, then the digits. */
  function FormatLong(i: Long): (s: string)
    ensures |s| >= 1 && (s[0] == '-' <==> i < 0)
  {
    if i < 0 then "-" + Digits(-(i as int)) else Digits(i)
  }

  /** The text of a number is its digits, shortest form, after a minus sign for a negative. */
  lemma FormatLongDigits(i: Long)
    ensures i >= 0 ==> AllDigits(FormatLong(i), 10) && ValueOf(FormatLong(i), 10) == i
    ensures i > 0 ==> FormatLong(i)[0] != '0'
    ensures i < 0 ==> AllDigits(FormatLong(i)[1..], 10) && ValueOf(FormatLong(i)[1..], 10) == -(i as int)
  {
    if i < 0 {
      assert FormatLong(i)[1..] == Digits(-(i as int));
    }
  }

  /**
   * Int64 parsing of the integer style: an optional leading sign, then at
   * least one decimal digit; a value outside the Int64 range is rejected.
   */
  function ParseLong(s: string): (r: Option<Long>)
    ensures r.Some? ==> |s| >= 1
    ensures r.Some? ==>
              var body := if s[0] == '-' || s[0] == '+' then s[1..] else s;
              && |body| >= 1 && AllDigits(body, 10)
              && ValueOf(body, 10) == (if s[0] == '-' then -(r.value as int) else r.value as int)
    ensures AllDigits(s, 10) && |s| >= 1 && ValueOf(s, 10) <= LongMax ==> r == Some(ValueOf(s, 10))
  {
    var negative := |s| > 0 && s[0] == '-';
    var signed := |s| > 0 && (s[0] == '-' || s[0] == '+');
    var body := if signed then s[1..] else s;
    if |body| == 0 || !AllDigits(body, 10) then None
    else
      var magnitude: int := ValueOf(body, 10);
      var v := if negative then -magnitude else magnitude;
      if LongMin <= v <= LongMax then Some(v) else None
  }

  /** Parsing what FormatLong writes gives back the number. */
  lemma ParseFormatLong(i: Long)
    ensures ParseLong(FormatLong(i)) == Some(i)
  {
    var s := FormatLong(i);
    if i < 0 {
      var d := Digits(-(i as int));
      assert s == "-" + d;
      assert s[0] == '-';
      assert s[1..] == d;
      assert ValueOf(d, 10) == -(i as int);
    } else {
      assert s == Digits(i);
      assert IsDigit(s[0], 10);
    }
  }

  /** Distinct numbers are written differently. */
  lemma FormatLongInjective(i: Long, j: Long)
    requires FormatLong(i) == FormatLong(j)
    ensures i == j
  {
    ParseFormatLong(i);
    ParseFormatLong(j);
  }
}
