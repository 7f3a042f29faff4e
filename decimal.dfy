/**
  Decimal text as JavaScript reads and writes it here: `Number(s)` on a string of
  digits, the digits of a non-negative integer, and `Number.prototype.toFixed(2)`.
 */
module Decimal {

  predicate IsDigit(c: char) {
    '0' <= c <= '9'
  }

  predicate AllDigits(s: string) {
    forall i :: 0 <= i < |s| ==> IsDigit(s[i])
  }

  function DigitChar(d: nat): (c: char)
    requires d < 10
    ensures IsDigit(c) && c as int - '0' as int == d
  {
    ('0' as int + d) as char
  }

  /** `Number(s)` for a string made of decimal digits (leading zeros allowed). */
  function ValueOf(s: string): (v: nat)
    requires AllDigits(s)
    ensures v == 0 <==> forall k :: 0 <= k < |s| ==> s[k] == '0'
  {
    if s == [] then 0 else ValueOf(s[..|s| - 1]) * 10 + (s[|s| - 1] as int - '0' as int)
  }

  /** The decimal digits of `n`, most significant first, without leading zeros. */
  function Show(n: nat): (s: string)
    ensures |s| > 0 && AllDigits(s)
    ensures s[0] != '0' || n == 0
  {
    if n < 10 then [DigitChar(n)] else Show(n / 10) + [DigitChar(n % 10)]
  }

  /** Reading back the digits of `n` gives `n`. */
  lemma {:induction false} ValueOfShow(n: nat)
    ensures ValueOf(Show(n)) == n
  {
    if n >= 10 {
      var s := Show(n);
      assert s[..|s| - 1] == Show(n / 10);
      ValueOfShow(n / 10);
    }
  }

  /** A digit string without a leading zero is the rendering of its own value. */
  lemma {:induction false} ShowValueOf(s: string)
    requires AllDigits(s) && |s| > 0 && (s[0] != '0' || |s| == 1)
    ensures Show(ValueOf(s)) == s
  {
    var d := s[|s| - 1] as int - '0' as int;
    if |s| == 1 {
      assert ValueOf(s) == ValueOf(s[..0]) * 10 + d;
      assert s[..0] == [];
    } else {
      var p := s[..|s| - 1];
      assert p[0] == s[0];
      ShowValueOf(p);
      LeadingDigitPositive(p);
      assert ValueOf(s) == ValueOf(p) * 10 + d;
      assert ValueOf(s) / 10 == ValueOf(p) && ValueOf(s) % 10 == d;
      assert s == p + [s[|s| - 1]];
    }
  }

  lemma {:induction false} LeadingDigitPositive(s: string)
    requires AllDigits(s) && |s| > 0 && s[0] != '0'
    ensures ValueOf(s) > 0
  {
    if |s| > 1 {
      var p := s[..|s| - 1];
      assert p[0] == s[0];
      LeadingDigitPositive(p);
    }
  }

  /**
    The integer n for which n / 100 is nearest to a non-negative x, the larger one
    on a tie: step 8.a of Number.prototype.toFixed with two fraction digits.
   */
  function Hundredths(x: real): (n: nat)
    requires x >= 0.0
    ensures -0.5 < n as real - x * 100.0 <= 0.5
  {
    (x * 100.0 + 0.5).Floor
  }

  /**
    `x.toFixed(2)` on the exact value x (the binary rounding of a double is not
    modelled): a "-" for a negative x, then the integer part, a point and two
    fraction digits of the nearest multiple of 1/100.
   */
  function ToFixed2(x: real): (s: string)
    ensures |s| >= 4 && s[|s| - 3] == '.'
    ensures s[0] == '-' <==> x < 0.0
    ensures x >= 0.0 ==> IsDigit(s[0])
  {
    var n := if x < 0.0 then Hundredths(-x) else Hundredths(x);
    var digits := Show(n / 100) + "." + [DigitChar(n % 100 / 10), DigitChar(n % 10)];
    if x < 0.0 then "-" + digits else digits
  }

  /** A negative value renders as "-" followed by the rendering of its magnitude. */
  lemma NegativeToFixed(x: real)
    requires x < 0.0
    ensures ToFixed2(x) == "-" + ToFixed2(-x)
  {
  }

  /**
    `u` is a rendering with two fraction digits whose digits, read without the
    point, give a number of hundredths within half a hundredth of m.
   */
  predicate ReadsBack(u: string, m: real) {
    && |u| >= 4
    && AllDigits(u[..|u| - 3] + u[|u| - 2..])
    && -0.005 < ValueOf(u[..|u| - 3] + u[|u| - 2..]) as real / 100.0 - m <= 0.005
  }

  /**
    Reading the digits of `x.toFixed(2)` back, after the sign, gives |x| to within
    half a hundredth.
   */
  lemma ToFixed2Reads(x: real)
    ensures x >= 0.0 ==> ReadsBack(ToFixed2(x), x)
    ensures x < 0.0 ==> ReadsBack(ToFixed2(x)[1..], -x)
  {
    if x < 0.0 {
      NegativeToFixed(x);
      assert ToFixed2(x)[1..] == ToFixed2(-x);
      MagnitudeReads(-x);
    } else {
      MagnitudeReads(x);
    }
  }

  lemma MagnitudeReads(x: real)
    requires x >= 0.0
    ensures ReadsBack(ToFixed2(x), x)
  {
    var n := Hundredths(x);
    var s := ToFixed2(x);
    var tail := [DigitChar(n % 100 / 10), DigitChar(n % 10)];
    assert s == Show(n / 100) + "." + tail;
    assert s[..|s| - 3] + s[|s| - 2..] == Show(n / 100) + tail;
    HundredthsDigits(n);
    assert -0.5 < n as real - x * 100.0 <= 0.5;
    assert n as real / 100.0 - x == (n as real - x * 100.0) / 100.0;
  }

  /** The integer part of n / 100 followed by its two last digits reads back as n. */
  lemma HundredthsDigits(n: nat)
    ensures var d := Show(n / 100) + [DigitChar(n % 100 / 10), DigitChar(n % 10)];
      AllDigits(d) && ValueOf(d) == n
  {
    var whole := Show(n / 100);
    var d1, d2 := DigitChar(n % 100 / 10), DigitChar(n % 10);
    var digits := whole + [d1, d2];
    assert digits[..|digits| - 1] == whole + [d1];
    assert (whole + [d1])[..|whole|] == whole;
    ValueOfShow(n / 100);
    assert ValueOf(digits) == (n / 100 * 10 + n % 100 / 10) * 10 + n % 10;
  }

  /** The renderings of the ratios and averages that the statistics tests expect. */
  lemma ToFixed2Examples()
    ensures ToFixed2(5.0 / 3.0) == "1.67"
    ensures ToFixed2(7.0) == "7.00"
    ensures ToFixed2(0.0) == "0.00"
    ensures ToFixed2(123.45) == "123.45"
  {
    assert Hundredths(5.0 / 3.0) == 167;
    assert Hundredths(7.0) == 700;
    assert Hundredths(0.0) == 0;
    assert Hundredths(123.45) == 12345;
    assert Show(123) == Show(12) + [DigitChar(3)];
    assert Show(12) == Show(1) + [DigitChar(2)];
  }
}
