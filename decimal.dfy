/**
 * Decimal rendering and reading of integers, as Python's `str(n)`,
 * `f"{n}"` and the zero-padded format specifications `f"{n:02}"` and
 * `f"{n:03}"` produce them.
 */
module Decimal {

  predicate IsDigit(c: char) {
    '0' <= c <= '9'
  }

  predicate AllDigits(s: string) {
    forall i :: 0 <= i < |s| ==> IsDigit(s[i])
  }

  function DigitChar(d: nat): (c: char)
    requires d < 10
    ensures IsDigit(c) && c as int - '0' as int == d
  {
    ('0' as int + d) as char
  }

  /** The shortest decimal numeral of `n` (Python's `str(n)` for n >= 0). */
  function NatToDecimal(n: nat): (s: string)
    ensures |s| >= 1 && AllDigits(s)
    ensures |s| > 1 ==> s[0] != '0'
    decreases n
  {
    if n < 10 then [DigitChar(n)] else NatToDecimal(n / 10) + [DigitChar(n % 10)]
  }

  /** The value of a numeral read in base ten; leading zeros are allowed. */
  function DecimalValue(s: string): nat
    requires AllDigits(s)
  {
    if s == [] then 0
    else DecimalValue(s[..|s| - 1]) * 10 + (s[|s| - 1] as int - '0' as int)
  }

  /** Reading back the numeral gives the number. */
  lemma {:induction false} DecimalRoundTrip(n: nat)
    ensures DecimalValue(NatToDecimal(n)) == n
    decreases n
  {
    if n >= 10 {
      DecimalRoundTrip(n / 10);
      var s := NatToDecimal(n);
      assert s[..|s| - 1] == NatToDecimal(n / 10);
    }
  }

  /** A leading zero does not change the value of a numeral. */
  lemma {:induction false} LeadingZero(s: string)
    requires AllDigits(s)
    ensures AllDigits("0" + s) && DecimalValue("0" + s) == DecimalValue(s)
    decreases |s|
  {
    if s != [] {
      var t := "0" + s;
      assert t[..|t| - 1] == "0" + s[..|s| - 1];
      LeadingZero(s[..|s| - 1]);
    }
  }

  /**
   * `n` in decimal, left-padded with zeros to at least `width` characters,
   * as Python's format specification `0<width>` does for n >= 0.
   */
  function ZeroPad(n: nat, width: int): string
    decreases width
  {
    if width <= |NatToDecimal(n)| then NatToDecimal(n) else "0" + ZeroPad(n, width - 1)
  }

  /** The padded numeral is all digits, as long as the width asks, and reads back as `n`. */
  lemma {:induction false} ZeroPadFacts(n: nat, width: int)
    ensures var s := ZeroPad(n, width);
      && AllDigits(s)
      && |s| == (if width > |NatToDecimal(n)| then width else |NatToDecimal(n)|)
      && DecimalValue(s) == n
    decreases width
  {
    if width <= |NatToDecimal(n)| {
      DecimalRoundTrip(n);
    } else {
      var t := ZeroPad(n, width - 1);
      ZeroPadFacts(n, width - 1);
      LeadingZero(t);
    }
  }

  /**
   * Python's `f"{n:0<width>}"` for any integer: a negative number keeps its
   * sign in front and the zeros come between the sign and the digits, the
   * sign counting towards the width (`f"{-5:03}"` is `-05`).
   */
  function FormatInt(n: int, width: nat): string {
    if n >= 0 then ZeroPad(n, width) else "-" + ZeroPad(-n, width - 1)
  }

  /**
   * A formatted integer is at least `width` characters; a non-negative one
   * is all digits and reads back as `n`, a negative one is a minus sign
   * followed by digits that read back as `-n`.
   */
  lemma FormatIntFacts(n: int, width: nat)
    ensures var s := FormatInt(n, width);
      && |s| >= width
      && (n >= 0 ==> AllDigits(s) && DecimalValue(s) == n)
      && (n < 0 ==> |s| >= 2 && s[0] == '-' && AllDigits(s[1..]) && DecimalValue(s[1..]) == -n)
  {
    if n >= 0 {
      ZeroPadFacts(n, width);
    } else {
      ZeroPadFacts(-n, width - 1);
      var s := FormatInt(n, width);
      assert s[1..] == ZeroPad(-n, width - 1);
    }
  }

  /** Numerals that are short enough are padded to exactly the width. */
  lemma PadExactWidth(n: nat, width: nat)
    requires width >= 1 && n < Pow10(width)
    ensures |ZeroPad(n, width)| == width
  {
    ZeroPadFacts(n, width);
    DecimalLength(n, width);
  }

  function Pow10(k: nat): (p: nat)
    ensures p >= 1
  {
    if k == 0 then 1 else 10 * Pow10(k - 1)
  }

  lemma {:induction false} DecimalLength(n: nat, width: nat)
    requires n < Pow10(width)
    ensures |NatToDecimal(n)| <= width || (width == 0 && n == 0)
    decreases n
  {
    if width > 0 && n >= 10 {
      DecimalLength(n / 10, width - 1);
    }
  }
}
