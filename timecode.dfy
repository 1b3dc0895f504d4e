/**
 * `format_time`: seconds rendered as the `HH:MM:SS,mmm` stamps of a SubRip
 * subtitle file, computed with Python's float floor division, modulo and
 * `int()` (here on exact reals).
 */
module Timecode {
  import opened Wrappers
  import opened Decimal

  /** Python's `x // y` on floats, for a positive divisor. */
  function FloorDiv(x: real, y: real): real
    requires y > 0.0
  {
    (x / y).Floor as real
  }

  /** Python's `x % y` on floats, for a positive divisor: the sign of the divisor. */
  function Mod(x: real, y: real): real
    requires y > 0.0
  {
    x - y * FloorDiv(x, y)
  }

  /** Python's `int(x)` on a float: truncation toward zero. */
  function Trunc(x: real): (n: int)
    ensures x >= 0.0 ==> n as real <= x < n as real + 1.0
    ensures x < 0.0 ==> x <= n as real < x + 1.0
  {
    if x >= 0.0 then x.Floor else -((-x).Floor)
  }

  /** The four fields of a stamp. */
  datatype Clock = Clock(h: int, m: int, s: int, ms: int)

  /** The fields exactly as `format_time` computes them. */
  function ClockOf(t: real): Clock {
    Clock(
      Trunc(FloorDiv(t, 3600.0)),
      Trunc(FloorDiv(Mod(t, 3600.0), 60.0)),
      Trunc(Mod(t, 60.0)),
      Trunc((t - Trunc(t) as real) * 1000.0))
  }

  /** `f"{h:02}:{m:02}:{s:02},{ms:03}"`. */
  function FormatTime(t: real): string {
    var c := ClockOf(t);
    FormatInt(c.h, 2) + ":" + FormatInt(c.m, 2) + ":" + FormatInt(c.s, 2) + "," + FormatInt(c.ms, 3)
  }

  // ---------------------------------------------------------------------
  // What the fields are, for t >= 0
  // ---------------------------------------------------------------------

  lemma DivModUnique60(n: int, q: int, r: int)
    requires n == 60 * q + r && 0 <= r < 60
    ensures n / 60 == q && n % 60 == r
  {
  }

  /** Dividing a non-negative real by a whole number and flooring only needs its whole part. */
  lemma FloorOfQuotient(x: real, k: int)
    requires x >= 0.0 && (k == 60 || k == 3600)
    ensures (x / k as real).Floor == x.Floor / k
  {
    var n := x.Floor;
    var q, r := n / k, n % k;
    assert n == q * k + r;
    assert (q * k) as real <= x < (q * k + k) as real;
    assert q as real <= x / k as real < (q + 1) as real;
  }

  /**
   * For a non-negative time: the hours are the whole hours, not wrapped at 24;
   * minutes and seconds are in 0..59 and together with the hours make the
   * whole seconds; the milliseconds are the fractional second times 1000,
   * truncated.
   */
  lemma ClockFields(t: real)
    requires t >= 0.0
    ensures var c := ClockOf(t);
      && c.h == t.Floor / 3600
      && 0 <= c.m < 60 && 0 <= c.s < 60 && 0 <= c.ms < 1000
      && 3600 * c.h + 60 * c.m + c.s == t.Floor
      && c.ms as real <= (t - t.Floor as real) * 1000.0 < c.ms as real + 1.0
  {
    var n := t.Floor;
    HoursField(t);
    MinutesField(t);
    SecondsField(t);
    DivModUnique60(n, 60 * (n / 3600) + (n % 3600) / 60, (n % 3600) % 60);
  }

  lemma HoursField(t: real)
    requires t >= 0.0
    ensures Trunc(FloorDiv(t, 3600.0)) == t.Floor / 3600
  {
    FloorOfQuotient(t, 3600);
  }

  lemma MinutesField(t: real)
    requires t >= 0.0
    ensures Trunc(FloorDiv(Mod(t, 3600.0), 60.0)) == (t.Floor % 3600) / 60
  {
    var n := t.Floor;
    FloorOfQuotient(t, 3600);
    var u := Mod(t, 3600.0);
    assert u == t - (3600 * (n / 3600)) as real;
    assert u.Floor == n % 3600;
    FloorOfQuotient(u, 60);
  }

  lemma SecondsField(t: real)
    requires t >= 0.0
    ensures Trunc(Mod(t, 60.0)) == t.Floor % 60
  {
    var n := t.Floor;
    FloorOfQuotient(t, 60);
    var v := Mod(t, 60.0);
    assert v == t - (60 * (n / 60)) as real;
  }

  // ---------------------------------------------------------------------
  // Reading a stamp back
  // ---------------------------------------------------------------------

  /**
   * Reads `H..H:MM:SS,mmm`: the hours are everything before the last ten
   * characters, so they may have any number (at least two) of digits.
   */
  function ParseTime(s: string): Option<Clock> {
    if |s| < 12 then None
    else
      var n := |s|;
      var hs, ms, ss, fs := s[..n - 10], s[n - 9..n - 7], s[n - 6..n - 4], s[n - 3..];
      if s[n - 10] == ':' && s[n - 7] == ':' && s[n - 4] == ','
         && AllDigits(hs) && AllDigits(ms) && AllDigits(ss) && AllDigits(fs)
      then Some(Clock(DecimalValue(hs), DecimalValue(ms), DecimalValue(ss), DecimalValue(fs)))
      else None
  }

  /**
   * A stamp of a non-negative time reads back as the clock it was made from:
   * the format loses nothing, and in particular never wraps the hours.
   */
  lemma ParseFormatTime(t: real)
    requires t >= 0.0
    ensures ParseTime(FormatTime(t)) == Some(ClockOf(t))
    ensures ParseTime(FormatTime(t)).value.h == t.Floor / 3600
  {
    var c := ClockOf(t);
    ClockFields(t);
    FieldsRead(c);
    ParseFields(FormatInt(c.h, 2), FormatInt(c.m, 2), FormatInt(c.s, 2), FormatInt(c.ms, 3));
  }

  /** Each field of an in-range clock is rendered as digits of the right width that read back. */
  lemma FieldsRead(c: Clock)
    requires c.h >= 0 && 0 <= c.m < 60 && 0 <= c.s < 60 && 0 <= c.ms < 1000
    ensures var hs, ms, ss, fs := FormatInt(c.h, 2), FormatInt(c.m, 2), FormatInt(c.s, 2), FormatInt(c.ms, 3);
      && |hs| >= 2 && |ms| == 2 && |ss| == 2 && |fs| == 3
      && AllDigits(hs) && AllDigits(ms) && AllDigits(ss) && AllDigits(fs)
      && DecimalValue(hs) == c.h && DecimalValue(ms) == c.m
      && DecimalValue(ss) == c.s && DecimalValue(fs) == c.ms
  {
    assert Pow10(2) == 100 && Pow10(3) == 1000;
    PadExactWidth(c.m, 2);
    PadExactWidth(c.s, 2);
    PadExactWidth(c.ms, 3);
    FormatIntFacts(c.h, 2);
    FormatIntFacts(c.m, 2);
    FormatIntFacts(c.s, 2);
    FormatIntFacts(c.ms, 3);
  }

  /** The fields are found again at their fixed distances from the end of the stamp. */
  lemma ParseFields(hs: string, ms: string, ss: string, fs: string)
    requires |hs| >= 2 && |ms| == 2 && |ss| == 2 && |fs| == 3
    requires AllDigits(hs) && AllDigits(ms) && AllDigits(ss) && AllDigits(fs)
    ensures ParseTime(hs + ":" + ms + ":" + ss + "," + fs)
      == Some(Clock(DecimalValue(hs), DecimalValue(ms), DecimalValue(ss), DecimalValue(fs)))
  {
    StampSlices(hs, ms, ss, fs);
  }

  lemma StampSlices(hs: string, ms: string, ss: string, fs: string)
    requires |hs| >= 2 && |ms| == 2 && |ss| == 2 && |fs| == 3
    ensures var s := hs + ":" + ms + ":" + ss + "," + fs; var n := |s|;
      && n >= 12
      && s[n - 10] == ':' && s[n - 7] == ':' && s[n - 4] == ','
      && s[..n - 10] == hs && s[n - 9..n - 7] == ms && s[n - 6..n - 4] == ss && s[n - 3..] == fs
  {
    var s := hs + ":" + ms + ":" + ss + "," + fs;
    var n := |s|;
    assert s[..n - 10] == hs;
    assert s[n - 9..n - 7] == ms;
    assert s[n - 6..n - 4] == ss;
    assert s[n - 3..] == fs;
  }

  /** `format_time(3661.2345)` is `01:01:01,234`: the milliseconds are truncated. */
  lemma FormatTimeExample(t: real)
    requires t == 3661.2345
    ensures FormatTime(t) == "01:01:01,234"
  {
    assert t.Floor == 3661;
    ClockFields(t);
    var c := ClockOf(t);
    assert c.h == 1 && c.m == 1 && c.s == 1;
    assert c.ms == 234 by {
      assert (t - t.Floor as real) * 1000.0 == 234.5;
    }
    assert DigitChar(0) == '0' && DigitChar(1) == '1';
    assert DigitChar(2) == '2' && DigitChar(3) == '3' && DigitChar(4) == '4';
    assert NatToDecimal(1) == "1";
    assert NatToDecimal(234) == "234" by {
      assert NatToDecimal(2) == "2";
      assert NatToDecimal(23) == "23";
    }
    assert ZeroPad(1, 2) == "01";
    assert ZeroPad(234, 3) == "234";
  }

  /** A negative time (outside what the pipeline feeds it) gets a minus sign. */
  lemma FormatTimeNegative(t: real)
    requires t < 0.0
    ensures FormatTime(t)[0] == '-'
  {
    assert ClockOf(t).h < 0;
    FormatIntFacts(ClockOf(t).h, 2);
  }
}
