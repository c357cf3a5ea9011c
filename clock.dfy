/**
 * The `HH:MM:SS` rendering of a duration in seconds, written the way the
 * program computes it on floating-point seconds (here exact reals):
 * `int(x // 3600)`, `int(x % 3600 // 60)` and `int(x % 60)`, each shown
 * with `:02d`.
 */
module Clock {
  import opened Wrappers
  import opened Decimal

  /** Python's `int(x)` on a float: truncation toward zero. */
  function Trunc(x: real): int
  {
    if x >= 0.0 then x.Floor else -((-x).Floor)
  }

  /** Python's `x // d` on floats, for a positive divisor. */
  function FloorDiv(x: real, d: real): real
    requires d > 0.0
  {
    (x / d).Floor as real
  }

  /** Python's `x % d` on floats, for a positive divisor (never negative). */
  function FloorMod(x: real, d: real): real
    requires d > 0.0
  {
    x - d * FloorDiv(x, d)
  }

  /** Hours, minutes and seconds, each formatted with `:02d`, joined by colons. */
  function ClockString(h: int, m: int, s: int): string
  {
    ZeroPad(h, 2) + ":" + ZeroPad(m, 2) + ":" + ZeroPad(s, 2)
  }

  datatype Hms = Hms(hours: int, minutes: int, seconds: int)

  /** The three fields as the program computes them from float seconds. */
  function HmsFields(x: real): Hms
  {
    Hms(Trunc(FloorDiv(x, 3600.0)), Trunc(FloorDiv(FloorMod(x, 3600.0), 60.0)), Trunc(FloorMod(x, 60.0)))
  }

  /** The same fields obtained from a whole number of seconds. */
  function HmsOfSeconds(n: int): (r: Hms)
    ensures r.hours * 3600 + r.minutes * 60 + r.seconds == n
    ensures 0 <= r.minutes < 60 && 0 <= r.seconds < 60
  {
    Hms(n / 3600, (n % 3600) / 60, n % 60)
  }

  function FormatHms(x: real): string
  {
    var f := HmsFields(x);
    ClockString(f.hours, f.minutes, f.seconds)
  }

  /** Reads `H...H:MM:SS` back (hours at least two digits, no sign). */
  function ParseClock(t: string): Option<Hms>
  {
    if |t| >= 8 && t[|t| - 3] == ':' && t[|t| - 6] == ':' then
      var hs, ms, ss := t[..|t| - 6], t[|t| - 5..|t| - 3], t[|t| - 2..];
      if AllDigits(hs) && AllDigits(ms) && AllDigits(ss) then
        Some(Hms(DigitsValue(hs), DigitsValue(ms), DigitsValue(ss)))
      else None
    else None
  }

  lemma FloorOfInt(k: int)
    ensures (k as real).Floor == k
  {
  }

  /** Dividing by a positive real keeps strict and non-strict bounds. */
  lemma DivideBounds(x: real, d: real, lo: real, hi: real)
    requires d > 0.0 && lo * d <= x < hi * d
    ensures lo <= x / d < hi
  {
    assert x / d * d == x;
  }

  /** Floor division of a real by a positive whole number is that of its floor. */
  lemma FloorDivByInt(x: real, d: int)
    requires d > 0
    ensures (x / (d as real)).Floor == x.Floor / d
  {
    var n := x.Floor;
    var q := n / d;
    assert q * d <= n < (q + 1) * d;
    assert (q * d) as real == (q as real) * (d as real);
    assert ((q + 1) * d) as real == ((q + 1) as real) * (d as real);
    assert (q as real) * (d as real) <= x < ((q + 1) as real) * (d as real);
    DivideBounds(x, d as real, q as real, (q + 1) as real);
  }

  /** Floor of x minus a whole number. */
  lemma FloorMinusInt(x: real, k: int)
    ensures (x - k as real).Floor == x.Floor - k
  {
  }

  /**
   * The program's float expressions agree with whole-second arithmetic on
   * the truncated value: 59.9 seconds is shown as 59 seconds, not 60.
   */
  lemma HmsFieldsOfFloor(x: real)
    ensures HmsFields(x) == HmsOfSeconds(x.Floor)
  {
    var n := x.Floor;
    FloorDivByInt(x, 3600);
    var qh := x.Floor / 3600;
    assert FloorDiv(x, 3600.0) == qh as real;
    FloorOfInt(qh);
    var rest := FloorMod(x, 3600.0);
    assert rest == x - (3600 * qh) as real;
    FloorMinusInt(x, 3600 * qh);
    assert rest.Floor == n % 3600;
    FloorDivByInt(rest, 60);
    assert FloorDiv(rest, 60.0) == ((n % 3600) / 60) as real;
    FloorOfInt((n % 3600) / 60);
    FloorDivByInt(x, 60);
    var sec := FloorMod(x, 60.0);
    assert sec == x - (60 * (n / 60)) as real;
    FloorMinusInt(x, 60 * (n / 60));
    assert sec.Floor == n % 60;
    assert sec >= 0.0;
  }

  lemma ZeroPadTwo(n: nat)
    requires n < 100
    ensures |ZeroPad(n, 2)| == 2 && AllDigits(ZeroPad(n, 2)) && DigitsValue(ZeroPad(n, 2)) == n
  {
    ZeroPadDigits(n, 2);
  }

  /** Reading a clock string back gives the three fields again. */
  lemma ClockRoundTrip(h: nat, m: nat, s: nat)
    requires m < 60 && s < 60
    ensures ParseClock(ClockString(h, m, s)) == Some(Hms(h, m, s))
  {
    var hs, ms, ss := ZeroPad(h, 2), ZeroPad(m, 2), ZeroPad(s, 2);
    ZeroPadDigits(h, 2);
    ZeroPadTwo(m);
    ZeroPadTwo(s);
    var t := ClockString(h, m, s);
    assert t == hs + ":" + ms + ":" + ss;
    assert t[..|t| - 6] == hs;
    assert t[|t| - 5..|t| - 3] == ms;
    assert t[|t| - 2..] == ss;
  }

  /**
   * For a non-negative duration the string denotes the whole seconds of
   * the duration, split into hours (unbounded), minutes and seconds.
   */
  lemma FormatHmsRoundTrip(x: real)
    requires x >= 0.0
    ensures ParseClock(FormatHms(x)) == Some(HmsOfSeconds(x.Floor))
    ensures var f := HmsOfSeconds(x.Floor); f.hours * 3600 + f.minutes * 60 + f.seconds == x.Floor
  {
    HmsFieldsOfFloor(x);
    var f := HmsOfSeconds(x.Floor);
    ClockRoundTrip(f.hours, f.minutes, f.seconds);
  }

  /** Two-digit padding of the small values the examples below use. */
  lemma ZeroPadSmall()
    ensures ZeroPad(0, 2) == "00" && ZeroPad(1, 2) == "01" && ZeroPad(2, 2) == "02"
    ensures ZeroPad(59, 2) == "59"
  {
    assert NatToString(59) == NatToString(5) + [DigitChar(9)];
  }

  /** 59.9 seconds is shown as `00:00:59`: the fraction is dropped, not rounded. */
  lemma FormatFractionalMinute()
    ensures FormatHms(59.9) == "00:00:59"
  {
    HmsFieldsOfFloor(59.9);
    assert (59.9).Floor == 59;
    assert HmsFields(59.9) == Hms(0, 0, 59);
    ZeroPadSmall();
  }

  lemma FormatHourMinuteSecond()
    ensures FormatHms(3661.0) == "01:01:01"
  {
    HmsFieldsOfFloor(3661.0);
    assert HmsFields(3661.0) == Hms(1, 1, 1);
    ZeroPadSmall();
  }

  lemma FormatTwoMinutes()
    ensures FormatHms(120.0) == "00:02:00"
  {
    HmsFieldsOfFloor(120.0);
    assert HmsFields(120.0) == Hms(0, 2, 0);
    ZeroPadSmall();
  }
}
