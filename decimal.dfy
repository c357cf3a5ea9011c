/**
 * Decimal text as Python produces and reads it: `str(n)` and `f"{n}"` for
 * integers, the zero-padded `f"{n:02d}"` / `f"{n:03d}"` forms, and the
 * `int(text)` conversion of a string.
 */
module Decimal {
  import opened Wrappers

  predicate IsDigit(c: char) { '0' <= c <= '9' }

  predicate AllDigits(s: string) { forall i :: 0 <= i < |s| ==> IsDigit(s[i]) }

  function DigitChar(d: nat): (c: char)
    requires d < 10
    ensures IsDigit(c)
  {
    ('0' as int + d) as char
  }

  function DigitValue(c: char): nat
    requires IsDigit(c)
  {
    c as int - '0' as int
  }

  function Pow10(w: nat): (p: nat)
    ensures p >= 1
  {
    if w == 0 then 1 else 10 * Pow10(w - 1)
  }

  /** The number that a string of decimal digits denotes (leading zeros allowed). */
  function DigitsValue(s: string): nat
    requires AllDigits(s)
  {
    if s == [] then 0 else DigitsValue(s[..|s| - 1]) * 10 + DigitValue(s[|s| - 1])
  }

  /** `str(n)` for a non-negative integer: its digits, most significant first. */
  function NatToString(n: nat): (s: string)
    ensures 1 <= |s| && AllDigits(s)
    ensures |s| > 1 ==> s[0] != '0'
  {
    if n < 10 then [DigitChar(n)] else NatToString(n / 10) + [DigitChar(n % 10)]
  }

  /** `str(n)` for any integer: a minus sign in front of a negative number. */
  function IntToString(n: int): string
  {
    if n < 0 then "-" + NatToString(-n) else NatToString(n)
  }

  function Zeros(k: nat): (s: string)
    ensures |s| == k && AllDigits(s)
  {
    seq(k, _ => '0')
  }

  /**
   * `f"{n:0{width}d}"`: the sign, then as many zeros as it takes to reach
   * `width` characters in all, then the digits of the magnitude.
   */
  function ZeroPad(n: int, width: nat): string
  {
    var sign := if n < 0 then "-" else "";
    var digits := NatToString(if n < 0 then -n else n);
    var fill := if |sign| + |digits| < width then width - |sign| - |digits| else 0;
    sign + Zeros(fill) + digits
  }

  lemma {:induction false} NatToStringValue(n: nat)
    ensures DigitsValue(NatToString(n)) == n
  {
    if n >= 10 {
      var a := NatToString(n / 10);
      var s := NatToString(n);
      assert s == a + [DigitChar(n % 10)];
      assert s[..|s| - 1] == a;
      NatToStringValue(n / 10);
    }
  }

  lemma {:induction false} NatToStringLength(n: nat, w: nat)
    requires 1 <= w && n < Pow10(w)
    ensures |NatToString(n)| <= w
  {
    if n >= 10 {
      assert w >= 2;
      assert n / 10 < Pow10(w - 1);
      NatToStringLength(n / 10, w - 1);
    }
  }

  /** Leading zeros do not change the value of a digit string. */
  lemma {:induction false} LeadingZerosValue(k: nat, s: string)
    requires AllDigits(s)
    ensures AllDigits(Zeros(k) + s) && DigitsValue(Zeros(k) + s) == DigitsValue(s)
    decreases |s|, k
  {
    var t := Zeros(k) + s;
    if s == [] {
      assert t == Zeros(k);
      if k > 0 {
        assert t[..|t| - 1] == Zeros(k - 1) + [];
        LeadingZerosValue(k - 1, []);
      }
    } else {
      assert t[..|t| - 1] == Zeros(k) + s[..|s| - 1];
      LeadingZerosValue(k, s[..|s| - 1]);
    }
  }

  /**
   * A non-negative number padded to `width` is a digit string of exactly
   * `width` characters when it fits, and it still denotes the number.
   */
  lemma ZeroPadDigits(n: nat, width: nat)
    ensures AllDigits(ZeroPad(n, width))
    ensures DigitsValue(ZeroPad(n, width)) == n
    ensures |ZeroPad(n, width)| >= width
    ensures 1 <= width && n < Pow10(width) ==> |ZeroPad(n, width)| == width
  {
    var digits := NatToString(n);
    var fill := if |digits| < width then width - |digits| else 0;
    assert ZeroPad(n, width) == Zeros(fill) + digits;
    LeadingZerosValue(fill, digits);
    NatToStringValue(n);
    if 1 <= width && n < Pow10(width) {
      NatToStringLength(n, width);
    }
  }

  // ---------------------------------------------------------------------
  // Python's int(text)

  /**
   * The ASCII characters that `int()` skips around a number: space and tab
   * to carriage return. The separators `\x1c`..`\x1f` are not among them,
   * although `str.isspace()` counts them.
   */
  predicate IsSpace(c: char)
  {
    c == ' ' || 9 <= c as int <= 13
  }

  function TrimStart(s: string): (t: string)
    ensures |t| <= |s|
  {
    if |s| > 0 && IsSpace(s[0]) then TrimStart(s[1..]) else s
  }

  function TrimEnd(s: string): (t: string)
    ensures |t| <= |s|
  {
    if |s| > 0 && IsSpace(s[|s| - 1]) then TrimEnd(s[..|s| - 1]) else s
  }

  /** Digits, where single underscores may stand between two digits. */
  predicate WellGrouped(s: string)
  {
    && |s| > 0
    && IsDigit(s[0])
    && IsDigit(s[|s| - 1])
    && (forall i :: 0 <= i < |s| ==> IsDigit(s[i]) || s[i] == '_')
    && (forall i :: 0 <= i < |s| - 1 && s[i] == '_' ==> s[i + 1] != '_')
  }

  function DropUnderscores(s: string): (t: string)
    requires forall i :: 0 <= i < |s| ==> IsDigit(s[i]) || s[i] == '_'
    ensures AllDigits(t)
  {
    if s == [] then []
    else if s[0] == '_' then DropUnderscores(s[1..])
    else [s[0]] + DropUnderscores(s[1..])
  }

  /**
   * The default of `sys.int_max_str_digits`: `int(text)` refuses more
   * decimal digits than this, and `str(n)` refuses to write more.
   */
  const MaxStrDigits: nat := 4300

  function ParseMagnitude(s: string): Option<nat>
  {
    if WellGrouped(s) && |DropUnderscores(s)| <= MaxStrDigits then Some(DigitsValue(DropUnderscores(s))) else None
  }

  /**
   * `int(text)`: surrounding white space is skipped, one optional sign is
   * read, and the rest must be a well-grouped run of at most
   * `MaxStrDigits` decimal digits; anything else is a ValueError, here
   * `None`.
   */
  function ParseInt(text: string): Option<int>
  {
    var t := TrimEnd(TrimStart(text));
    if |t| > 0 && (t[0] == '+' || t[0] == '-') then
      match ParseMagnitude(t[1..])
      case None => None
      case Some(m) =>
        var v: int := if t[0] == '-' then -(m as int) else m;
        Some(v)
    else
      match ParseMagnitude(t)
      case None => None
      case Some(m) => Some(m)
  }

  lemma {:induction false} DropUnderscoresOfDigits(s: string)
    requires AllDigits(s)
    ensures DropUnderscores(s) == s
  {
    if s != [] {
      DropUnderscoresOfDigits(s[1..]);
    }
  }

  lemma TrimUnchanged(s: string)
    requires |s| > 0 && !IsSpace(s[0]) && !IsSpace(s[|s| - 1])
    ensures TrimEnd(TrimStart(s)) == s
  {
  }

  lemma ParseMagnitudeOfNat(m: nat)
    requires |NatToString(m)| <= MaxStrDigits
    ensures ParseMagnitude(NatToString(m)) == Some(m)
  {
    var digits := NatToString(m);
    assert WellGrouped(digits);
    DropUnderscoresOfDigits(digits);
    NatToStringValue(m);
  }

  /** Reading back what `str(n)` writes gives `n` again, for every `n` that `str` can write. */
  lemma ParseIntOfIntToString(n: int)
    requires |NatToString(if n < 0 then -n else n)| <= MaxStrDigits
    ensures ParseInt(IntToString(n)) == Some(n)
  {
    var m: nat := if n < 0 then -n else n;
    var s := IntToString(n);
    TrimUnchanged(s);
    ParseMagnitudeOfNat(m);
    if n < 0 {
      assert s[1..] == NatToString(m);
    } else {
      assert s[0] != '+' && s[0] != '-';
    }
  }

  /** Text that is not a number at all, or not an integer, is refused. */
  lemma ParseIntRefuses()
    ensures ParseInt("") == None
    ensures ParseInt("abc") == None
    ensures ParseInt("5.0") == None
    ensures ParseInt("1__0") == None
  {
    assert !WellGrouped("5.0") by { assert "5.0"[1] == '.'; }
    assert !WellGrouped("1__0") by { assert "1__0"[1] == '_' && "1__0"[2] == '_'; }
    assert !WellGrouped("abc");
  }

  /** A file separator before the digits is not skipped: `int("\x1c5")` raises. */
  lemma ParseIntRefusesSeparator()
    ensures ParseInt("\U{1C}5") == None
  {
    assert !WellGrouped("\U{1C}5") by { assert "\U{1C}5"[0] == '\U{1C}'; }
  }

  /** Surrounding white space is skipped. */
  lemma ParseIntSkipsSpace()
    ensures ParseInt(" 7\n") == Some(7)
  {
    assert TrimStart(" 7\n") == "7\n";
    assert TrimEnd("7\n") == "7";
    assert WellGrouped("7");
    assert DropUnderscores("7") == "7";
    assert DigitsValue("7") == 7;
  }

  /** A leading plus or minus sign is read. */
  lemma ParseIntReadsSign()
    ensures ParseInt("+12") == Some(12)
    ensures ParseInt("-3") == Some(-3)
  {
    assert TrimEnd(TrimStart("+12")) == "+12";
    assert "+12"[1..] == "12";
    assert WellGrouped("12");
    assert DropUnderscores("12") == "12";
    assert DigitsValue("12") == 12 by { assert "12"[..1] == "1"; }
    assert TrimEnd(TrimStart("-3")) == "-3";
    assert "-3"[1..] == "3";
    assert WellGrouped("3");
    assert DropUnderscores("3") == "3";
  }

  /** Leading zeros and a grouping underscore are accepted. */
  lemma ParseIntReadsGrouping()
    ensures ParseInt("0_20") == Some(20)
  {
    assert TrimEnd(TrimStart("0_20")) == "0_20";
    assert WellGrouped("0_20");
    assert DropUnderscores("0_20") == "020";
    assert DigitsValue("020") == 20 by {
      assert "020"[..2] == "02";
      assert "02"[..1] == "0";
    }
  }

  /** A run of more digits than the limit is refused, whatever it denotes. */
  lemma ParseIntDigitLimit(s: string)
    requires AllDigits(s) && |s| > MaxStrDigits
    ensures ParseInt(s) == None
  {
    TrimUnchanged(s);
    DropUnderscoresOfDigits(s);
  }
}
