/** Fixed-point column values, their text form as the database returns it,
    the rounding a NUMERIC column applies, integer column ranges, and
    JavaScript's `parseFloat` and `parseInt` on exact values. */
module Numbers {
  import opened Common

  function Pow10(n: nat): (p: nat)
    ensures p >= 1
  {
    if n == 0 then 1 else 10 * Pow10(n - 1)
  }

  /** A NUMERIC(precision, scale) value: `units` counts steps of 10^-scale. */
  datatype Decimal = Decimal(units: int, scale: nat)

  function Value(d: Decimal): real
  {
    d.units as real / Pow10(d.scale) as real
  }

  /** The value a nullable numeric column contributes once JavaScript has
      coerced it with `*` or `-`: `null` becomes 0. */
  function ValueOrZero(d: Option<Decimal>): real
  {
    match d
    case Some(x) => Value(x)
    case None => 0.0
  }

  predicate IsDigit(c: char)
  {
    '0' <= c <= '9'
  }

  predicate AllDigits(s: string)
  {
    forall i :: 0 <= i < |s| ==> IsDigit(s[i])
  }

  function DigitChar(n: nat): (c: char)
    requires n < 10
    ensures IsDigit(c)
  {
    (('0' as int) + n) as char
  }

  function DigitValue(c: char): (n: nat)
    requires IsDigit(c)
    ensures n < 10
  {
    (c as int) - ('0' as int)
  }

  /** The value of a run of decimal digits, most significant first. */
  function DigitsValue(s: string): nat
    requires AllDigits(s)
  {
    if |s| == 0 then 0 else DigitsValue(s[..|s| - 1]) * 10 + DigitValue(s[|s| - 1])
  }

  /** Decimal digits of `n` without leading zeros. */
  function NatToString(n: nat): (s: string)
    ensures 1 <= |s|
    ensures AllDigits(s)
  {
    if n < 10 then [DigitChar(n)] else NatToString(n / 10) + [DigitChar(n % 10)]
  }

  function Zeros(k: nat): (s: string)
    ensures |s| == k
    ensures AllDigits(s)
  {
    seq(k, _ => '0')
  }

  /** `s` left-padded with zeros up to `width` characters. */
  function PadLeft(s: string, width: nat): (r: string)
    ensures |r| == if |s| < width then width else |s|
  {
    if |s| < width then Zeros(width - |s|) + s else s
  }

  function Abs(x: int): nat
  {
    if x < 0 then -x else x
  }

  /** The text PostgreSQL returns for a NUMERIC with the column's scale:
      an optional '-', the integer digits, and exactly `scale` fraction digits. */
  function Show(d: Decimal): string
  {
    (if d.units < 0 then "-" else "")
    + NatToString(WholePart(d))
    + (if d.scale == 0 then "" else "." + PadLeft(NatToString(FractionPart(d)), d.scale))
  }

  /** The digits before the point: |units| div 10^scale. */
  function WholePart(d: Decimal): nat
  {
    NatDiv(Abs(d.units), Pow10(d.scale))
  }

  /** The digits after the point: |units| mod 10^scale. */
  function FractionPart(d: Decimal): (m: nat)
    ensures m < Pow10(d.scale)
  {
    Abs(d.units) % Pow10(d.scale)
  }

  function NatDiv(a: nat, p: nat): (q: nat)
    requires p >= 1
    ensures q * p <= a
  {
    a / p
  }

  /** JavaScript `String(x)` of a nullable numeric property. */
  function ShowOrNull(d: Option<Decimal>): string
  {
    match d
    case Some(x) => Show(x)
    case None => "null"
  }

  /** The white space and line terminators JavaScript trims: the ASCII
      ones, no-break space, the byte-order mark, the line and paragraph
      separators, and every other space separator of Unicode. */
  predicate IsSpace(c: char)
  {
    || c in {' ', '\t', '\n', '\r', '\U{B}', '\U{C}', '\U{A0}', '\U{FEFF}', '\U{2028}', '\U{2029}'}
    || c in {'\U{1680}', '\U{202F}', '\U{205F}', '\U{3000}'}
    || '\U{2000}' <= c <= '\U{200A}'
  }

  function TrimStart(s: string): (r: string)
    ensures |r| <= |s|
    ensures |r| == 0 || !IsSpace(r[0])
  {
    if |s| > 0 && IsSpace(s[0]) then TrimStart(s[1..]) else s
  }

  /** Text that starts with a digit or a sign is not trimmed. */
  lemma TrimStartKeeps(s: string)
    requires |s| > 0 && (IsDigit(s[0]) || s[0] == '-' || s[0] == '+')
    ensures TrimStart(s) == s
  {
    var c := s[0];
    assert !IsSpace(c) by {
      assert c < '\t' || '\t' < c;
      assert '0' <= c <= '9' || c == '-' || c == '+';
    }
  }

  /** Length of the longest prefix of `s` made of digits. */
  function DigitRun(s: string): (n: nat)
    ensures n <= |s|
    ensures AllDigits(s[..n])
    ensures n == |s| || !IsDigit(s[n])
  {
    if |s| > 0 && IsDigit(s[0]) then
      assert s[..1 + DigitRun(s[1..])] == [s[0]] + s[1..][..DigitRun(s[1..])];
      1 + DigitRun(s[1..])
    else 0
  }

  function Signed(negative: bool, x: real): real
  {
    if negative then -x else x
  }

  /** JavaScript `parseFloat`: skip leading white space, read the longest
      decimal literal (sign, digits, point, digits, exponent), ignore the
      rest; `None` stands for NaN. */
  function ParseFloat(s: string): (r: Option<real>)
    ensures r.None? ==> |TrimStart(s)| == 0 || !IsDigit(TrimStart(s)[0])
  {
    var t := TrimStart(s);
    if |t| > 0 && (t[0] == '-' || t[0] == '+') then
      match ParseUnsigned(t[1..])
      case Some(x) => Some(Signed(t[0] == '-', x))
      case None => None
    else ParseUnsigned(t)
  }

  /** The unsigned part of a decimal literal: digits, optionally a point
      and more digits, with at least one digit on either side, then an
      optional exponent. */
  function ParseUnsigned(body: string): (r: Option<real>)
    ensures r.None? ==> |body| == 0 || !IsDigit(body[0])
    ensures r.Some? ==> r.value >= 0.0
  {
    var n := DigitRun(body);
    if n < |body| && body[n] == '.' then
      var frac := body[n + 1..];
      var k := DigitRun(frac);
      if n == 0 && k == 0 then None
      else Some(Scaled(PointValue(DigitsValue(body[..n]), DigitsValue(frac[..k]), k), Exponent(frac[k..])))
    else if n == 0 then None
    else Some(Scaled(DigitsValue(body[..n]) as real, Exponent(body[n..])))
  }

  /** The exponent that may follow the digits of a literal: 'e' or 'E', an
      optional sign and at least one digit. Without one the exponent is 0
      and the text after the digits is ignored. */
  function Exponent(rest: string): int
  {
    if |rest| > 0 && (rest[0] == 'e' || rest[0] == 'E') then
      var t := rest[1..];
      var u := Unsigned(t);
      var k := DigitRun(u);
      if k == 0 then 0
      else if |t| > 0 && t[0] == '-' then -(DigitsValue(u[..k]) as int)
      else DigitsValue(u[..k])
    else 0
  }

  /** `x` times `10^e`. */
  function Scaled(x: real, e: int): (v: real)
    requires x >= 0.0
    ensures v >= 0.0
    ensures e == 0 ==> v == x
  {
    if e >= 0 then x * Pow10(e) as real else x / Pow10(-e) as real
  }

  /** The value of `whole.fraction` where the fraction has `k` digits. */
  function PointValue(whole: nat, fraction: nat, k: nat): (v: real)
    ensures v >= 0.0
  {
    whole as real + fraction as real / Pow10(k) as real
  }

  /** Digits, an 'e', an optional minus and exponent digits read as the
      digits scaled by that power of ten. */
  lemma ParseScientific(digits: string, negativeExp: bool, exp: string)
    requires 1 <= |digits| && AllDigits(digits) && 1 <= |exp| && AllDigits(exp)
    ensures ParseFloat(digits + "e" + (if negativeExp then "-" else "") + exp)
         == Some(Scaled(DigitsValue(digits) as real, SignedInt(negativeExp, DigitsValue(exp))))
  {
    var sign := if negativeExp then "-" else "";
    var rest := "e" + sign + exp;
    var s := digits + "e" + sign + exp;
    assert s == digits + rest;
    ParseFloatFromDigit(s);
    ParseDigitsThen(digits, rest);
    ExponentOf(negativeExp, exp);
  }

  /** Text that starts with a digit is read without a sign. */
  lemma ParseFloatFromDigit(s: string)
    requires |s| > 0 && IsDigit(s[0])
    ensures ParseFloat(s) == ParseUnsigned(s)
  {
    TrimStartKeeps(s);
  }

  /** Digits followed by something other than a digit or a point. */
  lemma ParseDigitsThen(digits: string, rest: string)
    requires 1 <= |digits| && AllDigits(digits)
    requires |rest| > 0 && !IsDigit(rest[0]) && rest[0] != '.'
    ensures ParseUnsigned(digits + rest) == Some(Scaled(DigitsValue(digits) as real, Exponent(rest)))
  {
    var s := digits + rest;
    DigitRunOfDigits(digits, rest);
    assert s[..|digits|] == digits && s[|digits|..] == rest;
  }

  lemma ExponentOf(negativeExp: bool, exp: string)
    requires 1 <= |exp| && AllDigits(exp)
    ensures Exponent("e" + (if negativeExp then "-" else "") + exp) == SignedInt(negativeExp, DigitsValue(exp))
  {
    if negativeExp {
      assert "e" + "-" + exp == "e-" + exp;
      ExponentNegative(exp);
    } else {
      assert "e" + "" + exp == "e" + exp;
      ExponentPositive(exp);
    }
  }

  /** Digits after an 'e' read in full as the exponent. */
  lemma ExponentPositive(exp: string)
    requires 1 <= |exp| && AllDigits(exp)
    ensures Exponent("e" + exp) == DigitsValue(exp)
  {
    var rest := "e" + exp;
    assert rest[1..] == exp;
    assert Unsigned(exp) == exp;
    ExponentDigits(exp);
  }

  /** Digits after "e-" read in full as a negative exponent. */
  lemma ExponentNegative(exp: string)
    requires 1 <= |exp| && AllDigits(exp)
    ensures Exponent("e-" + exp) == -(DigitsValue(exp) as int)
  {
    var rest := "e-" + exp;
    var t := rest[1..];
    assert rest[0] == 'e';
    assert t[0] == '-' && t[1..] == exp by {
      assert t == "-" + exp;
    }
    assert Unsigned(t) == exp;
    ExponentDigits(exp);
  }

  lemma ExponentDigits(exp: string)
    requires 1 <= |exp| && AllDigits(exp)
    ensures DigitRun(exp) == |exp| && exp[..DigitRun(exp)] == exp
  {
    DigitRunOfDigits(exp, "");
    assert exp + "" == exp;
  }

  /** An exponent scales the literal by a power of ten, and a minus sign in
      it divides. */
  lemma ExponentRead()
    ensures ParseFloat("1e3") == Some(1000.0)
    ensures ParseFloat("25e-1") == Some(2.5)
  {
    ThousandRead();
    QuarterTenRead();
  }

  lemma ThousandRead()
    ensures ParseFloat("1e3") == Some(1000.0)
  {
    assert DigitsValue("1") == 1 && DigitsValue("3") == 3;
    assert Pow10(3) == 1000;
    assert "1" + "e" + "" + "3" == "1e3";
    ReadsScientific("1e3", "1", false, "3", 1000.0);
  }

  lemma QuarterTenRead()
    ensures ParseFloat("25e-1") == Some(2.5)
  {
    QuarterTenValue();
    assert "25" + "e" + "-" + "1" == "25e-1";
    ReadsScientific("25e-1", "25", true, "1", 2.5);
  }

  /** A literal written as digits, 'e', an optional minus and exponent
      digits reads as `v` when `v` is the digits scaled by that power. */
  lemma ReadsScientific(s: string, digits: string, negativeExp: bool, exp: string, v: real)
    requires 1 <= |digits| && AllDigits(digits) && 1 <= |exp| && AllDigits(exp)
    requires s == digits + "e" + (if negativeExp then "-" else "") + exp
    requires v == Scaled(DigitsValue(digits) as real, SignedInt(negativeExp, DigitsValue(exp)))
    ensures ParseFloat(s) == Some(v)
  {
    ParseScientific(digits, negativeExp, exp);
  }

  lemma QuarterTenValue()
    ensures Scaled(DigitsValue("25") as real, SignedInt(true, DigitsValue("1"))) == 2.5
  {
    assert "25"[..1] == "2";
    assert DigitsValue("25") == 25 && DigitsValue("1") == 1;
    assert Pow10(1) == 10;
  }

  /** An 'e' with no digit after it is not part of the number. */
  lemma DanglingExponentIgnored()
    ensures ParseFloat("7e") == Some(7.0)
  {
    var s := "7e";
    assert TrimStart(s) == s;
    DigitRunOfDigits("7", "e");
    assert "7" + "e" == s;
    assert s[..1] == "7" && s[1..] == "e";
    assert "e"[1..] == "";
    assert Exponent("e") == 0;
  }

  /** `!isNaN(parseFloat(s)) && parseFloat(s) > 0`. */
  predicate ParsesPositive(s: string)
  {
    ParseFloat(s).Some? && ParseFloat(s).value > 0.0
  }

  /** JavaScript `parseInt(s)` without a radix: skip leading white space,
      read an optional sign, then the longest run of hexadecimal digits
      after a "0x" or "0X" prefix, or else of decimal digits, and ignore
      the rest; `None` stands for NaN. */
  function ParseInt(s: string): (r: Option<int>)
    ensures var b := Unsigned(TrimStart(s));
      r.None? <==> if HexPrefixed(b) then HexRun(b[2..]) == 0 else DigitRun(b) == 0
  {
    var t := TrimStart(s);
    var b := Unsigned(t);
    var negative := |t| > 0 && t[0] == '-';
    if HexPrefixed(b) then
      var n := HexRun(b[2..]);
      if n == 0 then None else Some(SignedInt(negative, HexValue(b[2..][..n])))
    else
      var n := DigitRun(b);
      if n == 0 then None else Some(SignedInt(negative, DigitsValue(b[..n])))
  }

  function SignedInt(negative: bool, n: nat): int
  {
    if negative then -(n as int) else n
  }

  /** The text after a leading sign, if there is one. */
  function Unsigned(t: string): (r: string)
    ensures |r| <= |t|
  {
    if |t| > 0 && (t[0] == '-' || t[0] == '+') then t[1..] else t
  }

  predicate HexPrefixed(s: string)
  {
    |s| >= 2 && s[0] == '0' && (s[1] == 'x' || s[1] == 'X')
  }

  predicate IsHexDigit(c: char)
  {
    IsDigit(c) || 'a' <= c <= 'f' || 'A' <= c <= 'F'
  }

  function HexDigitValue(c: char): (n: nat)
    requires IsHexDigit(c)
    ensures n < 16
  {
    if IsDigit(c) then DigitValue(c)
    else if 'a' <= c <= 'f' then (c as int) - ('a' as int) + 10
    else (c as int) - ('A' as int) + 10
  }

  /** Length of the longest prefix of `s` made of hexadecimal digits. */
  function HexRun(s: string): (n: nat)
    ensures n <= |s|
    ensures forall i :: 0 <= i < n ==> IsHexDigit(s[i])
    ensures n == |s| || !IsHexDigit(s[n])
  {
    if |s| > 0 && IsHexDigit(s[0]) then
      assert forall i :: 1 <= i < 1 + HexRun(s[1..]) ==> s[i] == s[1..][i - 1];
      1 + HexRun(s[1..])
    else 0
  }

  /** The value of a run of hexadecimal digits, most significant first. */
  function HexValue(s: string): nat
    requires forall i :: 0 <= i < |s| ==> IsHexDigit(s[i])
  {
    if |s| == 0 then 0 else HexValue(s[..|s| - 1]) * 16 + HexDigitValue(s[|s| - 1])
  }

  /** A "0x" prefix switches to base 16, in either case of the letters. */
  lemma HexRead()
    ensures ParseInt("0x1f") == Some(31)
    ensures ParseInt("-0X1F") == Some(-31)
  {
    assert TrimStart("0x1f") == "0x1f" && Unsigned("0x1f") == "0x1f";
    assert HexPrefixed("0x1f") && "0x1f"[2..] == "1f";
    HexRunAll("1f");
    assert "1f"[..2] == "1f" && "1f"[..1] == "1";
    assert HexValue("1f") == 31;
    assert TrimStart("-0X1F") == "-0X1F" && Unsigned("-0X1F") == "0X1F";
    assert HexPrefixed("0X1F") && "0X1F"[2..] == "1F";
    HexRunAll("1F");
    assert "1F"[..2] == "1F" && "1F"[..1] == "1";
    assert HexValue("1F") == 31;
  }

  /** A prefix with no hexadecimal digit after it is NaN, not zero. */
  lemma BareHexPrefixIsNaN()
    ensures ParseInt("0x") == None
  {
    assert TrimStart("0x") == "0x" && Unsigned("0x") == "0x";
    assert HexPrefixed("0x") && "0x"[2..] == "";
  }

  lemma {:induction false} HexRunAll(s: string)
    requires forall i :: 0 <= i < |s| ==> IsHexDigit(s[i])
    ensures HexRun(s) == |s|
  {
    if |s| > 0 {
      HexRunAll(s[1..]);
    }
  }

  /** A number written out in decimal, with or without a minus sign, reads
      back as itself. */
  lemma ParseIntRoundTrip(n: nat)
    ensures ParseInt(NatToString(n)) == Some(n)
    ensures ParseInt("-" + NatToString(n)) == Some(-(n as int))
  {
    var digits := NatToString(n);
    NatToStringRoundTrip(n);
    DecimalDigitsFacts(digits);
    TrimStartKeeps(digits);
    ParseIntDecimal(digits, digits, false);
    var s := "-" + digits;
    TrimStartKeeps(s);
    assert s[1..] == digits;
    ParseIntDecimal(s, digits, true);
  }

  /** A run of decimal digits is all digits, and no hexadecimal prefix. */
  lemma DecimalDigitsFacts(digits: string)
    requires 1 <= |digits| && AllDigits(digits)
    ensures DigitRun(digits) == |digits| && !HexPrefixed(digits) && IsDigit(digits[0])
  {
    DigitRunOfDigits(digits, "");
    assert digits + "" == digits;
    if |digits| >= 2 {
      assert IsDigit(digits[1]);
    }
  }

  /** Text that is its own trimmed form, and whose unsigned part is all
      decimal digits, reads as their value with the sign it carries. */
  lemma ParseIntDecimal(s: string, digits: string, negative: bool)
    requires 1 <= |digits| && AllDigits(digits) && DigitRun(digits) == |digits|
    requires TrimStart(s) == s && Unsigned(s) == digits && !HexPrefixed(digits)
    requires negative <==> |s| > 0 && s[0] == '-'
    ensures ParseInt(s) == Some(SignedInt(negative, DigitsValue(digits)))
  {
    assert digits[..|digits|] == digits;
  }

  // ---------------------------------------------------------------------
  // Round trip: the text the database returns parses back to the value.

  lemma {:induction false} NatToStringRoundTrip(n: nat)
    ensures DigitsValue(NatToString(n)) == n
  {
    if n >= 10 {
      var s := NatToString(n);
      assert s[..|s| - 1] == NatToString(n / 10);
      NatToStringRoundTrip(n / 10);
    }
  }

  lemma {:induction false} ZerosValue(k: nat)
    ensures DigitsValue(Zeros(k)) == 0
  {
    if k > 0 {
      assert Zeros(k)[..k - 1] == Zeros(k - 1);
      ZerosValue(k - 1);
    }
  }

  lemma {:induction false} LeadingZerosValue(k: nat, s: string)
    requires AllDigits(s)
    ensures DigitsValue(Zeros(k) + s) == DigitsValue(s)
  {
    if |s| == 0 {
      assert Zeros(k) + s == Zeros(k);
      ZerosValue(k);
    } else {
      var t := Zeros(k) + s;
      assert t[..|t| - 1] == Zeros(k) + s[..|s| - 1];
      LeadingZerosValue(k, s[..|s| - 1]);
    }
  }

  lemma {:induction false} NatToStringLength(m: nat, k: nat)
    requires 1 <= k && m < Pow10(k)
    ensures |NatToString(m)| <= k
  {
    if m >= 10 {
      assert k >= 2;
      NatToStringLength(m / 10, k - 1);
    }
  }

  lemma {:induction false} DigitRunOfDigits(digits: string, tail: string)
    requires AllDigits(digits)
    requires |tail| == 0 || !IsDigit(tail[0])
    ensures DigitRun(digits + tail) == |digits|
  {
    if |digits| > 0 {
      assert (digits + tail)[1..] == digits[1..] + tail;
      DigitRunOfDigits(digits[1..], tail);
    } else {
      assert digits + tail == tail;
    }
  }

  lemma ScaledSum(q: nat, m: nat, p: nat)
    requires p >= 1
    ensures q as real + m as real / p as real == (q * p + m) as real / p as real
  {
  }

  /** The digits of a value without its sign, as `Show` writes them. */
  function ShowUnsigned(d: Decimal): string
  {
    NatToString(WholePart(d))
    + (if d.scale == 0 then "" else "." + PadLeft(NatToString(FractionPart(d)), d.scale))
  }

  lemma WholeAndFraction(d: Decimal)
    ensures Abs(d.units) == WholePart(d) * Pow10(d.scale) + FractionPart(d)
  {
  }

  lemma ValueBySign(d: Decimal)
    ensures Value(d) == Signed(d.units < 0, Abs(d.units) as real / Pow10(d.scale) as real)
  {
  }

  lemma {:induction false} PaddedFraction(d: Decimal)
    requires d.scale > 0
    ensures AllDigits(PadLeft(NatToString(FractionPart(d)), d.scale))
    ensures |PadLeft(NatToString(FractionPart(d)), d.scale)| == d.scale
    ensures DigitsValue(PadLeft(NatToString(FractionPart(d)), d.scale)) == FractionPart(d)
  {
    var m := FractionPart(d);
    NatToStringLength(m, d.scale);
    var frac := PadLeft(NatToString(m), d.scale);
    assert frac == Zeros(d.scale - |NatToString(m)|) + NatToString(m);
    LeadingZerosValue(d.scale - |NatToString(m)|, NatToString(m));
    NatToStringRoundTrip(m);
  }

  lemma ParseUnsignedInteger(digits: string)
    requires 1 <= |digits| && AllDigits(digits)
    ensures ParseUnsigned(digits) == Some(DigitsValue(digits) as real)
  {
    DigitRunOfDigits(digits, "");
    assert digits + "" == digits;
    assert digits[..|digits|] == digits;
    assert digits[|digits|..] == "";
  }

  lemma ParseUnsignedPointed(digits: string, frac: string)
    requires 1 <= |digits| && AllDigits(digits) && AllDigits(frac)
    ensures ParseUnsigned(digits + "." + frac) == Some(PointValue(DigitsValue(digits), DigitsValue(frac), |frac|))
  {
    var body := digits + "." + frac;
    assert body == digits + ("." + frac);
    DigitRunOfDigits(digits, "." + frac);
    var n := DigitRun(body);
    assert n == |digits|;
    assert body[..n] == digits;
    assert n < |body| && body[n] == '.';
    var rest := body[n + 1..];
    assert rest == frac;
    DigitRunOfDigits(frac, "");
    assert frac + "" == frac;
    var k := DigitRun(rest);
    assert k == |frac|;
    assert rest[..k] == frac;
    assert rest[k..] == "";
  }

  lemma {:induction false} ParseUnsignedShown(d: Decimal)
    ensures ParseUnsigned(ShowUnsigned(d)) == Some(Abs(d.units) as real / Pow10(d.scale) as real)
  {
    if d.scale == 0 {
      ParseShownWhole(d);
    } else {
      ParseShownPointed(d);
    }
  }

  lemma ParseShownWhole(d: Decimal)
    requires d.scale == 0
    ensures ParseUnsigned(ShowUnsigned(d)) == Some(Abs(d.units) as real / Pow10(d.scale) as real)
  {
    var q := WholePart(d);
    NatToStringRoundTrip(q);
    WholeAndFraction(d);
    assert ShowUnsigned(d) == NatToString(q);
    ParseUnsignedInteger(NatToString(q));
    assert Pow10(d.scale) == 1;
  }

  lemma ParseShownPointed(d: Decimal)
    requires d.scale > 0
    ensures ParseUnsigned(ShowUnsigned(d)) == Some(Abs(d.units) as real / Pow10(d.scale) as real)
  {
    var p := Pow10(d.scale);
    var q := WholePart(d);
    var m := FractionPart(d);
    NatToStringRoundTrip(q);
    WholeAndFraction(d);
    var frac := PadLeft(NatToString(m), d.scale);
    assert ShowUnsigned(d) == NatToString(q) + "." + frac;
    PaddedFraction(d);
    ParseUnsignedPointed(NatToString(q), frac);
    ScaledSum(q, m, p);
  }

  /** Reading back the text of a numeric column gives its value, which is
      why the client may treat `parseFloat(trade.entryPrice)` as the value. */
  lemma ParseShowRoundTrip(d: Decimal)
    ensures ParseFloat(Show(d)) == Some(Value(d))
  {
    var s := Show(d);
    var u := ShowUnsigned(d);
    assert s == (if d.units < 0 then "-" else "") + u;
    assert IsDigit(u[0]);
    assert s[0] == '-' || IsDigit(s[0]);
    TrimStartKeeps(s);
    ParseUnsignedShown(d);
    ValueBySign(d);
    if d.units < 0 {
      assert s[1..] == u;
    } else {
      assert s == u;
    }
  }

  // ---------------------------------------------------------------------
  // JavaScript `Number.prototype.toFixed`.

  /** `y` scaled by `10^f` and rounded to the nearest integer, halves up. */
  function RoundHalfUp(y: real, f: nat): (n: nat)
    requires y >= 0.0
    ensures n as real <= y * Pow10(f) as real + 0.5 < n as real + 1.0
  {
    assert y * Pow10(f) as real >= 0.0;
    (y * Pow10(f) as real + 0.5).Floor
  }

  /** `x.toFixed(f)`: a '-' for a negative number, then its magnitude rounded
      to `f` fraction digits. */
  function ToFixed(x: real, f: nat): string
  {
    var n := RoundHalfUp(if x < 0.0 then -x else x, f);
    (if x < 0.0 then "-" else "") + ShowUnsigned(Decimal(n, f))
  }

  /** The text `toFixed` writes reads back within half a unit of its last
      digit of the number it was given. */
  lemma ToFixedClose(x: real, f: nat)
    ensures ParseFloat(ToFixed(x, f)).Some?
    ensures WithinHalfUnit(ParseFloat(ToFixed(x, f)).value, x, f)
  {
    var y := if x < 0.0 then -x else x;
    RoundingBound(x, y, RoundHalfUp(y, f), f);
    ToFixedReads(x, f);
  }

  /** `v` and `x` differ by at most half of `10^-f`. */
  predicate WithinHalfUnit(v: real, x: real, f: nat)
  {
    v * Pow10(f) as real - 0.5 <= x * Pow10(f) as real <= v * Pow10(f) as real + 0.5
  }

  /** What the text of `toFixed` reads back as: the rounded magnitude,
      signed. */
  lemma ToFixedReads(x: real, f: nat)
    ensures ParseFloat(ToFixed(x, f))
         == Some(Signed(x < 0.0, RoundHalfUp(if x < 0.0 then -x else x, f) as real / Pow10(f) as real))
  {
    var d := Decimal(RoundHalfUp(if x < 0.0 then -x else x, f), f);
    assert ToFixed(x, f) == (if x < 0.0 then "-" else "") + ShowUnsigned(d);
    ParseSignedShown(x < 0.0, d);
  }

  /** A sign followed by the unsigned digits of a value reads back as the
      signed magnitude. */
  lemma ParseSignedShown(negative: bool, d: Decimal)
    ensures ParseFloat((if negative then "-" else "") + ShowUnsigned(d))
         == Some(Signed(negative, Abs(d.units) as real / Pow10(d.scale) as real))
  {
    var u := ShowUnsigned(d);
    ParseUnsignedShown(d);
    assert IsDigit(u[0]);
    ParseSigned(negative, u, Abs(d.units) as real / Pow10(d.scale) as real);
  }

  /** An optional minus before an unsigned literal negates what it reads. */
  lemma ParseSigned(negative: bool, u: string, x: real)
    requires |u| > 0 && IsDigit(u[0]) && ParseUnsigned(u) == Some(x)
    ensures ParseFloat((if negative then "-" else "") + u) == Some(Signed(negative, x))
  {
    if negative {
      ParseMinus(u);
    } else {
      assert "" + u == u;
      ParseFloatFromDigit(u);
    }
  }

  /** A minus before a literal is read as a sign. */
  lemma ParseMinus(u: string)
    ensures ParseFloat("-" + u) == match ParseUnsigned(u) case Some(x) => Some(-x) case None => None
  {
    var s := "-" + u;
    TrimStartKeeps(s);
    assert s[1..] == u;
  }

  lemma RoundingBound(x: real, y: real, n: nat, f: nat)
    requires y == if x < 0.0 then -x else x
    requires n as real <= y * Pow10(f) as real + 0.5 < n as real + 1.0
    ensures WithinHalfUnit(Signed(x < 0.0, n as real / Pow10(f) as real), x, f)
  {
    var p := Pow10(f) as real;
    var w := n as real / p;
    assert w * p == n as real;
    if x < 0.0 {
      assert (-x) * p == -(x * p);
      assert (-w) * p == -(n as real);
    }
  }

  /** At a column's own scale, `toFixed` of the value prints the text the
      database returned. */
  lemma ToFixedShown(d: Decimal)
    ensures ToFixed(Value(d), d.scale) == Show(d)
  {
    var k := Abs(d.units);
    var x := Value(d);
    ValueBySign(d);
    RoundHalfUpExact(k, d.scale);
    assert (x < 0.0) == (d.units < 0);
    assert (if x < 0.0 then -x else x) == k as real / Pow10(d.scale) as real;
    assert ShowUnsigned(Decimal(k, d.scale)) == ShowUnsigned(d);
  }

  /** A whole number of units at scale `f` needs no rounding. */
  lemma RoundHalfUpExact(k: nat, f: nat)
    ensures RoundHalfUp(k as real / Pow10(f) as real, f) == k
  {
    var p := Pow10(f) as real;
    assert (k as real / p) * p == k as real;
  }

  /** Text made only of digits and decimal points. */
  predicate DigitsOrPoints(s: string)
  {
    forall i :: 0 <= i < |s| ==> IsDigit(s[i]) || s[i] == '.'
  }

  lemma PointBetweenDigits(a: string, b: string)
    requires AllDigits(a) && AllDigits(b)
    ensures DigitsOrPoints(a + "." + b)
  {
    var s := a + "." + b;
    forall i | 0 <= i < |s| ensures IsDigit(s[i]) || s[i] == '.' {
      if i < |a| {
        assert s[i] == a[i];
      } else if i > |a| {
        assert s[i] == b[i - |a| - 1];
      }
    }
  }

  /** The unsigned text of a decimal has only digits and a point. */
  lemma ShowUnsignedChars(d: Decimal)
    ensures DigitsOrPoints(ShowUnsigned(d))
  {
    var whole := NatToString(WholePart(d));
    if d.scale > 0 {
      PaddedFraction(d);
      var frac := PadLeft(NatToString(FractionPart(d)), d.scale);
      assert ShowUnsigned(d) == whole + "." + frac;
      PointBetweenDigits(whole, frac);
    } else {
      assert ShowUnsigned(d) == whole;
    }
  }

  /** `toFixed` of a non-negative number writes only digits and a point. */
  lemma ToFixedChars(x: real, f: nat)
    requires x >= 0.0
    ensures forall i :: 0 <= i < |ToFixed(x, f)| ==> IsDigit(ToFixed(x, f)[i]) || ToFixed(x, f)[i] == '.'
  {
    var d := Decimal(RoundHalfUp(x, f), f);
    assert ToFixed(x, f) == ShowUnsigned(d);
    ShowUnsignedChars(d);
  }

  /** `s` ends in a point followed by exactly `f` digits. */
  predicate EndsInDecimals(s: string, f: nat)
  {
    |s| > f && s[|s| - f - 1] == '.' && AllDigits(s[|s| - f..])
  }

  /** `toFixed(f)` with `f > 0` always writes exactly `f` fraction digits. */
  lemma ToFixedDecimals(x: real, f: nat)
    requires f > 0
    ensures EndsInDecimals(ToFixed(x, f), f)
  {
    var d := Decimal(RoundHalfUp(if x < 0.0 then -x else x, f), f);
    PaddedFraction(d);
    var frac := PadLeft(NatToString(FractionPart(d)), f);
    var head := (if x < 0.0 then "-" else "") + NatToString(WholePart(d));
    assert ToFixed(x, f) == head + "." + frac;
    PointThenDigits(head, frac);
  }

  lemma PointThenDigits(head: string, frac: string)
    requires AllDigits(frac)
    ensures EndsInDecimals(head + "." + frac, |frac|)
  {
    var s := head + "." + frac;
    assert s[|s| - |frac|..] == frac;
    assert s[|s| - |frac| - 1] == s[|head|];
  }

  // ---------------------------------------------------------------------
  // Column types: NUMERIC(precision, scale) and the integer ranges.

  /** The largest `integer` (int4) value; `serial` counters stop there too. */
  const Int4Max: int := 0x7FFF_FFFF

  predicate IsInt4(n: int)
  {
    -0x8000_0000 <= n <= Int4Max
  }

  /** The largest `bigint` (int8) value, the type of a `LIMIT`. */
  const Int8Max: int := 0x7FFF_FFFF_FFFF_FFFF

  /** `a / p` rounded to the nearest whole number, halves up. */
  function HalfUpQuotient(a: nat, p: nat): (q: nat)
    requires p >= 1
    ensures 2 * q * p <= 2 * a + p < 2 * q * p + 2 * p
  {
    var q := (2 * a + p) / (2 * p);
    assert q * (2 * p) <= 2 * a + p < q * (2 * p) + 2 * p;
    q
  }

  /** A NUMERIC column type: at most `precision` significant digits, of which
      `scale` follow the point. */
  datatype NumericType = NumericType(precision: nat, scale: nat)

  /** `d` is a value the column holds as it is. */
  predicate Fits(d: Decimal, c: NumericType)
  {
    d.scale == c.scale && Abs(d.units) < Pow10(c.precision)
  }

  /** PostgreSQL's rounding of a NUMERIC to `scale` fraction digits. With
      no more digits than that the value is kept exactly; otherwise it is
      the nearest value with that many digits, a tie going away from zero. */
  function RoundToScale(d: Decimal, scale: nat): (r: Decimal)
    ensures r.scale == scale
    ensures d.scale <= scale ==> r.units == d.units * Pow10(scale - d.scale)
    ensures d.scale > scale ==> 2 * Abs(r.units * Pow10(d.scale - scale) - d.units) <= Pow10(d.scale - scale)
    ensures d.scale > scale && 2 * Abs(r.units * Pow10(d.scale - scale) - d.units) == Pow10(d.scale - scale) ==>
              Abs(r.units) * Pow10(d.scale - scale) > Abs(d.units)
    ensures (d.units >= 0 ==> r.units >= 0) && (d.units <= 0 ==> r.units <= 0)
  {
    if d.scale <= scale then
      var m := Pow10(scale - d.scale);
      ScaledSign(d.units, m);
      Decimal(d.units * m, scale)
    else
      var p := Pow10(d.scale - scale);
      var a := Abs(d.units);
      var q := HalfUpQuotient(a, p);
      var w := if d.units < 0 then -(q as int) else q;
      RoundingError(d.units, a, q, p, w);
      assert 2 * Abs(w * p - d.units) <= p;
      Decimal(w, scale)
  }

  /** Scaling by a natural number keeps the sign. */
  lemma ScaledSign(u: int, m: nat)
    ensures (u >= 0 ==> u * m >= 0) && (u <= 0 ==> u * m <= 0)
  {
  }

  /** The error of rounding `u`, of magnitude `a`, to `w`, the signed `q`
      units of `p`: at most half of `p`, and a tie leaves the magnitude
      larger. */
  lemma RoundingError(u: int, a: nat, q: nat, p: nat, w: int)
    requires p >= 1
    requires a == Abs(u) && w == (if u < 0 then -(q as int) else q)
    requires 2 * q * p <= 2 * a + p < 2 * q * p + 2 * p
    ensures 2 * Abs(w * p - u) <= p
    ensures 2 * Abs(w * p - u) == p ==> Abs(w) * p > Abs(u)
    ensures (u >= 0 ==> w >= 0) && (u <= 0 ==> w <= 0)
  {
    var qp := q * p;
    assert 2 * q * p == 2 * qp;
    assert w * p == (if u < 0 then -qp else qp);
    assert Abs(w) * p == qp;
  }

  /** The value a NUMERIC column stores for `d`: rounded to its scale, or
      `None` when the rounded value has more digits than the precision
      allows ("numeric field overflow"). */
  function FitColumn(d: Decimal, c: NumericType): (r: Option<Decimal>)
    ensures r.Some? ==> Fits(r.value, c)
    ensures r.Some? <==> Abs(RoundToScale(d, c.scale).units) < Pow10(c.precision)
    ensures r.Some? ==> r.value == RoundToScale(d, c.scale)
  {
    var rounded := RoundToScale(d, c.scale);
    if Abs(rounded.units) < Pow10(c.precision) then Some(rounded) else None
  }

  /** A value the column already holds is stored unchanged. */
  lemma FitColumnKeeps(d: Decimal, c: NumericType)
    requires Fits(d, c)
    ensures FitColumn(d, c) == Some(d)
  {
    assert Pow10(c.scale - d.scale) == 1;
  }

  /** A NUMERIC(10,2) column rounds a third decimal half away from zero
      and refuses a value of a billion. */
  lemma PriceColumnExamples()
    ensures FitColumn(Decimal(4, 3), NumericType(10, 2)) == Some(Decimal(0, 2))
    ensures FitColumn(Decimal(5, 3), NumericType(10, 2)) == Some(Decimal(1, 2))
    ensures FitColumn(Decimal(-1245, 3), NumericType(10, 2)) == Some(Decimal(-125, 2))
    ensures FitColumn(Decimal(1000000000, 0), NumericType(10, 2)).None?
  {
    assert Pow10(1) == 10 && Pow10(2) == 100 && Pow10(3) == 1000;
    assert Pow10(10) == 10000000000;
  }
}
