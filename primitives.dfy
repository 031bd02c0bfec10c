/**
 * Stand-ins for the two library parsers a meter volume record calls:
 * LocalDate.parse with the pattern "yyyyMMdd", and the BigDecimal string
 * constructor. Each comes with the formatter that writes its value back, and
 * with the round trip between the two.
 */
module Primitives {
  import opened Wrappers

  predicate IsDigit(ch: char) {
    '0' <= ch <= '9'
  }

  predicate AllDigits(s: string) {
    forall k :: 0 <= k < |s| ==> IsDigit(s[k])
  }

  function DigitValue(ch: char): (d: nat)
    requires IsDigit(ch)
    ensures d < 10
  {
    ch as int - '0' as int
  }

  function DigitChar(d: nat): (ch: char)
    requires d < 10
    ensures IsDigit(ch) && DigitValue(ch) == d
  {
    ('0' as int + d) as char
  }

  function Pow10(k: nat): (p: nat)
    ensures p >= 1
  {
    if k == 0 then 1 else 10 * Pow10(k - 1)
  }

  lemma {:induction false} Pow10Monotone(a: nat, b: nat)
    requires a <= b
    ensures Pow10(a) <= Pow10(b)
    decreases b
  {
    if a < b {
      Pow10Monotone(a, b - 1);
    }
  }

  /** The number a string of decimal digits spells, most significant first. */
  function DigitsValue(s: string): (n: nat)
    requires AllDigits(s)
    ensures n < Pow10(|s|)
  {
    if s == [] then 0
    else
      var high := DigitsValue(s[..|s| - 1]);
      assert high * 10 <= (Pow10(|s| - 1) - 1) * 10;
      high * 10 + DigitValue(s[|s| - 1])
  }

  /** The last `width` decimal digits of n, padded with leading zeros. */
  function FixedDigits(n: nat, width: nat): (s: string)
    ensures |s| == width && AllDigits(s)
  {
    if width == 0 then "" else FixedDigits(n / 10, width - 1) + [DigitChar(n % 10)]
  }

  /** Writing n in `width` digits and reading it back gives n, when it fits. */
  lemma {:induction false} DigitsValueOfFixed(n: nat, width: nat)
    requires n < Pow10(width)
    ensures DigitsValue(FixedDigits(n, width)) == n
    decreases width
  {
    if width > 0 {
      var s := FixedDigits(n, width);
      assert s[..|s| - 1] == FixedDigits(n / 10, width - 1);
      DigitsValueOfFixed(n / 10, width - 1);
    }
  }

  /** Reading a digit string and writing it back in as many digits gives it back. */
  lemma {:induction false} FixedOfDigitsValue(s: string)
    requires AllDigits(s)
    ensures FixedDigits(DigitsValue(s), |s|) == s
    decreases |s|
  {
    if s != [] {
      var high := s[..|s| - 1];
      FixedOfDigitsValue(high);
      var n := DigitsValue(s);
      assert n / 10 == DigitsValue(high) && n % 10 == DigitValue(s[|s| - 1]);
      assert s == high + [s[|s| - 1]];
    }
  }

  /** Slices of a digit string are digit strings. */
  lemma AllDigitsSlice(s: string, i: nat, j: nat)
    requires AllDigits(s) && i <= j <= |s|
    ensures AllDigits(s[i..j])
  {
    forall k | 0 <= k < j - i ensures IsDigit(s[i..j][k]) {
      assert s[i..j][k] == s[i + k];
    }
  }

  // ---------------------------------------------------------------------------
  // Calendar dates, "yyyyMMdd"

  datatype Date = Date(year: nat, month: nat, day: nat)

  /** Leap years of the proleptic Gregorian calendar (the ISO chronology). */
  predicate IsLeapYear(year: nat) {
    (year % 4 == 0 && year % 100 != 0) || year % 400 == 0
  }

  function DaysInMonth(year: nat, month: nat): (n: nat)
    requires 1 <= month <= 12
    ensures 28 <= n <= 31
  {
    if month == 2 then (if IsLeapYear(year) then 29 else 28)
    else if month == 4 || month == 6 || month == 9 || month == 11 then 30
    else 31
  }

  /** A date that exists and that a four-digit year-of-era can name. */
  predicate ValidDate(d: Date) {
    && 1 <= d.year <= 9999
    && 1 <= d.month <= 12
    && 1 <= d.day <= DaysInMonth(d.year, d.month)
  }

  /**
   * LocalDate.parse(s, DateTimeFormatter.ofPattern("yyyyMMdd")) on eight
   * ASCII digits. The year of era must be at least 1, the month 1 to 12 and
   * the day 1 to 31; as the formatter's default SMART resolver does, a day
   * past the end of its month is moved back to the month's last day.
   */
  function ParseDate(s: string): (r: Option<Date>)
    ensures r.Some? ==> ValidDate(r.value)
    ensures r.Some? ==> |s| == 8 && AllDigits(s)
  {
    if |s| != 8 || !AllDigits(s) then None
    else
      AllDigitsSlice(s, 0, 4);
      AllDigitsSlice(s, 4, 6);
      AllDigitsSlice(s, 6, 8);
      var year, month, day := DigitsValue(s[..4]), DigitsValue(s[4..6]), DigitsValue(s[6..]);
      if year < 1 || month < 1 || 12 < month || day < 1 || 31 < day then None
      else
        var last := DaysInMonth(year, month);
        Some(Date(year, month, if day <= last then day else last))
  }

  /** The "yyyyMMdd" text of a date. */
  function FormatDate(d: Date): (s: string)
    ensures |s| == 8 && AllDigits(s)
  {
    FixedDigits(d.year, 4) + FixedDigits(d.month, 2) + FixedDigits(d.day, 2)
  }

  /** Every valid date survives formatting and parsing unchanged. */
  lemma DateRoundTrip(d: Date)
    requires ValidDate(d)
    ensures ParseDate(FormatDate(d)) == Some(d)
  {
    var s := FormatDate(d);
    assert s[..4] == FixedDigits(d.year, 4);
    assert s[4..6] == FixedDigits(d.month, 2);
    assert s[6..] == FixedDigits(d.day, 2);
    assert Pow10(2) == 100 && Pow10(4) == 10000;
    DigitsValueOfFixed(d.year, 4);
    DigitsValueOfFixed(d.month, 2);
    DigitsValueOfFixed(d.day, 2);
  }

  /** The year and month of a parsed date are its first four and next two digits read as numbers. */
  lemma ParsedFields(s: string)
    requires ParseDate(s).Some?
    ensures |s| == 8 && AllDigits(s[..4]) && AllDigits(s[4..6]) && AllDigits(s[6..])
    ensures ParseDate(s).value.year == DigitsValue(s[..4]) && ParseDate(s).value.month == DigitsValue(s[4..6])
  {
    AllDigitsSlice(s, 0, 4);
    AllDigitsSlice(s, 4, 6);
    AllDigitsSlice(s, 6, 8);
  }

  /**
   * A parsed date formats back to the text it came from, unless the resolver
   * had to move a day past the end of its month.
   */
  lemma DateCanonical(s: string)
    requires ParseDate(s).Some?
    ensures AllDigits(s[6..])
    ensures FormatDate(ParseDate(s).value) == s <==> ParseDate(s).value.day == DigitsValue(s[6..])
  {
    var d := ParseDate(s).value;
    ParsedFields(s);
    var year, month, day := s[..4], s[4..6], s[6..];
    assert s == year + month + day;
    FixedOfDigitsValue(year);
    FixedOfDigitsValue(month);
    var text := FormatDate(d);
    assert text == year + month + FixedDigits(d.day, 2);
    if d.day == DigitsValue(day) {
      FixedOfDigitsValue(day);
    }
    if text == s {
      assert text[6..] == FixedDigits(d.day, 2);
      assert Pow10(2) == 100;
      DigitsValueOfFixed(d.day, 2);
    }
  }

  // ---------------------------------------------------------------------------
  // Exact decimals

  /**
   * An exact decimal as BigDecimal holds it: the value unscaled / 10^scale,
   * where the scale counts the digits written after the point (so 9.0 and 9
   * are different values, as BigDecimal.equals has them).
   */
  datatype Decimal = Decimal(unscaled: int, scale: nat)

  /** Position of the first ch in s, or |s| when there is none. */
  function IndexOf(s: string, ch: char): (i: nat)
    ensures i <= |s|
    ensures i < |s| ==> s[i] == ch
    ensures ch !in s[..i]
  {
    if s == [] then 0
    else if s[0] == ch then 0
    else
      var i := 1 + IndexOf(s[1..], ch);
      assert s[..i] == [s[0]] + s[1..][..i - 1];
      i
  }

  /** IndexOf finds the first occurrence. */
  lemma {:induction false} IndexOfFirst(s: string, ch: char, j: nat)
    requires j <= |s| && (j < |s| ==> s[j] == ch) && ch !in s[..j]
    ensures IndexOf(s, ch) == j
    decreases |s|
  {
    if s != [] && j > 0 {
      assert s[0] in s[..j];
      assert s[1..][..j - 1] == s[1..j];
      assert forall c :: c in s[1..j] ==> c in s[..j];
      IndexOfFirst(s[1..], ch, j - 1);
    }
  }

  /** Digits with at most one decimal point among them, and at least one digit. */
  predicate UnsignedLiteral(s: string) {
    && (forall k :: 0 <= k < |s| ==> IsDigit(s[k]) || s[k] == '.')
    && (forall j, k :: 0 <= j < k < |s| && s[j] == '.' ==> s[k] != '.')
    && exists k :: 0 <= k < |s| && IsDigit(s[k])
  }

  /** A text is an unsigned literal exactly when both sides of its first point are digits, not both empty. */
  lemma LiteralParts(s: string, point: nat)
    requires point == IndexOf(s, '.')
    ensures var fraction := if point < |s| then s[point + 1..] else "";
      UnsignedLiteral(s) <==> AllDigits(s[..point]) && AllDigits(fraction) && 0 < point + |fraction|
  {
    var whole := s[..point];
    var fraction := if point < |s| then s[point + 1..] else "";
    assert forall k :: 0 <= k < point ==> s[k] == whole[k] && s[k] != '.';
    assert forall k :: point < k < |s| ==> s[k] == fraction[k - point - 1];
    if UnsignedLiteral(s) {
      var k :| 0 <= k < |s| && IsDigit(s[k]);
      assert k != point;
      assert forall i :: 0 <= i < |fraction| ==> fraction[i] == s[point + 1 + i];
    }
    if AllDigits(whole) && AllDigits(fraction) && 0 < point + |fraction| {
      if point > 0 {
        assert IsDigit(s[0]);
      } else {
        assert IsDigit(s[point + 1]);
      }
    }
  }

  /** BigDecimal's reading of an unsigned plain literal: the digits as one number, scaled by those after the point. */
  function ParseUnsignedDecimal(s: string): (r: Option<Decimal>)
    ensures r.Some? ==> r.value.unscaled >= 0 && r.value.scale < |s|
  {
    var point := IndexOf(s, '.');
    var whole := s[..point];
    var fraction := if point < |s| then s[point + 1..] else "";
    if AllDigits(whole) && AllDigits(fraction) && 0 < |whole| + |fraction| then
      Some(Decimal(DigitsValue(whole + fraction), |fraction|))
    else None
  }

  /**
   * new BigDecimal(s) on a plain decimal literal: an optional sign, then
   * digits with at most one decimal point. Exponents are not modelled.
   */
  function ParseDecimal(s: string): (r: Option<Decimal>)
    ensures r.Some? ==> 0 < |s| && r.value.scale < |s|
    ensures r.Some? && r.value.unscaled < 0 ==> s[0] == '-'
  {
    if 0 < |s| && (s[0] == '-' || s[0] == '+') then
      match ParseUnsignedDecimal(s[1..])
      case None => None
      case Some(d) => Some(if s[0] == '-' then Decimal(-d.unscaled, d.scale) else d)
    else ParseUnsignedDecimal(s)
  }

  /** The texts read as unsigned decimals are exactly the unsigned literals. */
  lemma UnsignedDecimalAccepts(s: string)
    ensures ParseUnsignedDecimal(s).Some? <==> UnsignedLiteral(s)
  {
    LiteralParts(s, IndexOf(s, '.'));
  }

  /** The texts read as decimals are exactly the unsigned literals, with or without a sign in front. */
  lemma DecimalAccepts(s: string)
    ensures ParseDecimal(s).Some? <==>
      UnsignedLiteral(s) || (0 < |s| && (s[0] == '-' || s[0] == '+') && UnsignedLiteral(s[1..]))
  {
    UnsignedDecimalAccepts(s);
    if 0 < |s| {
      UnsignedDecimalAccepts(s[1..]);
    }
  }

  /** The fewest digits that write n. */
  function MinWidth(n: nat): (w: nat)
    ensures 1 <= w && n < Pow10(w)
  {
    if n < 10 then 1 else 1 + MinWidth(n / 10)
  }

  /**
   * The unsigned part of BigDecimal.toPlainString: the digits of the
   * magnitude with `scale` of them after the point, and at least one digit
   * before it.
   */
  function PlainDigits(magnitude: nat, scale: nat): (s: string)
    ensures 0 < |s| && IsDigit(s[0])
  {
    var width := if MinWidth(magnitude) <= scale then scale + 1 else MinWidth(magnitude);
    var digits := FixedDigits(magnitude, width);
    if scale == 0 then digits
    else digits[..width - scale] + "." + digits[width - scale..]
  }

  /** BigDecimal.toPlainString: PlainDigits behind a minus sign for negative values. */
  function FormatDecimal(x: Decimal): string {
    if x.unscaled < 0 then "-" + PlainDigits(-x.unscaled, x.scale)
    else PlainDigits(x.unscaled, x.scale)
  }

  /** A digit-only whole part and a digit-only fraction read back as written. */
  lemma {:induction false} ParseUnsignedOfParts(whole: string, fraction: string)
    requires AllDigits(whole) && AllDigits(fraction) && 0 < |whole|
    ensures AllDigits(whole + fraction)
    ensures ParseUnsignedDecimal(whole) == Some(Decimal(DigitsValue(whole), 0))
    ensures ParseUnsignedDecimal(whole + "." + fraction)
         == Some(Decimal(DigitsValue(whole + fraction), |fraction|))
  {
    assert whole[..|whole|] == whole && whole + "" == whole;
    IndexOfFirst(whole, '.', |whole|);
    var s := whole + "." + fraction;
    assert s[..|whole|] == whole && s[|whole|] == '.';
    IndexOfFirst(s, '.', |whole|);
    assert s[|whole| + 1..] == fraction;
  }

  /** PlainDigits is a digit string, split by a point when the scale is positive. */
  lemma PlainDigitsParts(magnitude: nat, scale: nat) returns (whole: string, fraction: string)
    ensures AllDigits(whole) && AllDigits(fraction) && 0 < |whole| && |fraction| == scale
    ensures AllDigits(whole + fraction) && DigitsValue(whole + fraction) == magnitude
    ensures scale == 0 ==> PlainDigits(magnitude, scale) == whole
    ensures scale > 0 ==> PlainDigits(magnitude, scale) == whole + "." + fraction
  {
    var width := if MinWidth(magnitude) <= scale then scale + 1 else MinWidth(magnitude);
    Pow10Monotone(MinWidth(magnitude), width);
    var digits := FixedDigits(magnitude, width);
    DigitsValueOfFixed(magnitude, width);
    whole, fraction := digits[..width - scale], digits[width - scale..];
    AllDigitsSlice(digits, 0, width - scale);
    AllDigitsSlice(digits, width - scale, width);
    assert whole + fraction == digits;
  }

  /** The digits BigDecimal.toPlainString writes for a magnitude and scale read back as that decimal. */
  lemma PlainDigitsRoundTrip(magnitude: nat, scale: nat)
    ensures ParseUnsignedDecimal(PlainDigits(magnitude, scale)) == Some(Decimal(magnitude, scale))
  {
    var whole, fraction := PlainDigitsParts(magnitude, scale);
    ParseUnsignedOfParts(whole, fraction);
    if scale == 0 {
      assert fraction == "";
      assert whole + fraction == whole;
    }
  }

  /** A text starting with a digit is read unsigned, and behind a minus sign negated. */
  lemma ParseDecimalOfSigned(body: string)
    requires 0 < |body| && IsDigit(body[0])
    ensures ParseDecimal(body) == ParseUnsignedDecimal(body)
    ensures ParseDecimal("-" + body) == match ParseUnsignedDecimal(body)
      case None => None
      case Some(d) => Some(Decimal(-d.unscaled, d.scale))
  {
    var signed := "-" + body;
    assert body[0] != '-' && body[0] != '+';
    assert signed[0] == '-' && signed[1..] == body;
  }

  /** Every decimal survives formatting and parsing unchanged, scale included. */
  lemma DecimalRoundTrip(x: Decimal)
    ensures ParseDecimal(FormatDecimal(x)) == Some(x)
  {
    var magnitude := if x.unscaled < 0 then -x.unscaled else x.unscaled;
    PlainDigitsRoundTrip(magnitude, x.scale);
    ParseDecimalOfSigned(PlainDigits(magnitude, x.scale));
  }
}
