/**
 * PHP's view of numeric strings as the ledger uses it: `is_numeric`, the
 * `(int)` cast, `(string)` of a non-negative integer, and loose `==` between
 * two strings (which compares numerically when both are numeric).
 *
 * Numeric strings are modelled as an optional sign, decimal digits and an
 * optional fraction: "12", "-3", "+4", "007", "1.5", "5.", ".5".
 */
module PhpNumeric {
  import opened Wrappers

  predicate IsDigit(c: char) {
    '0' <= c <= '9'
  }

  predicate AllDigits(s: string) {
    forall i :: 0 <= i < |s| ==> IsDigit(s[i])
  }

  function DigitValue(c: char): nat
    requires IsDigit(c)
  {
    c as int - '0' as int
  }

  function DigitChar(d: nat): (c: char)
    requires d < 10
    ensures IsDigit(c) && DigitValue(c) == d
  {
    ('0' as int + d) as char
  }

  /** The value of a string of decimal digits, most significant digit first. */
  function DigitsValue(s: string): nat
    requires AllDigits(s)
  {
    if s == [] then 0 else DigitsValue(s[..|s| - 1]) * 10 + DigitValue(s[|s| - 1])
  }

  /** The value of the digits after a decimal point: always below one. */
  function FractionValue(s: string): (v: real)
    requires AllDigits(s)
    ensures 0.0 <= v < 1.0
  {
    if s == [] then 0.0 else (DigitValue(s[0]) as real + FractionValue(s[1..])) / 10.0
  }

  /** A numeric string taken apart: sign, digits before and after the point. */
  datatype Numeral = Numeral(negative: bool, whole: string, fraction: string)
  {
    ghost predicate Valid() {
      AllDigits(whole) && AllDigits(fraction) && |whole| + |fraction| > 0
    }
  }

  function IndexOf(s: string, c: char): (r: Option<nat>)
    ensures r.Some? ==> r.value < |s| && s[r.value] == c && c !in s[..r.value]
    ensures r.None? ==> c !in s
  {
    if s == [] then None
    else if s[0] == c then Some(0)
    else match IndexOf(s[1..], c)
      case None => None
      case Some(k) => Some(k + 1)
  }

  /** The leading '+' or '-' of `s`, if any. */
  function SignOf(s: string): string {
    if |s| > 0 && (s[0] == '-' || s[0] == '+') then [s[0]] else []
  }

  /** The decimal point, when there is one. */
  function Point(present: bool): string {
    if present then "." else ""
  }

  /**
   * `is_numeric($s)` succeeds exactly when this yields a numeral: an optional
   * '+' or '-', then digits with at most one '.', and at least one digit.
   * The numeral's parts are the pieces of `s` around the sign and the point.
   */
  function ParseNumeral(s: string): (r: Option<Numeral>)
    ensures r.Some? ==> r.value.Valid()
    ensures r.Some? ==> |s| > 0 && (r.value.negative <==> s[0] == '-')
    ensures r.Some? ==> s == SignOf(s) + r.value.whole + Point('.' in s) + r.value.fraction
  {
    var signed := |s| > 0 && (s[0] == '-' || s[0] == '+');
    var body := if signed then s[1..] else s;
    match IndexOf(body, '.')
    case None =>
      if |body| > 0 && AllDigits(body) then
        WithoutPoint(s, body);
        Some(Numeral(signed && s[0] == '-', body, ""))
      else None
    case Some(k) =>
      var whole, fraction := body[..k], body[k + 1..];
      if AllDigits(whole) && AllDigits(fraction) && |whole| + |fraction| > 0 then
        AroundPoint(s, body, k);
        Some(Numeral(signed && s[0] == '-', whole, fraction))
      else None
  }

  /** Without a point there is no fraction: all the digits are the whole part. */
  lemma {:induction false} ParseNumeralWithoutPoint(s: string)
    ensures ParseNumeral(s).Some? && '.' !in s ==> ParseNumeral(s).value.fraction == ""
  {
    var body := if |s| > 0 && (s[0] == '-' || s[0] == '+') then s[1..] else s;
    match IndexOf(body, '.')
    case None =>
    case Some(k) => AroundPoint(s, body, k);
  }

  /** `s` is its sign followed by its unsigned part. */
  lemma SignSplit(s: string, body: string)
    requires body == (if |s| > 0 && (s[0] == '-' || s[0] == '+') then s[1..] else s)
    ensures s == SignOf(s) + body
  {
    if SignOf(s) != [] {
      assert s == [s[0]] + s[1..];
    }
  }

  /** Without a point, `s` is its sign and the digits after it. */
  lemma WithoutPoint(s: string, body: string)
    requires body == (if |s| > 0 && (s[0] == '-' || s[0] == '+') then s[1..] else s)
    requires '.' !in body
    ensures s == SignOf(s) + body + Point('.' in s) + ""
  {
    SignSplit(s, body);
    assert '.' !in SignOf(s);
  }

  /** With a point at `k` of the unsigned part, `s` is its sign, the digits, the point and the fraction. */
  lemma AroundPoint(s: string, body: string, k: nat)
    requires body == (if |s| > 0 && (s[0] == '-' || s[0] == '+') then s[1..] else s)
    requires k < |body| && body[k] == '.'
    ensures '.' in s
    ensures s == SignOf(s) + body[..k] + Point('.' in s) + body[k + 1..]
  {
    SignSplit(s, body);
    Reassemble(SignOf(s), body, k);
  }

  /** Cutting the unsigned part at its point and gluing it back changes nothing. */
  lemma Reassemble(t: string, body: string, k: nat)
    requires k < |body| && body[k] == '.'
    ensures '.' in t + body
    ensures t + body == t + body[..k] + "." + body[k + 1..]
  {
    assert (t + body)[|t| + k] == '.';
    assert body == body[..k] + "." + body[k + 1..];
  }

  /** The first occurrence of `c` is found, wherever it is. */
  lemma IndexOfFirst(s: string, c: char, k: nat)
    requires k < |s| && s[k] == c && c !in s[..k]
    ensures IndexOf(s, c) == Some(k)
  {
    assert s[..k + 1] == s[..k] + [c];
  }

  /**
   * Conversely, every sign, digits and optional point with at least one digit
   * is accepted by `is_numeric`, and parses back into exactly those parts.
   */
  lemma ParseNumeralAccepts(sign: string, whole: string, fraction: string, point: bool)
    requires sign == "" || sign == "+" || sign == "-"
    requires AllDigits(whole) && AllDigits(fraction) && |whole| + |fraction| > 0
    requires point || fraction == ""
    ensures ParseNumeral(sign + whole + Point(point) + fraction) == Some(Numeral(sign == "-", whole, fraction))
  {
    var body := whole + Point(point) + fraction;
    assert sign + whole + Point(point) + fraction == sign + body;
    UnsignedPart(sign, body);
    PointOfBody(whole, fraction, point);
  }

  /** After an explicit sign, or none, the unsigned part is what follows it. */
  lemma UnsignedPart(sign: string, body: string)
    requires sign == "" || sign == "+" || sign == "-"
    requires |body| > 0 && body[0] != '+' && body[0] != '-'
    ensures var s := sign + body;
            && |s| > 0
            && (if s[0] == '-' || s[0] == '+' then s[1..] else s) == body
            && (s[0] == '-' <==> sign == "-")
  {
    if sign != "" {
      assert (sign + body)[1..] == body;
    }
  }

  /** Digits, an optional point and digits: the point, if any, is found right after the digits. */
  lemma PointOfBody(whole: string, fraction: string, point: bool)
    requires AllDigits(whole) && AllDigits(fraction) && |whole| + |fraction| > 0
    requires point || fraction == ""
    ensures var body := whole + Point(point) + fraction;
            && |body| > 0 && body[0] != '+' && body[0] != '-'
            && (point ==> IndexOf(body, '.') == Some(|whole|) && body[..|whole|] == whole && body[|whole| + 1..] == fraction)
            && (!point ==> IndexOf(body, '.') == None && body == whole)
  {
    var body := whole + Point(point) + fraction;
    assert '.' !in whole by {
      forall i | 0 <= i < |whole| ensures whole[i] != '.' {
        assert IsDigit(whole[i]);
      }
    }
    if |whole| > 0 {
      assert body[0] == whole[0] && IsDigit(whole[0]);
    }
    if point {
      assert body[|whole|] == '.' && body[..|whole|] == whole && body[|whole| + 1..] == fraction;
      IndexOfFirst(body, '.', |whole|);
    } else {
      assert body == whole;
    }
  }

  predicate IsNumeric(s: string) {
    ParseNumeral(s).Some?
  }

  /** A non-empty run of digits parses as itself, unsigned and without a fraction. */
  lemma PlainDigits(s: string)
    requires |s| > 0 && AllDigits(s)
    ensures ParseNumeral(s) == Some(Numeral(false, s, ""))
  {
    assert "" + s + Point(false) + "" == s;
    ParseNumeralAccepts("", s, "", false);
  }

  /** The exact value of a numeric string. */
  function NumericValue(s: string): real
    requires IsNumeric(s)
  {
    var n := ParseNumeral(s).value;
    var magnitude := DigitsValue(n.whole) as real + FractionValue(n.fraction);
    if n.negative then -magnitude else magnitude
  }

  /** `(int)$s` of a numeric string: the sign and the digits before the point. */
  function IntCast(s: string): int
    requires IsNumeric(s)
  {
    var n := ParseNumeral(s).value;
    var magnitude: int := DigitsValue(n.whole);
    if n.negative then -magnitude else magnitude
  }

  /**
   * A plain run of digits is numeric, `(int)` reads it as its decimal value,
   * and only a leading '-' makes `(int)` negative.
   */
  lemma IntCastOfDigits(s: string)
    ensures |s| > 0 && AllDigits(s) ==> IsNumeric(s) && IntCast(s) == DigitsValue(s)
    ensures IsNumeric(s) && s[0] != '-' ==> IntCast(s) >= 0
  {
    if |s| > 0 && AllDigits(s) {
      PlainDigits(s);
    }
  }

  /** `(int)` truncates the exact value toward zero. */
  lemma IntCastTruncates(s: string)
    requires IsNumeric(s)
    ensures NumericValue(s) >= 0.0 ==> IntCast(s) as real <= NumericValue(s) < IntCast(s) as real + 1.0
    ensures NumericValue(s) < 0.0 ==> IntCast(s) as real - 1.0 < NumericValue(s) <= IntCast(s) as real
  {
    var n := ParseNumeral(s).value;
    var f := FractionValue(n.fraction);
    assert 0.0 <= f < 1.0;
  }

  /**
   * Loose `$a == $b` between two strings: numeric comparison when both are
   * numeric strings, byte-wise equality otherwise.
   */
  predicate LooseEquals(a: string, b: string) {
    if IsNumeric(a) && IsNumeric(b) then NumericValue(a) == NumericValue(b) else a == b
  }

  /**
   * On strings, loose equality is an equivalence that never equates a numeric
   * string with a non-numeric one.
   */
  lemma LooseEqualsEquivalence(a: string, b: string, c: string)
    ensures LooseEquals(a, a)
    ensures LooseEquals(a, b) ==> LooseEquals(b, a)
    ensures LooseEquals(a, b) && LooseEquals(b, c) ==> LooseEquals(a, c)
    ensures LooseEquals(a, b) ==> (IsNumeric(a) <==> IsNumeric(b))
  {
  }

  /** `(string)$n` for a non-negative integer: its decimal digits, no leading zero. */
  function DecimalString(n: nat): (s: string)
    ensures |s| > 0 && AllDigits(s) && DigitsValue(s) == n
    ensures |s| > 1 ==> s[0] != '0'
  {
    if n < 10 then [DigitChar(n)]
    else
      var s := DecimalString(n / 10) + [DigitChar(n % 10)];
      assert s[..|s| - 1] == DecimalString(n / 10);
      s
  }

  /** Reading back `(string)$n` with `is_numeric` and `(int)` gives `n` again. */
  lemma DecimalStringRoundTrip(n: nat)
    ensures IsNumeric(DecimalString(n))
    ensures ParseNumeral(DecimalString(n)) == Some(Numeral(false, DecimalString(n), ""))
    ensures IntCast(DecimalString(n)) == n
    ensures NumericValue(DecimalString(n)) == n as real
  {
    var s := DecimalString(n);
    assert IndexOf(s, '.') == None by {
      assert '.' !in s;
    }
  }

  /** Equal strings are loosely equal; the converse fails for numeric strings. */
  lemma StrictImpliesLoose(a: string, b: string)
    requires a == b
    ensures LooseEquals(a, b)
  {
  }

  /** "01" and "1" are different strings that loose `==` treats as equal. */
  lemma LeadingZeroIsLooselyEqual()
    ensures "01" != "1" && LooseEquals("01", "1")
  {
    assert IndexOf("01", '.') == None by { assert '.' !in "01"; }
    assert IndexOf("1", '.') == None by { assert '.' !in "1"; }
    assert ParseNumeral("01") == Some(Numeral(false, "01", ""));
    assert ParseNumeral("1") == Some(Numeral(false, "1", ""));
    assert "01"[..1] == "0";
    assert DigitsValue("01") == 1;
  }
}
