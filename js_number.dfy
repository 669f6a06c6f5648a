/**
 * JavaScript `parseInt(s)` without a radix, restricted to decimal numerals:
 * leading whitespace is skipped, one optional sign is read, then the longest
 * run of decimal digits; no digits at all gives NaN, modelled as `None`.
 */
module JsNumber {
  import opened Wrappers
  import JsText

  predicate IsDigit(c: char) { '0' <= c <= '9' }

  function DigitValue(c: char): (v: nat)
    requires IsDigit(c)
    ensures v < 10
  {
    (c as int) - ('0' as int)
  }

  function DigitChar(v: nat): (c: char)
    requires v < 10
    ensures IsDigit(c) && DigitValue(c) == v
  {
    (('0' as int) + v) as char
  }

  predicate AllDigits(d: string) {
    forall i :: 0 <= i < |d| ==> IsDigit(d[i])
  }

  /** The longest prefix of `s` made of decimal digits. */
  function LeadingDigits(s: string): (d: string)
    ensures |d| <= |s| && d == s[..|d|] && AllDigits(d)
    ensures |d| == |s| || !IsDigit(s[|d|])
  {
    if s != [] && IsDigit(s[0]) then [s[0]] + LeadingDigits(s[1..]) else []
  }

  /** The value of a string of decimal digits, most significant first. */
  function Value(d: string): nat
    requires AllDigits(d)
  {
    if d == [] then 0 else Value(d[..|d| - 1]) * 10 + DigitValue(d[|d| - 1])
  }

  /** The shortest decimal numeral of `n`, as `String(n)` writes it. */
  function Decimal(n: nat): (d: string)
    ensures d != [] && AllDigits(d)
  {
    if n < 10 then [DigitChar(n)] else Decimal(n / 10) + [DigitChar(n % 10)]
  }

  /** A signed decimal numeral. */
  function Numeral(n: int): string {
    if n < 0 then "-" + Decimal(-n) else Decimal(n)
  }

  /** `parseInt(s)`: leading whitespace is skipped, then a signed run of digits is read; `None` is NaN. */
  function ParseInt(s: string): Option<int>
    decreases |s|
  {
    if s != [] && JsText.IsWhitespace(s[0]) then ParseInt(s[1..]) else ParseSigned(s)
  }

  /** The rest of `parseInt` once leading whitespace is gone: one optional sign, then digits. */
  function ParseSigned(t: string): Option<int>
  {
    if t != [] && t[0] == '-' then
      match ParseDigits(t[1..])
      case None => None
      case Some(v) => Some(-v)
    else if t != [] && t[0] == '+' then ParseDigits(t[1..])
    else ParseDigits(t)
  }

  /** The value of the leading digits of `u`, or NaN when there are none. */
  function ParseDigits(u: string): Option<int>
  {
    var digits := LeadingDigits(u);
    if digits == [] then None else Some(Value(digits))
  }

  lemma {:induction false} ValueOfDecimal(n: nat)
    ensures Value(Decimal(n)) == n
  {
    if n >= 10 {
      var d := Decimal(n);
      assert d[..|d| - 1] == Decimal(n / 10);
      ValueOfDecimal(n / 10);
    }
  }

  /** A run of digits followed by something that is not a digit is exactly what `LeadingDigits` reads. */
  lemma {:induction false} LeadingDigitsOf(d: string, junk: string)
    requires AllDigits(d)
    requires junk == [] || !IsDigit(junk[0])
    ensures LeadingDigits(d + junk) == d
    decreases |d|
  {
    if d != [] {
      assert (d + junk)[1..] == d[1..] + junk;
      LeadingDigitsOf(d[1..], junk);
      assert [d[0]] + d[1..] == d;
    }
  }

  /** `parseInt` reads what is left once `trim` has removed the leading whitespace. */
  lemma {:induction false} ParseAfterTrim(s: string)
    ensures ParseInt(s) == ParseSigned(JsText.TrimStart(s))
    decreases |s|
  {
    if s != [] && JsText.IsWhitespace(s[0]) {
      ParseAfterTrim(s[1..]);
    }
  }

  /** Leading whitespace does not change what `parseInt` reads. */
  lemma {:induction false} ParsePadded(pad: string, body: string)
    requires forall i :: 0 <= i < |pad| ==> JsText.IsWhitespace(pad[i])
    ensures ParseInt(pad + body) == ParseInt(body)
    decreases |pad|
  {
    if pad != [] {
      assert (pad + body)[1..] == pad[1..] + body;
      ParsePadded(pad[1..], body);
    } else {
      assert pad + body == body;
    }
  }

  lemma ParseDecimal(m: nat, junk: string)
    requires junk == [] || !IsDigit(junk[0])
    ensures ParseDigits(Decimal(m) + junk) == Some(m)
  {
    ValueOfDecimal(m);
    LeadingDigitsOf(Decimal(m), junk);
  }

  /** A minus sign is not whitespace: `parseInt` reads it as the sign. */
  lemma MinusNotSkipped(u: string)
    ensures ParseInt("-" + u) == ParseSigned("-" + u)
  {
    assert ("-" + u)[0] == '-';
  }

  /** A minus sign negates the digits that follow it, and NaN stays NaN. */
  lemma MinusNegates(u: string)
    ensures ParseSigned("-" + u) == match ParseDigits(u) case None => None case Some(v) => Some(-v)
  {
    assert ("-" + u)[1..] == u;
  }

  lemma ParseNegative(m: nat, junk: string)
    requires m > 0
    requires junk == [] || !IsDigit(junk[0])
    ensures ParseInt("-" + Decimal(m) + junk) == Some(-(m as int))
  {
    ParseDecimal(m, junk);
    MinusNotSkipped(Decimal(m) + junk);
    MinusNegates(Decimal(m) + junk);
    assert "-" + Decimal(m) + junk == "-" + (Decimal(m) + junk);
  }

  lemma ParseNonNegative(m: nat, junk: string)
    requires junk == [] || !IsDigit(junk[0])
    ensures ParseInt(Decimal(m) + junk) == Some(m)
  {
    var u := Decimal(m) + junk;
    ParseDecimal(m, junk);
    assert IsDigit(u[0]);
    assert !JsText.IsWhitespace(u[0]);
    assert ParseSigned(u) == ParseDigits(u);
  }

  lemma ParseBareNumeral(n: int, junk: string)
    requires junk == [] || !IsDigit(junk[0])
    ensures ParseInt(Numeral(n) + junk) == Some(n)
  {
    if n < 0 {
      ParseNegative(-n, junk);
    } else {
      ParseNonNegative(n, junk);
    }
  }

  /**
   * `parseInt` reads back any integer written in decimal, whatever whitespace
   * precedes it and whatever non-digit text follows it.
   */
  lemma ParseNumeral(pad: string, n: int, junk: string)
    requires forall i :: 0 <= i < |pad| ==> JsText.IsWhitespace(pad[i])
    requires junk == [] || !IsDigit(junk[0])
    ensures ParseInt(pad + Numeral(n) + junk) == Some(n)
  {
    var body := Numeral(n) + junk;
    assert pad + Numeral(n) + junk == pad + body;
    ParsePadded(pad, body);
    ParseBareNumeral(n, junk);
  }

  /** A text without any decimal digit is NaN to `parseInt`. */
  lemma {:induction false} NoDigitsIsNaN(s: string)
    requires forall i :: 0 <= i < |s| ==> !IsDigit(s[i])
    ensures ParseInt(s) == None
    decreases |s|
  {
    if s != [] && JsText.IsWhitespace(s[0]) {
      assert forall i :: 0 <= i < |s| - 1 ==> s[1..][i] == s[i + 1];
      NoDigitsIsNaN(s[1..]);
    } else if s != [] {
      assert s[1..] == [] || !IsDigit(s[1..][0]);
      assert !IsDigit(s[0]);
    }
  }
}
