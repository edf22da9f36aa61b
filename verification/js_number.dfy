/** JavaScript's `Number.parseInt(s, 10)` over unbounded integers, with `NaN` as `None`,
    and the plain decimal spelling of integers, which it inverts. */
module JsNumber {
  import opened Wrappers

  /** The code points parseInt skips before the number: tab, line feed, vertical tab,
      form feed, carriage return, the Unicode space separators (Zs), the byte order
      mark U+FEFF and the line and paragraph separators. */
  predicate IsWhitespace(c: char) {
    var n := c as int;
    || n == 0x09 || n == 0x0A || n == 0x0B || n == 0x0C || n == 0x0D || n == 0x20
    || n == 0xA0 || n == 0x1680 || (0x2000 <= n <= 0x200A) || n == 0x2028 || n == 0x2029
    || n == 0x202F || n == 0x205F || n == 0x3000 || n == 0xFEFF
  }

  /** Radix 10 accepts only the ASCII digits. */
  predicate IsDigit(c: char) {
    '0' <= c <= '9'
  }

  predicate AllWhitespace(w: string) {
    forall i :: 0 <= i < |w| ==> IsWhitespace(w[i])
  }

  predicate AllDigits(d: string) {
    forall i :: 0 <= i < |d| ==> IsDigit(d[i])
  }

  function DigitValue(c: char): (v: nat)
    requires IsDigit(c)
    ensures v < 10
  {
    (c as int) - ('0' as int)
  }

  function DigitChar(v: nat): (c: char)
    requires v < 10
    ensures IsDigit(c) && DigitValue(c) == v
  {
    (('0' as int) + v) as char
  }

  /** Length of the longest prefix of `s` whose characters all satisfy `p`. */
  function PrefixRun(s: string, p: char -> bool): (n: nat)
    ensures n <= |s|
    ensures forall i :: 0 <= i < n ==> p(s[i])
    ensures n < |s| ==> !p(s[n])
  {
    if |s| > 0 && p(s[0]) then 1 + PrefixRun(s[1..], p) else 0
  }

  /** Number of whitespace code points before the number. */
  function WhitespaceRun(s: string): nat {
    PrefixRun(s, IsWhitespace)
  }

  /** Number of digits in the longest digit run at the start. */
  function DigitRun(s: string): (n: nat)
    ensures n <= |s|
    ensures forall i :: 0 <= i < n ==> IsDigit(s[i])
    ensures n < |s| ==> !IsDigit(s[n])
  {
    PrefixRun(s, IsDigit)
  }

  /** The value of a run of decimal digits, most significant first. */
  function DigitsValue(d: string): nat
    requires AllDigits(d)
  {
    if |d| == 0 then 0 else 10 * DigitsValue(d[..|d| - 1]) + DigitValue(d[|d| - 1])
  }

  /** `Number.parseInt(s, 10)`: skip leading whitespace, take an optional sign, then
      the longest run of digits; no digits gives NaN. A leading "0x" is not special
      in radix 10, and an exponent or fraction simply ends the digit run. */
  function ParseInt(s: string): (r: Option<int>)
    ensures var t := s[WhitespaceRun(s)..];
            r.Some? <==> |AfterSign(t)| > 0 && IsDigit(AfterSign(t)[0])
    ensures r.Some? && r.value < 0 ==> WhitespaceRun(s) < |s| && s[WhitespaceRun(s)] == '-'
  {
    ParseSigned(s[WhitespaceRun(s)..])
  }

  /** The text after one optional leading sign. */
  function AfterSign(t: string): string {
    if |t| > 0 && (t[0] == '-' || t[0] == '+') then t[1..] else t
  }

  /** parseInt after the whitespace: an optional sign, then the digit run. */
  function ParseSigned(t: string): (r: Option<int>)
    ensures r.Some? <==> |AfterSign(t)| > 0 && IsDigit(AfterSign(t)[0])
    ensures r.Some? && |t| > 0 && t[0] == '-' ==> r.value <= 0
    ensures r.Some? && !(|t| > 0 && t[0] == '-') ==> r.value >= 0
  {
    var negative := |t| > 0 && t[0] == '-';
    var u := AfterSign(t);
    var n := DigitRun(u);
    if n == 0 then
      None
    else
      assert AllDigits(u[..n]);
      var magnitude: int := DigitsValue(u[..n]);
      Some(if negative then -magnitude else magnitude)
  }

  /** The plain decimal spelling of a natural number, without exponent or leading zeros.
      JavaScript's `String(n)` writes the same below 10^21 and switches to an exponent
      form from there on. */
  function Decimal(n: nat): (d: string)
    ensures |d| > 0 && AllDigits(d)
  {
    if n < 10 then [DigitChar(n)] else Decimal(n / 10) + [DigitChar(n % 10)]
  }

  /** The decimal spelling of an integer, with a leading minus sign when negative. */
  function IntToString(n: int): string {
    if n < 0 then "-" + Decimal(-n) else Decimal(n)
  }

  lemma {:induction false} DecimalValue(n: nat)
    ensures DigitsValue(Decimal(n)) == n
  {
    if n >= 10 {
      var d := Decimal(n);
      assert d[..|d| - 1] == Decimal(n / 10);
      DecimalValue(n / 10);
    }
  }

  /** A prefix run stops exactly at the end of a block of matching characters that is
      followed by a non-matching one. */
  lemma {:induction false} PrefixRunStops(d: string, tail: string, p: char -> bool)
    requires forall i :: 0 <= i < |d| ==> p(d[i])
    requires |tail| == 0 || !p(tail[0])
    ensures PrefixRun(d + tail, p) == |d|
  {
    if |d| > 0 {
      assert (d + tail)[1..] == d[1..] + tail;
      PrefixRunStops(d[1..], tail, p);
    }
  }

  lemma DigitRunStops(d: string, tail: string)
    requires AllDigits(d)
    requires |tail| == 0 || !IsDigit(tail[0])
    ensures DigitRun(d + tail) == |d|
  {
    PrefixRunStops(d, tail, IsDigit);
  }

  /** parseInt reads back the plain decimal spelling of any integer, whatever whitespace
      precedes it and whatever non-digit text follows it. */
  lemma ParseIntOfDecimal(w: string, n: int, tail: string)
    requires AllWhitespace(w)
    requires |tail| == 0 || !IsDigit(tail[0])
    ensures ParseInt(w + IntToString(n) + tail) == Some(n)
  {
    var t := IntToString(n) + tail;
    var s := w + IntToString(n) + tail;
    assert s == w + t;
    assert |t| > 0 && !IsWhitespace(t[0]);
    PrefixRunStops(w, t, IsWhitespace);
    assert s[|w|..] == t;
    assert ParseInt(s) == ParseSigned(t);
    ParseSignedOfDecimal(n, tail);
  }

  lemma ParseSignedOfDecimal(n: int, tail: string)
    requires |tail| == 0 || !IsDigit(tail[0])
    ensures ParseSigned(IntToString(n) + tail) == Some(n)
  {
    if n < 0 {
      ParseSignedOfNegative(-n, tail);
    } else {
      ParseSignedOfNatural(n, tail);
    }
  }

  lemma ParseSignedOfNatural(m: nat, tail: string)
    requires |tail| == 0 || !IsDigit(tail[0])
    ensures ParseSigned(Decimal(m) + tail) == Some(m)
  {
    var d := Decimal(m);
    var u := d + tail;
    assert u[0] == d[0] && IsDigit(d[0]);
    DigitRunStops(d, tail);
    assert u[..|d|] == d;
    DecimalValue(m);
  }

  lemma ParseSignedOfNegative(m: int, tail: string)
    requires m > 0
    requires |tail| == 0 || !IsDigit(tail[0])
    ensures ParseSigned("-" + Decimal(m) + tail) == Some(-m)
  {
    var d := Decimal(m);
    var u := d + tail;
    var t := "-" + d + tail;
    assert t[0] == '-' && t[1..] == u;
    DigitRunStops(d, tail);
    assert u[..|d|] == d;
    DecimalValue(m);
  }

  /** Whatever whitespace and sign come first, parseInt gives a number exactly when the
      next character is a digit: "abc1", "-x5" and "+" are NaN. Without a sign, the rest
      must not start with more whitespace or a sign, which would still be skipped. */
  lemma ParseIntLeadingDigit(w: string, sign: string, tail: string)
    requires AllWhitespace(w)
    requires sign == "" || sign == "+" || sign == "-"
    requires |tail| == 0 || sign != "" || (!IsWhitespace(tail[0]) && tail[0] != '+' && tail[0] != '-')
    ensures ParseInt(w + sign + tail).Some? <==> |tail| > 0 && IsDigit(tail[0])
  {
    var t := sign + tail;
    assert w + sign + tail == w + t;
    PrefixRunStops(w, t, IsWhitespace);
    assert (w + t)[|w|..] == t;
    assert AfterSign(t) == tail;
  }

  /** A leading zero does not change the value of a digit run. */
  lemma {:induction false} LeadingZero(d: string)
    requires AllDigits(d)
    ensures AllDigits("0" + d) && DigitsValue("0" + d) == DigitsValue(d)
  {
    var z := "0" + d;
    assert AllDigits(z) by {
      forall i | 0 <= i < |z|
        ensures IsDigit(z[i])
      {
        if i > 0 { assert z[i] == d[i - 1]; }
      }
    }
    if |d| > 0 {
      var p := d[..|d| - 1];
      assert z[..|z| - 1] == "0" + p;
      LeadingZero(p);
    }
  }

  /** Whitespace before text that does not start with whitespace is skipped exactly. */
  lemma ParseIntAfterWhitespace(w: string, t: string)
    requires AllWhitespace(w)
    requires |t| > 0 && !IsWhitespace(t[0])
    ensures ParseInt(w + t) == ParseSigned(t)
  {
    PrefixRunStops(w, t, IsWhitespace);
    assert (w + t)[|w|..] == t;
  }

  /** The sign and digit run at the start of `t` give the value of the digits, negated
      after a minus sign; a plus sign and leading zeros change nothing. */
  lemma ParseSignedOfDigits(t: string, d: string, tail: string)
    requires |d| > 0 && AllDigits(d)
    requires |tail| == 0 || !IsDigit(tail[0])
    requires t == d + tail || (|t| > 0 && (t[0] == '+' || t[0] == '-') && t[1..] == d + tail)
    ensures var v: int := DigitsValue(d);
            ParseSigned(t) == Some(if t[0] == '-' then -v else v)
  {
    var u := d + tail;
    if t == u {
      assert IsDigit(t[0]);
    }
    assert AfterSign(t) == u;
    DigitRunStops(d, tail);
    assert u[..|d|] == d;
  }

  lemma Regroup(w: string, sign: string, d: string, tail: string)
    requires |sign| <= 1 && |d| > 0
    ensures w + sign + d + tail == w + (sign + (d + tail))
    ensures sign == "" ==> sign + (d + tail) == d + tail
    ensures sign != "" ==> (sign + (d + tail))[0] == sign[0] && (sign + (d + tail))[1..] == d + tail
  {
  }

  /** parseInt of any digit run, after whitespace and an optional sign and before a
      non-digit tail, is the value of those digits, negated after a minus sign:
      "+42" and " 0042x" are 42, "007" is 7. */
  lemma ParseIntOfDigits(w: string, sign: string, d: string, tail: string)
    requires AllWhitespace(w)
    requires sign == "" || sign == "+" || sign == "-"
    requires |d| > 0 && AllDigits(d)
    requires |tail| == 0 || !IsDigit(tail[0])
    ensures var v: int := DigitsValue(d);
            ParseInt(w + sign + d + tail) == Some(if sign == "-" then -v else v)
  {
    var t := sign + (d + tail);
    Regroup(w, sign, d, tail);
    ParseIntAfterWhitespace(w, t);
    ParseSignedOfDigits(t, d, tail);
  }

  /** Text without a single digit parses to NaN. */
  lemma ParseIntNoDigits(s: string)
    requires forall i :: 0 <= i < |s| ==> !IsDigit(s[i])
    ensures ParseInt(s) == None
  {
    var t := s[WhitespaceRun(s)..];
    var u := if |t| > 0 && (t[0] == '-' || t[0] == '+') then t[1..] else t;
    if |u| > 0 {
      assert u[0] in s;
    }
  }
}
