/** Decimal text and integers: Python's `str(n)` and `int(text)`. */
module Numerals {
  import opened Wrappers
  import Text

  predicate IsDigit(c: char) {
    '0' <= c <= '9'
  }

  predicate AllDigits(s: string) {
    forall i :: 0 <= i < |s| ==> IsDigit(s[i])
  }

  function DigitChar(d: nat): (c: char)
    requires d < 10
    ensures IsDigit(c)
  {
    ('0' as int + d) as char
  }

  function DigitValue(c: char): (d: nat)
    requires IsDigit(c)
    ensures d < 10 && DigitChar(d) == c
  {
    c as int - '0' as int
  }

  /** The value of a string of ASCII digits, most significant first. */
  function DigitsValue(s: string): nat
    requires AllDigits(s)
  {
    if s == [] then 0 else DigitsValue(s[..|s| - 1]) * 10 + DigitValue(s[|s| - 1])
  }

  /** `str(n)` for a non-negative `n`: no sign, no leading zero. */
  function NatToString(n: nat): (s: string)
    ensures |s| >= 1 && AllDigits(s)
    ensures |s| > 1 ==> s[0] != '0'
  {
    if n < 10 then [DigitChar(n)] else NatToString(n / 10) + [DigitChar(n % 10)]
  }

  /** `str(i)`: a minus sign in front of the magnitude when `i < 0`. */
  function IntToString(i: int): (s: string)
    ensures |s| >= 1
    ensures forall k :: 0 <= k < |s| ==> IsDigit(s[k]) || (k == 0 && s[k] == '-')
  {
    if i < 0 then "-" + NatToString(-i) else NatToString(i)
  }

  lemma {:induction false} DigitsValueOfNatToString(n: nat)
    ensures DigitsValue(NatToString(n)) == n
  {
    if n >= 10 {
      DigitsValueOfNatToString(n / 10);
      var s := NatToString(n);
      assert s[..|s| - 1] == NatToString(n / 10);
    }
  }

  /** The body of a Python integer literal: digits, with single underscores
      allowed between two digits. */
  predicate IsDigitBody(b: string) {
    && |b| >= 1
    && IsDigit(b[0]) && IsDigit(b[|b| - 1])
    && (forall i :: 0 <= i < |b| ==> IsDigit(b[i]) || b[i] == '_')
    && (forall i :: 0 <= i < |b| - 1 ==> !(b[i] == '_' && b[i + 1] == '_'))
  }

  function RemoveUnderscores(b: string): (r: string)
    requires forall i :: 0 <= i < |b| ==> IsDigit(b[i]) || b[i] == '_'
    ensures AllDigits(r)
  {
    if b == [] then []
    else if b[0] == '_' then RemoveUnderscores(b[1..])
    else [b[0]] + RemoveUnderscores(b[1..])
  }

  lemma {:induction false} RemoveUnderscoresOfDigits(b: string)
    requires AllDigits(b)
    ensures RemoveUnderscores(b) == b
  {
    if b != [] {
      RemoveUnderscoresOfDigits(b[1..]);
    }
  }

  /** Python `int(text)` in base 10: surrounding whitespace is dropped, one
      optional sign, then a digit body; anything else raises ValueError,
      which is `None` here. */
  function ParseInt(text: string): Option<int> {
    ParseSigned(Text.Strip(text))
  }

  /** One optional sign, then the digit body. */
  function ParseSigned(t: string): Option<int> {
    var signed := |t| > 0 && (t[0] == '-' || t[0] == '+');
    var body := if signed then t[1..] else t;
    match ParseBody(body)
    case Some(v) => Some(if signed && t[0] == '-' then -(v as int) else v as int)
    case None => None
  }

  function ParseBody(b: string): Option<nat> {
    if IsDigitBody(b) then Some(DigitsValue(RemoveUnderscores(b))) else None
  }

  lemma ParseBodyOfDigits(s: string)
    requires |s| >= 1 && AllDigits(s)
    ensures ParseBody(s) == Some(DigitsValue(s))
  {
    assert IsDigitBody(s);
    RemoveUnderscoresOfDigits(s);
  }

  /** No digit is whitespace. */
  lemma DigitsHaveNoSpace(s: string)
    requires forall k :: 0 <= k < |s| ==> IsDigit(s[k]) || s[k] == '-'
    ensures forall k :: 0 <= k < |s| ==> !Text.IsSpace(s[k])
  {
  }

  /** A string without whitespace is its own strip. */
  lemma StripNoSpace(s: string)
    requires forall i :: 0 <= i < |s| ==> !Text.IsSpace(s[i])
    ensures Text.Strip(s) == s
  {
    var a := Text.TrimStart(s);
    assert a == s;
  }

  lemma ParseSignedOfDigits(d: string)
    requires |d| >= 1 && AllDigits(d)
    ensures ParseSigned(d) == Some(DigitsValue(d) as int)
  {
    ParseBodyOfDigits(d);
    assert d[0] != '-' && d[0] != '+';
  }

  lemma ParseSignedOfNegative(t: string, d: string)
    requires |d| >= 1 && AllDigits(d)
    requires |t| >= 1 && t[0] == '-' && t[1..] == d
    ensures ParseSigned(t) == Some(-(DigitsValue(d) as int))
  {
    ParseBodyOfDigits(d);
  }

  /** `int` ignores nothing in a text without whitespace. */
  lemma ParseIntOfNoSpace(s: string)
    requires forall k :: 0 <= k < |s| ==> !Text.IsSpace(s[k])
    ensures ParseInt(s) == ParseSigned(s)
  {
    StripNoSpace(s);
  }

  lemma ParseSignedOfIntToString(i: int)
    ensures ParseSigned(IntToString(i)) == Some(i)
  {
    var s := IntToString(i);
    if i < 0 {
      var d := NatToString(-i);
      assert s[1..] == d;
      DigitsValueOfNatToString(-i);
      ParseSignedOfNegative(s, d);
    } else {
      DigitsValueOfNatToString(i);
      ParseSignedOfDigits(NatToString(i));
    }
  }

  /** `int(str(i)) == i` for every integer. */
  lemma ParseIntOfIntToString(i: int)
    ensures ParseInt(IntToString(i)) == Some(i)
  {
    var s := IntToString(i);
    DigitsHaveNoSpace(s);
    ParseIntOfNoSpace(s);
    ParseSignedOfIntToString(i);
  }

  /** A body of plain digits parses to its value: `int("1998") == 1998`. */
  lemma ParseIntOfDigits(s: string)
    requires |s| >= 1 && AllDigits(s)
    ensures ParseInt(s) == Some(DigitsValue(s) as int)
  {
    DigitsHaveNoSpace(s);
    ParseIntOfNoSpace(s);
    ParseSignedOfDigits(s);
  }
}
