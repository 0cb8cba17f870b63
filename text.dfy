/**
 * The text operations the scalar fields rely on: the whitespace `strip`,
 * the ASCII `lower`, Python 2's `int()` on a decimal string, and the
 * decimal rendering of an integer that `unicode()` produces.
 */
module Text {
  import opened Wrappers

  /** The characters `str.strip()` removes: space, \t, \n, \v, \f, \r. */
  predicate IsSpace(c: char) {
    c == ' ' || 9 <= c as int <= 13
  }

  predicate AllSpace(t: string) {
    forall j :: 0 <= j < |t| ==> IsSpace(t[j])
  }

  /** How many whitespace characters start `s`. */
  function LeadingSpaces(s: string): (n: nat)
    ensures n <= |s|
    ensures forall i :: 0 <= i < n ==> IsSpace(s[i])
    ensures n < |s| ==> !IsSpace(s[n])
  {
    if s == [] || !IsSpace(s[0]) then 0 else 1 + LeadingSpaces(s[1..])
  }

  /** How many whitespace characters end `s`. */
  function TrailingSpaces(s: string): (n: nat)
    ensures n <= |s|
    ensures forall i :: |s| - n <= i < |s| ==> IsSpace(s[i])
    ensures n < |s| ==> !IsSpace(s[|s| - 1 - n])
  {
    if s == [] || !IsSpace(s[|s| - 1]) then 0 else 1 + TrailingSpaces(s[..|s| - 1])
  }

  /** `s.strip()`: `s` without its leading and trailing whitespace. */
  function Strip(s: string): (r: string)
    ensures |r| <= |s|
    ensures r == [] || (!IsSpace(r[0]) && !IsSpace(r[|r| - 1]))
    ensures exists i, k :: 0 <= i <= k <= |s| && AllSpace(s[..i]) && AllSpace(s[k..]) && s[i..k] == r
  {
    var a := LeadingSpaces(s);
    if a == |s| then
      assert AllSpace(s[..a]) && AllSpace(s[a..]) && s[a..a] == [];
      []
    else
      var t := s[a..];
      var b := TrailingSpaces(t);
      assert b < |t| by {
        assert !IsSpace(t[0]);
      }
      var r := t[..|t| - b];
      assert s[a..a + |r|] == r;
      assert AllSpace(s[..a]);
      assert AllSpace(s[a + |r|..]) by {
        assert forall j :: a + |r| <= j < |s| ==> s[j] == t[j - a];
      }
      r
  }

  /** Stripping is idempotent: a stripped string has nothing left to strip. */
  lemma StripIdempotent(s: string)
    ensures Strip(Strip(s)) == Strip(s)
  {
    var r := Strip(s);
    assert LeadingSpaces(r) == 0;
    if r != [] {
      assert TrailingSpaces(r[0..]) == 0 by {
        assert r[0..] == r;
      }
      assert r[0..][..|r|] == r;
    }
  }

  /** ASCII lower-casing of one character. */
  function LowerChar(c: char): char {
    if 'A' <= c <= 'Z' then (c as int + 32) as char else c
  }

  /** `s.lower()` over ASCII letters. */
  function Lower(s: string): string {
    seq(|s|, i requires 0 <= i < |s| => LowerChar(s[i]))
  }

  predicate IsUpper(c: char) {
    'A' <= c <= 'Z'
  }

  /** Lower-casing leaves no upper-case letter, and changes nothing else. */
  lemma LowerNoUpper(s: string)
    ensures |Lower(s)| == |s|
    ensures forall i :: 0 <= i < |s| ==> !IsUpper(Lower(s)[i])
    ensures forall i :: 0 <= i < |s| && !IsUpper(s[i]) ==> Lower(s)[i] == s[i]
  {
  }

  /** Lower-casing twice is lower-casing once. */
  lemma LowerIdempotent(s: string)
    ensures Lower(Lower(s)) == Lower(s)
  {
    LowerNoUpper(s);
    LowerNoUpper(Lower(s));
  }

  /** `t` spells `true` in any mix of upper and lower case. */
  predicate TrueUpToCase(t: string) {
    |t| == 4 && t[0] in "tT" && t[1] in "rR" && t[2] in "uU" && t[3] in "eE"
  }

  /** `t.lower() == 'true'` holds exactly for the sixteen spellings of `true` in mixed case. */
  lemma LowerTrue(t: string)
    ensures Lower(t) == "true" <==> TrueUpToCase(t)
  {
    var l := Lower(t);
    if l == "true" {
      assert |t| == 4;
      assert l[0] == LowerChar(t[0]) && l[1] == LowerChar(t[1]) && l[2] == LowerChar(t[2]) && l[3] == LowerChar(t[3]);
      assert l[0] == 't' && l[1] == 'r' && l[2] == 'u' && l[3] == 'e';
    }
    if TrueUpToCase(t) {
      assert Lower(t) == "true";
    }
  }

  predicate IsDigit(c: char) {
    '0' as int <= c as int <= '9' as int
  }

  /** The value of a non-empty run of decimal digits, most significant first. */
  function DigitsValue(ds: string): nat
    requires forall i :: 0 <= i < |ds| ==> IsDigit(ds[i])
  {
    if ds == [] then 0
    else
      assert IsDigit(ds[|ds| - 1]);
      var d: nat := ds[|ds| - 1] as int - '0' as int;
      DigitsValue(ds[..|ds| - 1]) * 10 + d
  }

  /** One or more decimal digits. */
  predicate Digits(t: string) {
    t != [] && forall i :: 0 <= i < |t| ==> IsDigit(t[i])
  }

  predicate IsSign(c: char) {
    c == '+' || c == '-'
  }

  /**
   * What follows a leading sign: the rest of `t` without the whitespace
   * that comes right after the sign, which C's `strtoul` skips.
   */
  function AfterSign(t: string): (u: string)
    requires t != [] && IsSign(t[0])
    ensures u == [] || !IsSpace(u[0])
  {
    var rest := t[1..];
    rest[LeadingSpaces(rest)..]
  }

  /** `AfterSign` drops exactly the whitespace run that follows the sign. */
  lemma AfterSignSkips(t: string)
    requires t != [] && IsSign(t[0])
    ensures var u := AfterSign(t);
      |u| < |t| && t[|t| - |u|..] == u && AllSpace(t[1..|t| - |u|]) && (u == [] || !IsSpace(u[0]))
  {
    var rest := t[1..];
    var n := LeadingSpaces(rest);
    assert t[1 + n..] == rest[n..];
    assert t[1..1 + n] == rest[..n];
  }

  /**
   * A decimal numeral as Python 2's `int()` reads one: one or more digits,
   * or a `+` or `-`, then any whitespace, then one or more digits.
   */
  predicate Numeral(t: string) {
    Digits(t) || (t != [] && IsSign(t[0]) && Digits(AfterSign(t)))
  }

  /** Python 2 `int(s)` in base 10: surrounding whitespace, an optional sign and the whitespace after it, then at least one digit. */
  function ParseInt(s: string): (r: Option<int>)
    ensures r.Some? <==> Numeral(Strip(s))
    ensures r.Some? && Digits(Strip(s)) ==> r.value == DigitsValue(Strip(s))
    ensures r.Some? && Strip(s)[0] == '+' ==> r.value == DigitsValue(AfterSign(Strip(s)))
    ensures r.Some? && Strip(s)[0] == '-' ==> r.value == -(DigitsValue(AfterSign(Strip(s))) as int)
  {
    ParseSigned(Strip(s))
  }

  /** An optional sign, then whitespace after the sign, then at least one decimal digit, and nothing else. */
  function ParseSigned(t: string): (r: Option<int>)
    ensures r.Some? <==> Numeral(t)
    ensures r.Some? && Digits(t) ==> r.value == DigitsValue(t)
    ensures r.Some? && t[0] == '+' ==> r.value == DigitsValue(AfterSign(t))
    ensures r.Some? && t[0] == '-' ==> r.value == -(DigitsValue(AfterSign(t)) as int)
  {
    if t == [] then None
    else
      var neg := t[0] == '-';
      var body := if IsSign(t[0]) then AfterSign(t) else t;
      if body != [] && forall i :: 0 <= i < |body| ==> IsDigit(body[i]) then
        var magnitude: int := DigitsValue(body);
        Some(if neg then -magnitude else magnitude)
      else None
  }

  function DigitChar(d: nat): char
    requires d < 10
  {
    ('0' as int + d) as char
  }

  /** The decimal digits of a natural number, without leading zeros. */
  function NatText(n: nat): (r: string)
    ensures r != [] && forall i :: 0 <= i < |r| ==> IsDigit(r[i])
    ensures !IsSpace(r[0]) && !IsSpace(r[|r| - 1])
  {
    if n < 10 then [DigitChar(n)] else NatText(n / 10) + [DigitChar(n % 10)]
  }

  /** `unicode(n)` for an integer: a minus sign for negatives, then the digits. */
  function IntText(n: int): (r: string)
    ensures r != []
  {
    if n < 0 then "-" + NatText(-n) else NatText(n)
  }

  lemma {:induction false} NatTextValue(n: nat)
    ensures DigitsValue(NatText(n)) == n
  {
    if n >= 10 {
      var p := NatText(n / 10);
      assert (p + [DigitChar(n % 10)])[..|p|] == p;
      NatTextValue(n / 10);
    }
  }

  lemma StripUnspaced(s: string)
    requires s != [] && !IsSpace(s[0]) && !IsSpace(s[|s| - 1])
    ensures Strip(s) == s
  {
    assert LeadingSpaces(s) == 0;
    assert s[0..] == s;
    assert s[..|s|] == s;
  }

  /** `int(unicode(n)) == n`: reading back the decimal rendering gives the integer. */
  lemma ParseIntText(n: int)
    ensures ParseInt(IntText(n)) == Some(n)
  {
    if n < 0 {
      ParseNegativeText(n);
    } else {
      ParseNatText(n);
    }
  }

  lemma ParseNegativeText(n: int)
    requires n < 0
    ensures ParseInt(IntText(n)) == Some(n)
  {
    var m: nat := -n;
    var d := NatText(m);
    assert IntText(n) == "-" + d;
    NatTextValue(m);
    ParseDigits(d, true);
  }

  lemma ParseNatText(n: nat)
    ensures ParseInt(IntText(n)) == Some(n)
  {
    var d := NatText(n);
    assert IntText(n) == d;
    NatTextValue(n);
    ParseDigits(d, false);
  }

  /** A run of digits, with or without a minus sign in front, parses to its value. */
  lemma ParseDigits(d: string, neg: bool)
    requires d != [] && forall i :: 0 <= i < |d| ==> IsDigit(d[i])
    ensures neg ==> ParseInt("-" + d) == Some(-(DigitsValue(d) as int))
    ensures !neg ==> ParseInt(d) == Some(DigitsValue(d))
  {
    var t := if neg then "-" + d else d;
    assert t[|t| - 1] == d[|d| - 1];
    assert !IsSpace(t[0]);
    StripUnspaced(t);
    SignedText(d, neg);
  }

  lemma SignedText(d: string, neg: bool)
    requires d != [] && forall i :: 0 <= i < |d| ==> IsDigit(d[i])
    ensures ParseSigned(if neg then "-" + d else d) == Some(if neg then 0 - DigitsValue(d) as int else DigitsValue(d) as int)
  {
    if neg {
      SignedMinus(d);
    } else {
      assert Digits(d);
    }
  }

  /** `-` followed by digits parses to the negated value of the digits. */
  lemma SignedMinus(d: string)
    requires Digits(d)
    ensures ParseSigned("-" + d) == Some(0 - DigitsValue(d) as int)
  {
    var t := "-" + d;
    assert t[0] == '-';
    AfterMinus(d);
    assert Digits(AfterSign(t));
  }

  /** A minus sign directly before digits is followed by exactly those digits. */
  lemma AfterMinus(d: string)
    requires d != [] && IsDigit(d[0])
    ensures AfterSign("-" + d) == d
  {
    var t := "-" + d;
    assert t[1..] == d;
    assert LeadingSpaces(d) == 0;
    assert d[0..] == d;
  }

  /** Whitespace between the sign and the digits is accepted: `int('- 5') == -5` and `int('+\t7') == 7`. */
  lemma SpaceAfterSign(c: char, w: string, d: string)
    requires IsSign(c) && AllSpace(w) && Digits(d)
    ensures ParseInt([c] + w + d) == Some(if c == '-' then -(DigitsValue(d) as int) else DigitsValue(d) as int)
  {
    var t := [c] + w + d;
    assert t[0] == c;
    assert t[|t| - 1] == d[|d| - 1];
    StripUnspaced(t);
    assert t[1..] == w + d;
    LeadingRun(w, d);
    assert (w + d)[|w|..] == d;
    SignedValue(t, d);
  }

  /** A sign whose digits after the whitespace are `d` reads as `d`'s value with that sign. */
  lemma SignedValue(t: string, d: string)
    requires t != [] && IsSign(t[0]) && AfterSign(t) == d && Digits(d)
    ensures ParseSigned(t) == Some(if t[0] == '-' then -(DigitsValue(d) as int) else DigitsValue(d) as int)
  {
  }

  /** A run of whitespace before a non-space is exactly the leading whitespace. */
  lemma {:induction false} LeadingRun(w: string, d: string)
    requires AllSpace(w) && (d == [] || !IsSpace(d[0]))
    ensures LeadingSpaces(w + d) == |w|
  {
    if w == [] {
      assert w + d == d;
    } else {
      assert (w + d)[0] == w[0];
      assert (w + d)[1..] == w[1..] + d;
      LeadingRun(w[1..], d);
    }
  }
}
