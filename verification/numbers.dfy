/** Decimal integers as text: JavaScript's `parseInt(s, 10)`, which reads the
    `page` number of a pagination link, and the decimal rendering a template
    literal gives a number, which appears in error messages. */
module Numbers {

  import opened Wrappers
  import opened Text

  predicate IsDigit(c: char) {
    '0' <= c <= '9'
  }

  predicate AllDigits(s: string) {
    forall i :: 0 <= i < |s| ==> IsDigit(s[i])
  }

  function DigitValue(c: char): nat
    requires IsDigit(c)
  {
    (c as int) - ('0' as int)
  }

  function DigitChar(d: nat): (c: char)
    requires d < 10
    ensures IsDigit(c) && DigitValue(c) == d
  {
    ('0' as int + d) as char
  }

  /** The value of a run of decimal digits, most significant first. */
  function DigitsValue(ds: string): nat
    requires AllDigits(ds)
    decreases |ds|
  {
    if |ds| == 0 then 0
    else DigitsValue(ds[..|ds| - 1]) * 10 + DigitValue(ds[|ds| - 1])
  }

  /** The longest prefix of `s` made of decimal digits. */
  function LeadingDigits(s: string): (r: string)
    ensures AllDigits(r)
    decreases |s|
  {
    if |s| > 0 && IsDigit(s[0]) then [s[0]] + LeadingDigits(s[1..]) else ""
  }

  /** `LeadingDigits` is a prefix of `s` that stops only at a non-digit or at the end. */
  lemma {:induction false} LeadingDigitsPrefix(s: string)
    ensures var r := LeadingDigits(s);
      |r| <= |s| && r == s[..|r|] && (|r| < |s| ==> !IsDigit(s[|r|]))
    decreases |s|
  {
    if |s| > 0 && IsDigit(s[0]) {
      LeadingDigitsPrefix(s[1..]);
      assert LeadingDigits(s) == [s[0]] + LeadingDigits(s[1..]);
    }
  }

  /** `parseInt(s, 10)`: skip leading whitespace, read an optional sign and then
      the longest run of digits. `None` stands for the `NaN` JavaScript returns
      when there is no digit at all. */
  function ParseInt(s: string): Option<int> {
    ParseSigned(TrimStart(s))
  }

  /** An optional `-` or `+` followed by digits. */
  function ParseSigned(t: string): Option<int> {
    if |t| > 0 && t[0] == '-' then
      match ParseDigits(t[1..])
      case Some(v) => Some(-v)
      case None => None
    else if |t| > 0 && t[0] == '+' then ParseDigits(t[1..])
    else ParseDigits(t)
  }

  /** The value of the leading digits of `u`, absent when `u` does not start with one. */
  function ParseDigits(u: string): Option<int> {
    var ds := LeadingDigits(u);
    if |ds| == 0 then None else Some(DigitsValue(ds))
  }

  /** The decimal digits of `n`, without leading zeros. */
  function NatToString(n: nat): (r: string)
    ensures |r| >= 1 && AllDigits(r)
    ensures DigitsValue(r) == n
    ensures |r| > 1 ==> r[0] != '0'
    decreases n
  {
    if n < 10 then [DigitChar(n)]
    else
      var prefix := NatToString(n / 10);
      var r := prefix + [DigitChar(n % 10)];
      assert r[..|r| - 1] == prefix;
      r
  }

  /** How a template literal renders an integer: `-` then the digits of its magnitude. */
  function IntToString(n: int): (r: string)
    ensures |r| >= 1
    ensures n >= 0 <==> IsDigit(r[0])
    ensures n < 0 <==> r[0] == '-'
  {
    if n < 0 then "-" + NatToString(-n) else NatToString(n)
  }

  lemma {:induction false} LeadingDigitsOf(ds: string, rest: string)
    requires AllDigits(ds)
    requires |rest| > 0 ==> !IsDigit(rest[0])
    ensures LeadingDigits(ds + rest) == ds
    decreases |ds|
  {
    if |ds| == 0 {
      assert ds + rest == rest;
    } else {
      assert (ds + rest)[1..] == ds[1..] + rest;
      LeadingDigitsOf(ds[1..], rest);
      assert ds == [ds[0]] + ds[1..];
    }
  }

  lemma ParseDigitsOf(ds: string, rest: string)
    requires |ds| >= 1 && AllDigits(ds)
    requires |rest| > 0 ==> !IsDigit(rest[0])
    ensures ParseDigits(ds + rest) == Some(DigitsValue(ds))
  {
    LeadingDigitsOf(ds, rest);
  }

  /** Text that does not start with whitespace is read as it stands. */
  lemma ParseIntUnpadded(s: string)
    requires |s| > 0 && !IsWhitespace(s[0])
    ensures ParseInt(s) == ParseSigned(s)
  {
  }

  /** A leading `-` negates the digits' value. */
  lemma ParseMinus(u: string, x: int)
    requires ParseDigits(u) == Some(x)
    ensures ParseSigned(['-'] + u) == Some(-x)
  {
    assert (['-'] + u)[1..] == u;
  }

  lemma ParseNegative(ds: string, rest: string, x: int)
    requires |ds| >= 1 && AllDigits(ds) && x == DigitsValue(ds)
    requires |rest| > 0 ==> !IsDigit(rest[0])
    ensures ParseSigned("-" + ds + rest) == Some(-x)
  {
    ParseDigitsOf(ds, rest);
    ParseMinus(ds + rest, x);
    assert "-" + ds + rest == ['-'] + (ds + rest);
  }

  lemma ParseNonNegative(ds: string, rest: string)
    requires |ds| >= 1 && AllDigits(ds)
    requires |rest| > 0 ==> !IsDigit(rest[0])
    ensures ParseSigned(ds + rest) == Some(DigitsValue(ds))
  {
    assert (ds + rest)[0] == ds[0];
    ParseDigitsOf(ds, rest);
  }

  /** `parseInt` reads back what `IntToString` writes, whatever non-digit text
      follows it. */
  lemma ParseIntToString(n: int, rest: string)
    requires |rest| > 0 ==> !IsDigit(rest[0])
    ensures ParseInt(IntToString(n) + rest) == Some(n)
  {
    var s := IntToString(n) + rest;
    assert s[0] == IntToString(n)[0];
    ParseIntUnpadded(s);
    if n < 0 {
      assert IntToString(n) == "-" + NatToString(-n);
      ParseNegative(NatToString(-n), rest, -n);
    } else {
      ParseNonNegative(NatToString(n), rest);
    }
  }

  /** Leading whitespace is skipped. */
  lemma ParseIntSkipsWhitespace(pad: string, s: string)
    requires AllWhitespace(pad)
    requires |s| > 0 ==> !IsWhitespace(s[0])
    ensures ParseInt(pad + s) == ParseInt(s)
  {
    TrimStartPadded(pad, s);
    TrimStartPadded("", s);
    assert "" + s == s;
  }

  /** Text whose first non-blank character is neither a sign nor a digit has no
      integer value (JavaScript's `NaN`). */
  lemma ParseIntNoDigits(s: string)
    requires |s| == 0 || (!IsWhitespace(s[0]) && !IsDigit(s[0]) && s[0] != '-' && s[0] != '+')
    ensures ParseInt(s) == None
  {
    TrimStartPadded("", s);
    assert "" + s == s;
    assert LeadingDigits(s) == "";
  }
}
