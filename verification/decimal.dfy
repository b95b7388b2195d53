/**
 The number syntax the processor accepts in a row's second field.

 Python's `float(text)` is modelled on the subset of its grammar that a
 measurements file uses: surrounding whitespace, an optional sign, then
 decimal digits with an optional `.` and fraction, at least one digit in all.
 `ShowTenths` writes a value in tenths the way the records of a measurements
 file are written, and `ParseShowTenths` proves the parser reads it back.
 */
module Decimal {
  import opened Wrappers
  import opened Text

  predicate IsDigit(c: char) {
    '0' <= c <= '9'
  }

  predicate AllDigits(s: string) {
    forall i :: 0 <= i < |s| ==> IsDigit(s[i])
  }

  function DigitValue(c: char): (d: nat)
    requires IsDigit(c)
    ensures d < 10
  {
    (c as int) - ('0' as int)
  }

  function DigitChar(d: nat): (c: char)
    requires d < 10
    ensures IsDigit(c) && DigitValue(c) == d
  {
    ('0' as int + d) as char
  }

  /** The natural number a string of decimal digits denotes, most significant first. */
  function DigitsValue(s: string): nat
    requires AllDigits(s)
  {
    if |s| == 0 then 0 else 10 * DigitsValue(s[..|s| - 1]) + DigitValue(s[|s| - 1])
  }

  function Pow10(n: nat): (p: nat)
    ensures p >= 1
  {
    if n == 0 then 1 else 10 * Pow10(n - 1)
  }


  /** An unsigned decimal: digits, optionally followed by `.` and more digits,
      with at least one digit on one side of the point. */
  function ParseUnsigned(s: string): (r: Option<real>)
    ensures r.Some? ==> r.value >= 0.0
    ensures |s| > 0 && AllDigits(s) ==> r == Some(DigitsValue(s) as real)
    ensures r.Some? ==> |s| > 0 && s != "."
  {
    var k := IndexOf(s, '.');
    var whole := s[..k];
    var frac := if k < |s| then s[k + 1..] else "";
    assert AllDigits(s) ==> k == |s| && whole == s && frac == "";
    if AllDigits(whole) && AllDigits(frac) && |whole| + |frac| > 0 then
      Some(DigitsValue(whole) as real + DigitsValue(frac) as real / Pow10(|frac|) as real)
    else
      None
  }

  /** A stripped field: an optional `-` or `+` sign, then an unsigned decimal. */
  function ParseSigned(t: string): (r: Option<real>)
    ensures t == "" ==> r.None?
    ensures r.Some? && r.value < 0.0 ==> t[0] == '-'
    ensures r.Some? && r.value > 0.0 ==> t[0] != '-'
  {
    if |t| == 0 then None
    else if t[0] == '-' then
      match ParseUnsigned(t[1..])
      case Some(v) => Some(-v)
      case None => None
    else if t[0] == '+' then ParseUnsigned(t[1..])
    else ParseUnsigned(t)
  }

  /** `float(text)` on the modelled sub-grammar; `None` stands for the `ValueError`. */
  function ParseNum(s: string): (r: Option<real>)
    ensures Strip(FloatBlanks, s) == "" ==> r.None?
    ensures r.Some? && r.value < 0.0 ==> Strip(FloatBlanks, s)[0] == '-'
    ensures r.Some? && r.value > 0.0 ==> Strip(FloatBlanks, s)[0] != '-'
  {
    ParseSigned(Strip(FloatBlanks, s))
  }

  /** Surrounding blanks do not change what a field parses to. */
  lemma ParseNumIgnoresPadding(s: string)
    ensures ParseNum(s) == ParseNum(Strip(FloatBlanks, s))
  {
    StripIdempotent(FloatBlanks, s);
  }

  /** A character `float()` treats as padding, such as NEL (U+0085), changes
      nothing when it precedes a field. */
  lemma BlankPrefixIgnored(c: char, t: string)
    requires IsBlank(FloatBlanks, c)
    ensures ParseNum([c] + t) == ParseNum(t)
  {
    var s := [c] + t;
    assert s[1..] == t;
    assert StripLeading(FloatBlanks, s) == StripLeading(FloatBlanks, t);
  }

  /** An ASCII separator U+001C..U+001F satisfies `str.isspace` but is not
      padding to `float()`: a field that starts with one is always invalid. */
  lemma SeparatorPrefixRejected(c: char, t: string)
    requires 0x1C <= c as int <= 0x1F
    ensures ParseNum([c] + t) == None
  {
    var s := [c] + t;
    assert Indent(FloatBlanks, s) == 0;
    var r := Strip(FloatBlanks, s);
    assert |r| > 0 && r[0] == c;
    SeparatorFirstRejected(r);
  }

  lemma SeparatorFirstRejected(r: string)
    requires |r| > 0 && 0x1C <= r[0] as int <= 0x1F
    ensures ParseSigned(r) == None
  {
    var k := IndexOf(r, '.');
    if k > 0 {
      assert r[..k][0] == r[0];
    }
  }

  /** The decimal digits of `n`, most significant first, without leading zeros. */
  function NatToDigits(n: nat): (s: string)
    ensures |s| > 0 && AllDigits(s)
  {
    if n < 10 then [DigitChar(n)] else NatToDigits(n / 10) + [DigitChar(n % 10)]
  }

  lemma {:induction false} DigitsRoundTrip(n: nat)
    ensures DigitsValue(NatToDigits(n)) == n
  {
    var s := NatToDigits(n);
    if n >= 10 {
      assert s[..|s| - 1] == NatToDigits(n / 10);
      DigitsRoundTrip(n / 10);
    }
  }


  /** An unsigned decimal with a point at `k`: the whole part plus the
      fraction scaled by its length. */
  lemma ParseUnsignedAt(s: string, k: nat)
    requires k < |s| && IndexOf(s, '.') == k
    requires AllDigits(s[..k]) && AllDigits(s[k + 1..]) && |s| > 1
    ensures ParseUnsigned(s) ==
              Some(DigitsValue(s[..k]) as real + DigitsValue(s[k + 1..]) as real / Pow10(|s| - k - 1) as real)
  {
  }

  lemma OneDigit(d: char)
    requires IsDigit(d)
    ensures DigitsValue([d]) == DigitValue(d)
  {
    assert [d][..0] == "";
  }

  /** Digits, a point and one more digit parse to the whole part plus a tenth of that digit. */
  lemma ParsePoint(s: string, k: nat)
    requires 0 < k && k + 2 == |s| && AllDigits(s[..k]) && s[k] == '.' && IsDigit(s[k + 1])
    ensures ParseUnsigned(s) == Some(DigitsValue(s[..k]) as real + DigitValue(s[k + 1]) as real / 10.0)
  {
    assert forall i :: 0 <= i < k ==> s[i] == s[..k][i];
    IndexOfFirst(s, '.', k);
    assert s[k + 1..] == [s[k + 1]];
    OneDigit(s[k + 1]);
    ParseUnsignedAt(s, k);
  }

  /** The unsigned text of `m` tenths: the whole part, `.`, one fractional digit. */
  function TenthsBody(m: nat): (s: string)
    ensures |s| > 0 && IsDigit(s[0]) && IsDigit(s[|s| - 1])
  {
    var whole := NatToDigits(m / 10);
    var s := whole + "." + [DigitChar(m % 10)];
    assert s[0] == whole[0];
    s
  }

  /** A value given in tenths of a degree, written as a measurements file writes
      it: an optional `-`, then its unsigned text. */
  function ShowTenths(n: int): string {
    if n < 0 then "-" + TenthsBody(-n) else TenthsBody(n)
  }

  lemma TenthsArith(m: nat)
    ensures (m / 10) as real + (m % 10) as real / 10.0 == m as real / 10.0
  {
  }

  lemma ParseUnsignedTenths(m: nat)
    ensures ParseUnsigned(TenthsBody(m)) == Some(m as real / 10.0)
  {
    var whole := NatToDigits(m / 10);
    var s := TenthsBody(m);
    var k := |whole|;
    assert s[..k] == whole && s[k] == '.' && s[k + 1] == DigitChar(m % 10);
    ParsePoint(s, k);
    DigitsRoundTrip(m / 10);
    TenthsArith(m);
  }

  /** A rendered value has no surrounding whitespace, so `strip` keeps it whole. */
  lemma ShowTenthsTrimmed(n: int)
    ensures Strip(FloatBlanks, ShowTenths(n)) == ShowTenths(n)
  {
    var s := ShowTenths(n);
    if n < 0 {
      var b := TenthsBody(-n);
      assert s[0] == '-' && s[|s| - 1] == b[|b| - 1];
    }
    StripOfTrimmed(FloatBlanks, s);
  }

  /** A leading `-` negates the value of the unsigned decimal after it. */
  lemma ParseSignedMinus(body: string, v: real)
    requires ParseUnsigned(body) == Some(v)
    ensures ParseSigned("-" + body) == Some(-v)
  {
    var s := "-" + body;
    assert s[0] == '-' && s[1..] == body;
  }

  /** Text starting with a digit is read without a sign. */
  lemma ParseSignedPlain(body: string)
    requires |body| > 0 && IsDigit(body[0])
    ensures ParseSigned(body) == ParseUnsigned(body)
  {
  }

  /** Unsigned tenths text parses, with or without a leading `-`, to the value or its negation. */
  lemma ParseSignedTenths(m: nat)
    ensures ParseSigned(TenthsBody(m)) == Some(m as real / 10.0)
    ensures ParseSigned("-" + TenthsBody(m)) == Some(-(m as real / 10.0))
  {
    ParseUnsignedTenths(m);
    ParseSignedPlain(TenthsBody(m));
    ParseSignedMinus(TenthsBody(m), m as real / 10.0);
  }

  /** Reading back a value written in tenths yields that value exactly. */
  lemma ParseShowTenths(n: int)
    ensures ParseNum(ShowTenths(n)) == Some(n as real / 10.0)
  {
    ShowTenthsTrimmed(n);
    ParseTrimmed(ShowTenths(n));
    ParseSignedShowTenths(n);
  }

  lemma ParseTrimmed(s: string)
    requires Strip(FloatBlanks, s) == s
    ensures ParseNum(s) == ParseSigned(s)
  {
  }

  lemma ParseSignedShowTenths(n: int)
    ensures ParseSigned(ShowTenths(n)) == Some(n as real / 10.0)
  {
    if n < 0 {
      ParseSignedTenths(-n);
      assert -((-n) as real / 10.0) == n as real / 10.0;
    } else {
      ParseSignedTenths(n);
    }
  }

}
