/**
 Text helpers the processor relies on: Python's whitespace test, `str.strip()`
 with no argument, and the code-point ordering Python uses to compare strings.
 */
module Text {

  /** Python's `str.isspace` for one character: the ASCII controls TAB..CR,
      the separators U+001C..U+001F, SPACE, NEL, NO-BREAK SPACE and the Unicode
      space separators and line/paragraph separators. */
  predicate IsSpace(c: char) {
    var n := c as int;
    || (9 <= n <= 13)
    || (0x1C <= n <= 0x20)
    || n == 0x85 || n == 0xA0 || n == 0x1680
    || (0x2000 <= n <= 0x200A)
    || n == 0x2028 || n == 0x2029 || n == 0x202F || n == 0x205F || n == 0x3000
  }

  /** Which characters count as surrounding whitespace. `StrBlanks` is what
      `str.strip()` removes: every `str.isspace` character. `FloatBlanks` is
      what `float()` tolerates around a number. CPython maps non-ASCII
      whitespace to a space before it trims, but it keeps the ASCII separators
      U+001C..U+001F, which then make the text invalid. */
  datatype Blanks = StrBlanks | FloatBlanks

  predicate IsBlank(b: Blanks, c: char) {
    IsSpace(c) && (b == FloatBlanks ==> !(0x1C <= c as int <= 0x1F))
  }

  /** The number of blank characters `s` starts with. */
  function Indent(b: Blanks, s: string): (n: nat)
    ensures n <= |s|
    ensures forall i :: 0 <= i < n ==> IsBlank(b, s[i])
    ensures n < |s| ==> !IsBlank(b, s[n])
  {
    if |s| > 0 && IsBlank(b, s[0]) then 1 + Indent(b, s[1..]) else 0
  }

  /** `s.lstrip()`: drops the maximal blank prefix. */
  function StripLeading(b: Blanks, s: string): (r: string)
    ensures |r| <= |s| && r == s[|s| - |r|..]
    ensures forall i :: 0 <= i < |s| - |r| ==> IsBlank(b, s[i])
    ensures |r| > 0 ==> !IsBlank(b, r[0])
  {
    s[Indent(b, s)..]
  }

  /** `s.rstrip()`: drops the maximal blank suffix. */
  function StripTrailing(b: Blanks, s: string): (r: string)
    ensures |r| <= |s| && r == s[..|r|]
    ensures forall i :: |r| <= i < |s| ==> IsBlank(b, s[i])
    ensures |r| > 0 ==> !IsBlank(b, r[|r| - 1])
  {
    if |s| > 0 && IsBlank(b, s[|s| - 1]) then StripTrailing(b, s[..|s| - 1]) else s
  }

  /** `s.strip()`: the piece of `s` left once blanks are removed from both ends.
      The result is a contiguous slice of `s`, everything cut away is blank,
      and the result neither starts nor ends with a blank. */
  function Strip(b: Blanks, s: string): (r: string)
    ensures Indent(b, s) + |r| <= |s| && r == s[Indent(b, s)..Indent(b, s) + |r|]
    ensures forall j :: Indent(b, s) + |r| <= j < |s| ==> IsBlank(b, s[j])
    ensures |r| > 0 ==> !IsBlank(b, r[0]) && !IsBlank(b, r[|r| - 1])
  {
    StripTrailing(b, StripLeading(b, s))
  }

  /** A string that neither starts nor ends with a blank is left alone by `strip`. */
  lemma StripOfTrimmed(b: Blanks, s: string)
    requires |s| > 0 ==> !IsBlank(b, s[0]) && !IsBlank(b, s[|s| - 1])
    ensures Strip(b, s) == s
  {
  }

  /** Stripping twice is the same as stripping once. */
  lemma StripIdempotent(b: Blanks, s: string)
    ensures Strip(b, Strip(b, s)) == Strip(b, s)
  {
    StripOfTrimmed(b, Strip(b, s));
  }

  /** Index of the first `c` in `s`, or `|s|` when there is none. */
  function IndexOf(s: string, c: char): (k: nat)
    ensures k <= |s|
    ensures forall i :: 0 <= i < k ==> s[i] != c
    ensures k < |s| ==> s[k] == c
  {
    if |s| == 0 then 0
    else if s[0] == c then 0
    else 1 + IndexOf(s[1..], c)
  }

  lemma {:induction false} IndexOfFirst(s: string, c: char, k: nat)
    requires k < |s| && s[k] == c
    requires forall i :: 0 <= i < k ==> s[i] != c
    ensures IndexOf(s, c) == k
  {
    if k > 0 {
      IndexOfFirst(s[1..], c, k - 1);
    }
  }

  /** Python's `<` on `str`: lexicographic by code point, a proper prefix first. */
  predicate Less(a: string, b: string) {
    if |a| == 0 then |b| > 0
    else |b| > 0 && (a[0] < b[0] || (a[0] == b[0] && Less(a[1..], b[1..])))
  }

  lemma {:induction false} LessIrreflexive(a: string)
    ensures !Less(a, a)
  {
    if |a| > 0 {
      LessIrreflexive(a[1..]);
    }
  }

  lemma {:induction false} LessTransitive(a: string, b: string, c: string)
    requires Less(a, b) && Less(b, c)
    ensures Less(a, c)
  {
    if |a| > 0 && a[0] == b[0] && b[0] == c[0] {
      LessTransitive(a[1..], b[1..], c[1..]);
    }
  }

  /** Any two distinct strings are ordered one way or the other. */
  lemma {:induction false} LessTotal(a: string, b: string)
    requires a != b
    ensures Less(a, b) || Less(b, a)
  {
    if |a| > 0 && |b| > 0 && a[0] == b[0] {
      assert a == [a[0]] + a[1..] && b == [b[0]] + b[1..];
      LessTotal(a[1..], b[1..]);
    }
  }

  lemma {:induction false} LessAsymmetric(a: string, b: string)
    requires Less(a, b)
    ensures !Less(b, a)
  {
    if Less(b, a) {
      LessTransitive(a, b, a);
      LessIrreflexive(a);
    }
  }

  /** `Less` is a strict total order on strings, stated for every triple. */
  lemma LessIsStrictTotalOrder()
    ensures forall a :: !Less(a, a)
    ensures forall a, b, c :: Less(a, b) && Less(b, c) ==> Less(a, c)
    ensures forall a, b :: a != b ==> Less(a, b) || Less(b, a)
  {
    forall a { LessIrreflexive(a); }
    forall a, b, c | Less(a, b) && Less(b, c) { LessTransitive(a, b, c); }
    forall a, b | a != b { LessTotal(a, b); }
  }
}
