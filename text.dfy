/** Python string behaviour the bot relies on: `str.strip()`, the ordering `<`
    on `str`, and `str(int)` as used inside f-strings. */
module Text {

  /** Python's `str.isspace()` for one character: the characters of Unicode
      category Zs and of bidirectional class WS, B or S. */
  predicate IsSpace(c: char) {
    || ('\t' <= c <= '\r')
    || ('\U{1C}' <= c <= ' ')
    || c == '\U{85}' || c == '\U{A0}' || c == '\U{1680}'
    || ('\U{2000}' <= c <= '\U{200A}')
    || c == '\U{2028}' || c == '\U{2029}' || c == '\U{202F}'
    || c == '\U{205F}' || c == '\U{3000}'
  }

  /** True when `s` occurs in `t` at offset `lo` and everything of `t` outside
      that occurrence is whitespace. */
  ghost predicate PaddedBy(t: string, s: string, lo: int) {
    && 0 <= lo <= |t| - |s|
    && t[lo..lo + |s|] == s
    && (forall i :: 0 <= i < lo ==> IsSpace(t[i]))
    && (forall i :: lo + |s| <= i < |t| ==> IsSpace(t[i]))
  }

  /** Python's `s.strip()`: `s` without its leading and trailing whitespace. */
  function Strip(s: string): (r: string)
    ensures |r| <= |s|
    decreases |s|
  {
    if s != [] && IsSpace(s[0]) then Strip(s[1..])
    else if s != [] && IsSpace(s[|s| - 1]) then Strip(s[..|s| - 1])
    else s
  }

  /** Where the stripped text starts inside the original. */
  ghost function StripStart(s: string): nat
    decreases |s|
  {
    if s != [] && IsSpace(s[0]) then StripStart(s[1..]) + 1
    else if s != [] && IsSpace(s[|s| - 1]) then StripStart(s[..|s| - 1])
    else 0
  }

  /** A leading space in front of a padded text is more padding. */
  lemma PaddedFront(s: string, r: string, lo: int)
    requires s != [] && IsSpace(s[0]) && PaddedBy(s[1..], r, lo)
    ensures PaddedBy(s, r, lo + 1)
  {
    assert s[lo + 1..lo + 1 + |r|] == s[1..][lo..lo + |r|];
    forall i | 0 <= i < lo + 1 ensures IsSpace(s[i]) {
      if i > 0 { assert s[i] == s[1..][i - 1]; }
    }
    forall i | lo + 1 + |r| <= i < |s| ensures IsSpace(s[i]) {
      assert s[i] == s[1..][i - 1];
    }
  }

  /** A trailing space behind a padded text is more padding. */
  lemma PaddedBack(s: string, r: string, lo: int)
    requires s != [] && IsSpace(s[|s| - 1]) && PaddedBy(s[..|s| - 1], r, lo)
    ensures PaddedBy(s, r, lo)
  {
    assert s[lo..lo + |r|] == s[..|s| - 1][lo..lo + |r|];
    forall i | lo + |r| <= i < |s| ensures IsSpace(s[i]) {
      if i < |s| - 1 { assert s[i] == s[..|s| - 1][i]; }
    }
  }

  /** The stripped text neither starts nor ends with whitespace. */
  lemma {:induction false} StripTrimmed(s: string)
    ensures var r := Strip(s); r == [] || (!IsSpace(r[0]) && !IsSpace(r[|r| - 1]))
    decreases |s|
  {
    if s != [] && IsSpace(s[0]) {
      StripTrimmed(s[1..]);
    } else if s != [] && IsSpace(s[|s| - 1]) {
      StripTrimmed(s[..|s| - 1]);
    }
  }

  /** `Strip(s)` is the part of `s` left between its leading and trailing
      whitespace, and it neither starts nor ends with whitespace. */
  lemma {:induction false} StripSpec(s: string)
    ensures PaddedBy(s, Strip(s), StripStart(s))
    ensures var r := Strip(s); r == [] || (!IsSpace(r[0]) && !IsSpace(r[|r| - 1]))
    decreases |s|
  {
    StripTrimmed(s);
    if s != [] && IsSpace(s[0]) {
      StripSpec(s[1..]);
      PaddedFront(s, Strip(s[1..]), StripStart(s[1..]));
    } else if s != [] && IsSpace(s[|s| - 1]) {
      StripSpec(s[..|s| - 1]);
      PaddedBack(s, Strip(s[..|s| - 1]), StripStart(s[..|s| - 1]));
    } else {
      assert s[0..|s|] == s;
    }
  }

  /** Stripping twice is stripping once. */
  lemma StripIdempotent(s: string)
    ensures Strip(Strip(s)) == Strip(s)
  {
    StripSpec(s);
  }

  /** Python's `a < b` on `str`: lexicographic comparison of code points, a
      proper prefix ordering before the longer string. */
  predicate StrLess(a: string, b: string): (r: bool)
    ensures r ==> a != b
    ensures |a| < |b| && a == b[..|a|] ==> r
    decreases |a|
  {
    if a == [] then b != []
    else if b == [] then false
    else if a[0] != b[0] then a[0] < b[0]
    else StrLess(a[1..], b[1..])
  }

  lemma {:induction false} StrLessIrreflexive(a: string)
    ensures !StrLess(a, a)
    decreases |a|
  {
    if a != [] {
      StrLessIrreflexive(a[1..]);
    }
  }

  lemma {:induction false} StrLessAsymmetric(a: string, b: string)
    ensures StrLess(a, b) ==> !StrLess(b, a)
    decreases |a|
  {
    if a != [] && b != [] && a[0] == b[0] {
      StrLessAsymmetric(a[1..], b[1..]);
    }
  }

  lemma {:induction false} StrLessTransitive(a: string, b: string, c: string)
    requires StrLess(a, b) && StrLess(b, c)
    ensures StrLess(a, c)
    decreases |a|
  {
    if a != [] && a[0] == b[0] && b[0] == c[0] {
      StrLessTransitive(a[1..], b[1..], c[1..]);
    }
  }

  /** Two different strings are always ordered one way or the other. */
  lemma {:induction false} StrLessTotal(a: string, b: string)
    requires a != b
    ensures StrLess(a, b) || StrLess(b, a)
    decreases |a|
  {
    if a != [] && b != [] && a[0] == b[0] {
      assert a == [a[0]] + a[1..] && b == [b[0]] + b[1..];
      StrLessTotal(a[1..], b[1..]);
    }
  }

  predicate IsDigit(c: char) {
    '0' <= c <= '9'
  }

  function DigitChar(d: int): (c: char)
    requires 0 <= d < 10
    ensures IsDigit(c) && c as int - '0' as int == d
  {
    ('0' as int + d) as char
  }

  /** The decimal digits of a natural number, without leading zeros. */
  function Digits(n: nat): (s: string)
    ensures s != [] && forall i :: 0 <= i < |s| ==> IsDigit(s[i])
    ensures s[0] == '0' ==> n == 0
    decreases n
  {
    if n < 10 then [DigitChar(n)] else Digits(n / 10) + [DigitChar(n % 10)]
  }

  /** Python's `str(n)` for an `int`, as an f-string field renders it. */
  function Decimal(n: int): (s: string)
    ensures s != []
    ensures s[0] == '-' <==> n < 0
    ensures forall i :: 0 <= i < |s| && (i > 0 || n >= 0) ==> IsDigit(s[i])
  {
    if n < 0 then "-" + Digits(-n) else Digits(n)
  }

  /** The value of a run of decimal digits. */
  function DigitsValue(s: string): int
    decreases |s|
  {
    if s == [] then 0 else DigitsValue(s[..|s| - 1]) * 10 + (s[|s| - 1] as int - '0' as int)
  }

  /** Python's `int(s)` for an optional minus sign followed by digits. */
  function ParseInt(s: string): int {
    if s != [] && s[0] == '-' then -DigitsValue(s[1..]) else DigitsValue(s)
  }

  lemma {:induction false} DigitsRoundTrip(n: nat)
    ensures DigitsValue(Digits(n)) == n
    decreases n
  {
    if n >= 10 {
      DigitsRoundTrip(n / 10);
      var s := Digits(n);
      assert s[..|s| - 1] == Digits(n / 10);
    }
  }

  /** Reading back a rendered integer gives the integer. */
  lemma DecimalRoundTrip(n: int)
    ensures ParseInt(Decimal(n)) == n
  {
    if n < 0 {
      DigitsRoundTrip(-n);
      assert ("-" + Digits(-n))[1..] == Digits(-n);
    } else {
      DigitsRoundTrip(n);
    }
  }
}
