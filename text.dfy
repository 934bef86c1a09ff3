/**
 * Text helpers that the table layer uses on cell strings: `str.isdigit`/`int`
 * on digit-only text, `str(n)` for naturals, `startswith`, `replace(p, "")`
 * and Python's code-point ordering of strings.
 */
module Text {
  import opened Wrappers

  predicate IsDigit(c: char) {
    '0' <= c <= '9'
  }

  /** `s.isdigit()` for ASCII text: non-empty and only decimal digits. */
  predicate IsDigits(s: string) {
    |s| > 0 && forall i :: 0 <= i < |s| ==> IsDigit(s[i])
  }

  /** The number a string of decimal digits denotes (`int(s)`). */
  function DigitsValue(s: string): nat
    requires forall i :: 0 <= i < |s| ==> IsDigit(s[i])
  {
    if |s| == 0 then 0
    else DigitsValue(s[..|s| - 1]) * 10 + DigitVal(s[|s| - 1])
  }

  function DigitVal(c: char): nat
    requires IsDigit(c)
  {
    c as int - '0' as int
  }

  /** `int(s)` on a cell: defined for digit-only text, `None` where Python raises ValueError. */
  function ParseNat(s: string): Option<nat> {
    if IsDigits(s) then Some(DigitsValue(s)) else None
  }

  function DigitChar(d: nat): char
    requires d < 10
  {
    ('0' as int + d) as char
  }

  /** `str(n)` for a natural number: its decimal digits, no leading zero. */
  function NatToString(n: nat): string
  {
    if n < 10 then [DigitChar(n)] else NatToString(n / 10) + [DigitChar(n % 10)]
  }

  /** `int(str(n)) == n`: the text written for a number reads back as that number. */
  lemma {:induction false} NatToStringRoundTrip(n: nat)
    ensures IsDigits(NatToString(n))
    ensures DigitsValue(NatToString(n)) == n
    ensures ParseNat(NatToString(n)) == Some(n)
  {
    var s := NatToString(n);
    if n >= 10 {
      NatToStringRoundTrip(n / 10);
      var p := NatToString(n / 10);
      assert s == p + [DigitChar(n % 10)];
      assert s[..|s| - 1] == p;
    }
  }

  /** Two numbers are written the same only if they are equal. */
  lemma NatToStringInjective(m: nat, n: nat)
    requires NatToString(m) == NatToString(n)
    ensures m == n
  {
    NatToStringRoundTrip(m);
    NatToStringRoundTrip(n);
  }

  /** `s.startswith(p)`. */
  predicate StartsWith(s: string, p: string) {
    |p| <= |s| && s[..|p|] == p
  }

  /**
   * `s.replace(pat, "")`: every non-overlapping occurrence of `pat`, scanning
   * left to right, is removed.
   */
  function RemoveAll(s: string, pat: string): string
    requires |pat| > 0
    decreases |s|
  {
    if |s| < |pat| then s
    else if s[..|pat|] == pat then RemoveAll(s[|pat|..], pat)
    else [s[0]] + RemoveAll(s[1..], pat)
  }

  /** `pat` occurs in `s` starting at index `i`. */
  predicate OccursAt(s: string, pat: string, i: int) {
    0 <= i && i + |pat| <= |s| && s[i..i + |pat|] == pat
  }

  /** `pat` occurs somewhere in `s`. */
  ghost predicate Contains(s: string, pat: string) {
    exists i :: OccursAt(s, pat, i)
  }

  /** Text free of `pat` is left alone by `replace(pat, "")`. */
  lemma {:induction false} RemoveAllAbsent(s: string, pat: string)
    requires |pat| > 0 && !Contains(s, pat)
    ensures RemoveAll(s, pat) == s
    decreases |s|
  {
    if |s| >= |pat| {
      assert !OccursAt(s, pat, 0);
      assert s[..|pat|] != pat;
      assert !Contains(s[1..], pat) by {
        forall i | 0 <= i && i + |pat| <= |s| - 1
          ensures !OccursAt(s[1..], pat, i)
        {
          assert s[1..][i..i + |pat|] == s[i + 1..i + 1 + |pat|];
          assert !OccursAt(s, pat, i + 1);
        }
      }
      RemoveAllAbsent(s[1..], pat);
    }
  }

  /** Stripping a prefix that occurs nowhere else gives back the rest of the name. */
  lemma RemoveAllPrefix(pat: string, rest: string)
    requires |pat| > 0 && !Contains(rest, pat)
    ensures RemoveAll(pat + rest, pat) == rest
  {
    var s := pat + rest;
    assert s[..|pat|] == pat;
    assert s[|pat|..] == rest;
    RemoveAllAbsent(rest, pat);
  }

  /** Python's `a < b` on strings: lexicographic by code point, a proper prefix first. */
  predicate LexLt(a: string, b: string)
    decreases |a|
  {
    if |a| == 0 then |b| > 0
    else if |b| == 0 then false
    else a[0] < b[0] || (a[0] == b[0] && LexLt(a[1..], b[1..]))
  }

  /** Python's `a <= b` on strings. */
  predicate LexLe(a: string, b: string) {
    a == b || LexLt(a, b)
  }

  /** Any two strings are ordered one way or the other. */
  lemma {:induction false} LexTotal(a: string, b: string)
    ensures LexLe(a, b) || LexLe(b, a)
    decreases |a|
  {
    if |a| > 0 && |b| > 0 && a[0] == b[0] {
      LexTotal(a[1..], b[1..]);
      if a[1..] == b[1..] {
        assert a == [a[0]] + a[1..] && b == [b[0]] + b[1..];
      }
    }
  }

  /** `<` on strings is irreflexive. */
  lemma {:induction false} LexLtIrreflexive(a: string)
    ensures !LexLt(a, a)
    decreases |a|
  {
    if |a| > 0 {
      LexLtIrreflexive(a[1..]);
    }
  }
}
