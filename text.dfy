/**
 * Text helpers of the worker: the decimal rendering JavaScript gives an
 * integer (`String(n)`, `n.toString()`) and the global literal replacement
 * `result.replace(new RegExp(pattern, 'g'), value)` performed by
 * `replaceVariables`.
 */
module Text {

  predicate IsDigit(c: char) {
    '0' <= c <= '9'
  }

  predicate AllDigits(s: string) {
    forall i :: 0 <= i < |s| ==> IsDigit(s[i])
  }

  function DigitChar(d: nat): (c: char)
    requires d < 10
    ensures IsDigit(c) && c as int - '0' as int == d
  {
    ('0' as int + d) as char
  }

  function DigitValue(c: char): (d: nat)
    requires IsDigit(c)
    ensures d < 10 && DigitChar(d) == c
  {
    c as int - '0' as int
  }

  /** Decimal text of a non-negative integer, as `String(n)` prints it. */
  function NatToString(n: nat): (s: string)
    ensures |s| >= 1 && AllDigits(s)
    ensures (|s| == 1) == (n < 10)
    ensures s[0] == '0' ==> n == 0
    decreases n
  {
    if n < 10 then [DigitChar(n)] else NatToString(n / 10) + [DigitChar(n % 10)]
  }

  /** Reads decimal digits back; the inverse of NatToString. */
  function ParseDigits(s: string): nat
    requires AllDigits(s)
    decreases |s|
  {
    if s == [] then 0 else ParseDigits(s[..|s| - 1]) * 10 + DigitValue(s[|s| - 1])
  }

  /** Decimal text of an integer, with a leading '-' for negative values. */
  function IntToString(i: int): (s: string)
    ensures |s| >= 1
    ensures i >= 0 ==> s == NatToString(i)
    ensures i < 0 ==> s[0] == '-' && s[1..] == NatToString(-i)
  {
    if i < 0 then "-" + NatToString(-i) else NatToString(i)
  }

  lemma {:induction false} ParseNatToString(n: nat)
    ensures ParseDigits(NatToString(n)) == n
    decreases n
  {
    var s := NatToString(n);
    if n >= 10 {
      ParseNatToString(n / 10);
      assert s[..|s| - 1] == NatToString(n / 10);
    }
  }

  /** Every number below `n` reads back from its decimal text. */
  lemma ParseNatToStringBelow(n: nat)
    ensures forall i: nat :: i < n ==> ParseDigits(NatToString(i)) == i
  {
    forall i: nat | i < n ensures ParseDigits(NatToString(i)) == i {
      ParseNatToString(i);
    }
  }

  /** Distinct numbers print as distinct texts: array indices become distinct keys. */
  lemma NatToStringInjective(a: nat, b: nat)
    ensures NatToString(a) == NatToString(b) ==> a == b
  {
    ParseNatToString(a);
    ParseNatToString(b);
  }

  // ---------------------------------------------------------------------
  // Literal global replacement.

  /** `pat` occurs in `s` starting at index `i`. */
  predicate MatchAt(s: string, pat: string, i: int) {
    0 <= i && i + |pat| <= |s| && s[i..i + |pat|] == pat
  }

  predicate Occurs(s: string, pat: string) {
    exists i | 0 <= i <= |s| - |pat| :: MatchAt(s, pat, i)
  }

  /**
   * Replaces, scanning left to right, every non-overlapping occurrence of
   * `pat` by `v`; after a replacement the scan resumes behind the match, as
   * a global regular expression whose source has no special characters does.
   */
  function ReplaceAll(s: string, pat: string, v: string): string
    requires pat != []
    decreases |s|
  {
    if |s| < |pat| then s
    else if s[..|pat|] == pat then v + ReplaceAll(s[|pat|..], pat, v)
    else [s[0]] + ReplaceAll(s[1..], pat, v)
  }

  /** Text without an occurrence of the pattern comes back unchanged. */
  lemma {:induction false} ReplaceAllNoMatch(s: string, pat: string, v: string)
    requires pat != []
    requires !Occurs(s, pat)
    ensures ReplaceAll(s, pat, v) == s
    decreases |s|
  {
    if |s| >= |pat| {
      assert !MatchAt(s, pat, 0);
      assert s[..|pat|] != pat;
      forall i ensures !MatchAt(s[1..], pat, i) {
        if MatchAt(s[1..], pat, i) {
          assert s[1..][i..i + |pat|] == s[i + 1..i + 1 + |pat|];
          assert MatchAt(s, pat, i + 1);
        }
      }
      ReplaceAllNoMatch(s[1..], pat, v);
      assert s == [s[0]] + s[1..];
    }
  }

  /** Replacing a pattern by itself changes nothing. */
  lemma {:induction false} ReplaceAllSelf(s: string, pat: string)
    requires pat != []
    ensures ReplaceAll(s, pat, pat) == s
    decreases |s|
  {
    if |s| >= |pat| {
      if s[..|pat|] == pat {
        ReplaceAllSelf(s[|pat|..], pat);
        assert s == s[..|pat|] + s[|pat|..];
      } else {
        ReplaceAllSelf(s[1..], pat);
        assert s == [s[0]] + s[1..];
      }
    }
  }

  /** Text at the front in which no occurrence starts is copied unchanged. */
  lemma {:induction false} ReplaceAllSkip(a: string, b: string, pat: string, v: string)
    requires pat != []
    requires forall i :: 0 <= i < |a| ==> !MatchAt(a + b, pat, i)
    ensures ReplaceAll(a + b, pat, v) == a + ReplaceAll(b, pat, v)
    decreases |a|
  {
    if a != [] {
      var s := a + b;
      assert !MatchAt(s, pat, 0);
      if |s| >= |pat| {
        assert s[..|pat|] != pat;
        assert s[1..] == a[1..] + b;
        forall i | 0 <= i < |a[1..]| ensures !MatchAt(a[1..] + b, pat, i) {
          if MatchAt(a[1..] + b, pat, i) {
            assert s[1..][i..i + |pat|] == s[i + 1..i + 1 + |pat|];
            assert MatchAt(s, pat, i + 1);
          }
        }
        ReplaceAllSkip(a[1..], b, pat, v);
        calc {
          ReplaceAll(s, pat, v);
          [s[0]] + ReplaceAll(s[1..], pat, v);
          [a[0]] + (a[1..] + ReplaceAll(b, pat, v));
          { assert a == [a[0]] + a[1..]; }
          a + ReplaceAll(b, pat, v);
        }
      } else {
        // Too short for any occurrence: both sides are the text itself.
        assert |b| < |pat|;
        assert ReplaceAll(b, pat, v) == b;
        assert ReplaceAll(s, pat, v) == s;
      }
    } else {
      assert a + b == b;
    }
  }

  /**
   * The leftmost occurrence is replaced and the scan resumes right behind it:
   * if no occurrence of `pat` starts inside `a`, then `a + pat + b` becomes
   * `a + v` followed by the replacement of `b`.
   */
  lemma ReplaceAllLeftmost(a: string, b: string, pat: string, v: string)
    requires pat != []
    requires forall i :: 0 <= i < |a| ==> !MatchAt(a + pat + b, pat, i)
    ensures ReplaceAll(a + pat + b, pat, v) == a + v + ReplaceAll(b, pat, v)
  {
    assert a + pat + b == a + (pat + b);
    ReplaceAllSkip(a, pat + b, pat, v);
    assert (pat + b)[..|pat|] == pat;
    assert (pat + b)[|pat|..] == b;
  }
}
