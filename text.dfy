/**
 * Python string operations the pipeline relies on, with the semantics of
 * CPython's `str` methods, `re.sub` and `posixpath`.
 */
module Text {

  predicate StartsWith(s: string, p: string) {
    |p| <= |s| && s[..|p|] == p
  }

  predicate EndsWith(s: string, p: string) {
    |p| <= |s| && s[|s| - |p|..] == p
  }

  /** Python's `p in s` for two strings. */
  predicate Contains(s: string, p: string)
    decreases |s|
  {
    StartsWith(s, p) || (|s| > 0 && Contains(s[1..], p))
  }

  lemma {:induction false} ContainsChar(s: string, p: string, c: char)
    requires Contains(s, p) && c in p
    ensures c in s
  {
    if StartsWith(s, p) {
      assert p == s[..|p|];
    } else {
      ContainsChar(s[1..], p, c);
    }
  }

  lemma {:induction false} CharContains(s: string, c: char)
    requires c !in s
    ensures !Contains(s, [c])
  {
    if |s| > 0 {
      assert s[0] in s;
      assert !StartsWith(s, [c]);
      CharContains(s[1..], c);
    }
  }

  /**
   * `s.replace(pat, rep)`, which is also `re.sub(pat, rep, s)` for a pattern
   * without metacharacters: occurrences are found left to right and do not
   * overlap.
   */
  function ReplaceAll(s: string, pat: string, rep: string): string
    requires |pat| > 0
    decreases |s|
  {
    if StartsWith(s, pat) then rep + ReplaceAll(s[|pat|..], pat, rep)
    else if |s| == 0 then ""
    else [s[0]] + ReplaceAll(s[1..], pat, rep)
  }

  /** Replacing a pattern that does not occur leaves the text unchanged. */
  lemma {:induction false} ReplaceAbsent(s: string, pat: string, rep: string)
    requires |pat| > 0 && !Contains(s, pat)
    ensures ReplaceAll(s, pat, rep) == s
  {
    if |s| > 0 {
      ReplaceAbsent(s[1..], pat, rep);
    }
  }

  /** A pattern longer than the text does not occur in it. */
  lemma {:induction false} ContainsShorter(s: string, p: string)
    requires |s| < |p|
    ensures !Contains(s, p)
    decreases |s|
  {
    if |s| > 0 {
      ContainsShorter(s[1..], p);
    }
  }

  /** Replacing the whole text by itself as pattern yields the replacement. */
  lemma ReplaceWhole(p: string, rep: string)
    requires |p| > 0
    ensures ReplaceAll(p, p, rep) == rep
  {
    assert StartsWith(p, p);
    assert p[|p|..] == "";
  }

  /** Replacement only brings in characters of the text or of the replacement. */
  lemma {:induction false} ReplaceChars(s: string, pat: string, rep: string)
    requires |pat| > 0
    ensures forall x :: x in ReplaceAll(s, pat, rep) ==> x in s || x in rep
    decreases |s|
  {
    if StartsWith(s, pat) {
      ReplaceChars(s[|pat|..], pat, rep);
      assert forall x :: x in s[|pat|..] ==> x in s;
    } else if |s| > 0 {
      ReplaceChars(s[1..], pat, rep);
      assert forall x :: x in s[1..] ==> x in s;
    }
  }

  /** A character in neither the pattern nor the replacement keeps its count. */
  lemma {:induction false} ReplaceCount(s: string, pat: string, rep: string, x: char)
    requires |pat| > 0 && x !in pat && x !in rep
    ensures multiset(ReplaceAll(s, pat, rep))[x] == multiset(s)[x]
    decreases |s|
  {
    if StartsWith(s, pat) {
      ReplaceCount(s[|pat|..], pat, rep, x);
      assert s == s[..|pat|] + s[|pat|..];
      assert multiset(pat)[x] == 0;
      assert multiset(rep)[x] == 0;
    } else if |s| > 0 {
      ReplaceCount(s[1..], pat, rep, x);
      assert s == [s[0]] + s[1..];
    }
  }

  /** Removing every occurrence of a single character leaves none behind. */
  lemma {:induction false} RemoveChar(s: string, c: char)
    ensures c !in ReplaceAll(s, [c], "")
    decreases |s|
  {
    if StartsWith(s, [c]) {
      RemoveChar(s[1..], c);
    } else if |s| > 0 {
      RemoveChar(s[1..], c);
    }
  }

  /**
   * `re.sub(pat, rep, s)` for a pattern whose only metacharacter is `.`,
   * which matches any character except a newline.
   */
  predicate RegexMatchesAt(s: string, pat: string)
    decreases |pat|
  {
    |pat| == 0 ||
    (|s| > 0 && (if pat[0] == '.' then s[0] != '\n' else s[0] == pat[0]) && RegexMatchesAt(s[1..], pat[1..]))
  }

  lemma {:induction false} RegexMatchLength(s: string, pat: string)
    requires RegexMatchesAt(s, pat)
    ensures |pat| <= |s|
    decreases |pat|
  {
    if |pat| > 0 {
      RegexMatchLength(s[1..], pat[1..]);
    }
  }

  /** Without a `.`, matching at the front is having the pattern as a prefix. */
  lemma {:induction false} RegexMatchLiteral(s: string, pat: string)
    requires '.' !in pat
    ensures RegexMatchesAt(s, pat) <==> StartsWith(s, pat)
    decreases |pat|
  {
    if |pat| > 0 && |s| > 0 {
      assert pat[0] in pat;
      assert forall x :: x in pat[1..] ==> x in pat;
      RegexMatchLiteral(s[1..], pat[1..]);
      assert StartsWith(s, pat) <==> s[0] == pat[0] && StartsWith(s[1..], pat[1..]) by {
        if StartsWith(s, pat) {
          assert s[1..][..|pat| - 1] == s[..|pat|][1..];
        }
        if s[0] == pat[0] && StartsWith(s[1..], pat[1..]) {
          assert s[..|pat|] == [s[0]] + s[1..][..|pat| - 1];
          assert pat == [pat[0]] + pat[1..];
        }
      }
    }
  }

  function RegexReplaceAll(s: string, pat: string, rep: string): string
    requires |pat| > 0
    decreases |s|
  {
    if RegexMatchesAt(s, pat) then
      RegexMatchLength(s, pat);
      rep + RegexReplaceAll(s[|pat|..], pat, rep)
    else if |s| == 0 then ""
    else [s[0]] + RegexReplaceAll(s[1..], pat, rep)
  }

  /** Without a `.` in the pattern, `re.sub` and `str.replace` agree. */
  lemma {:induction false} RegexLiteral(s: string, pat: string, rep: string)
    requires |pat| > 0 && '.' !in pat
    ensures RegexReplaceAll(s, pat, rep) == ReplaceAll(s, pat, rep)
    decreases |s|
  {
    RegexMatchLiteral(s, pat);
    if RegexMatchesAt(s, pat) {
      RegexLiteral(s[|pat|..], pat, rep);
    } else if |s| > 0 {
      RegexLiteral(s[1..], pat, rep);
    }
  }

  /** Python's `a < b` on strings: lexicographic by code point. */
  predicate Less(a: string, b: string)
    decreases |a|
  {
    if |b| == 0 then false
    else if |a| == 0 then true
    else if a[0] != b[0] then a[0] < b[0]
    else Less(a[1..], b[1..])
  }

  lemma {:induction false} LessIrreflexive(a: string)
    ensures !Less(a, a)
    decreases |a|
  {
    if |a| > 0 {
      LessIrreflexive(a[1..]);
    }
  }

  lemma {:induction false} LessTransitive(a: string, b: string, c: string)
    requires Less(a, b) && Less(b, c)
    ensures Less(a, c)
    decreases |a|
  {
    if |a| > 0 && a[0] == b[0] && b[0] == c[0] {
      LessTransitive(a[1..], b[1..], c[1..]);
    }
  }

  lemma {:induction false} LessTotal(a: string, b: string)
    ensures Less(a, b) || a == b || Less(b, a)
    decreases |a|
  {
    if |a| > 0 && |b| > 0 && a[0] == b[0] {
      LessTotal(a[1..], b[1..]);
      if a[1..] == b[1..] {
        assert a == [a[0]] + a[1..] && b == [b[0]] + b[1..];
      }
    }
  }

  lemma LessAsymmetric(a: string, b: string)
    requires Less(a, b)
    ensures !Less(b, a)
  {
    if Less(b, a) {
      LessTransitive(a, b, a);
      LessIrreflexive(a);
    }
  }

  /** Python's "not b < a", the order `sorted` produces. */
  lemma NotLessTransitive(a: string, b: string, c: string)
    requires !Less(b, a) && !Less(c, b)
    ensures !Less(c, a)
  {
    if Less(c, a) {
      LessTotal(c, b);
      if Less(b, c) {
        LessTransitive(b, c, a);
      }
    }
  }

  function DigitChar(d: nat): char
    requires d < 10
  {
    ('0' as int + d) as char
  }

  function NatToString(n: nat): string
    decreases n
  {
    if n < 10 then [DigitChar(n)] else NatToString(n / 10) + [DigitChar(n % 10)]
  }

  /** Python's `str(n)` for an `int`. */
  function IntToString(n: int): string {
    if n < 0 then "-" + NatToString(-n) else NatToString(n)
  }

  /** `posixpath.join(a, b)`. */
  function Join(a: string, b: string): string {
    if StartsWith(b, "/") then b
    else if |a| == 0 || EndsWith(a, "/") then a + b
    else a + "/" + b
  }

  /** `posixpath.join(a, b, c)`. */
  function Join3(a: string, b: string, c: string): string {
    Join(Join(a, b), c)
  }

  /** The tail of `posixpath.split(p)`: everything after the last `/`. */
  function Basename(p: string): (r: string)
    ensures '/' !in r && EndsWith(p, r)
    ensures r == p || EndsWith(p, "/" + r)
    decreases |p|
  {
    if |p| == 0 then ""
    else if p[|p| - 1] == '/' then ""
    else
      var r := Basename(p[..|p| - 1]) + [p[|p| - 1]];
      assert p == p[..|p| - 1] + [p[|p| - 1]];
      r
  }

  /** `s.split(c)[0]`: the text before the first `c`, or all of it. */
  function BeforeFirst(s: string, c: char): (r: string)
    ensures c !in r && StartsWith(s, r)
    ensures r == s || StartsWith(s, r + [c])
    decreases |s|
  {
    if |s| == 0 || s[0] == c then ""
    else [s[0]] + BeforeFirst(s[1..], c)
  }
}
