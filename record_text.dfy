/**
 * What the substitution chain of `get_data_from_description` makes of one
 * whole recording: the recorder's `key=value` shorthand becomes a tuple
 * literal. The chain is followed rule by rule over the text, split into
 * pieces in which no rule can start a match.
 */
module RecordText {
  import opened Basics
  import opened Text
  import opened Description

  /**
   * A field value the chain leaves alone: none of the characters the rules
   * look for (the separators, quotes, backslashes, brackets, `=`, an
   * apostrophe) and no period right before the closing quote.
   */
  predicate Plain(v: string) {
    && ',' !in v && '"' !in v && '\\' !in v && '[' !in v && ']' !in v
    && '\n' !in v && '=' !in v && '\'' !in v
    && (|v| > 0 ==> v[|v| - 1] != '.')
  }

  /**
   * No occurrence of `a` starts inside `u`, whatever follows `u`: the first
   * character of `a` is missing from `u`; or the last one is, and `u` ends
   * on a character outside `a`; or the second one is, and `u` does not end
   * on the first; or, for a two-character `a`, `u` is free of its second
   * character except right before its last one.
   */
  predicate Inert(u: string, a: string) {
    |a| > 0 && (
      || a[0] !in u
      || (|u| > 0 && a[|a| - 1] !in u && u[|u| - 1] !in a)
      || (|a| >= 2 && a[1] !in u && (|u| > 0 ==> u[|u| - 1] != a[0]))
      || (|a| == 2 && a[0] != a[1] && |u| >= 2 && u[|u| - 2] == a[1] && u[|u| - 1] !in a
          && a[1] !in u[..|u| - 2] && (|u| > 2 ==> u[|u| - 3] != a[0])))
  }

  lemma Mismatch(x: string, a: string, j: nat)
    requires j < |a| && (j < |x| ==> x[j] != a[j])
    ensures !StartsWith(x, a)
  {
    if |a| <= |x| {
      assert x[..|a|][j] == x[j];
    }
  }

  lemma InertNoStart(u: string, rest: string, a: string)
    requires Inert(u, a)
    ensures forall i :: 0 <= i < |u| ==> !StartsWith((u + rest)[i..], a)
  {
    var s := u + rest;
    forall i | 0 <= i < |u|
      ensures !StartsWith(s[i..], a)
    {
      assert forall j :: 0 <= j < |u| - i ==> s[i..][j] == u[i + j];
      if a[0] !in u {
        Mismatch(s[i..], a, 0);
      } else if |u| > 0 && a[|a| - 1] !in u && u[|u| - 1] !in a {
        if i + |a| > |u| - 1 {
          Mismatch(s[i..], a, |u| - 1 - i);
        } else {
          Mismatch(s[i..], a, |a| - 1);
        }
      } else if |a| >= 2 && a[1] !in u && (|u| > 0 ==> u[|u| - 1] != a[0]) {
        if u[i] != a[0] {
          Mismatch(s[i..], a, 0);
        } else {
          Mismatch(s[i..], a, 1);
        }
      } else {
        if u[i] != a[0] {
          Mismatch(s[i..], a, 0);
        } else {
          assert u[i + 1] in u[..|u| - 2];
          Mismatch(s[i..], a, 1);
        }
      }
    }
  }

  lemma {:induction false} SubLazySkip(s: string, key: string, t: Option<char>, b: string, a: string, n: nat)
    requires |key| > 0 && n <= |s|
    requires forall i :: 0 <= i < n ==> !StartsWith(s[i..], key)
    ensures SubLazy(s, key, t, b, a) == s[..n] + SubLazy(s[n..], key, t, b, a)
    decreases n
  {
    if n > 0 {
      NoStartFirst(s, key, n);
      NoStartShift(s, key, n);
      SubLazySkip(s[1..], key, t, b, a, n - 1);
      SliceShift(s, n);
    } else {
      assert s[0..] == s;
    }
  }

  lemma {:induction false} ReplaceSkip(s: string, pat: string, rep: string, n: nat)
    requires |pat| > 0 && n <= |s|
    requires forall i :: 0 <= i < n ==> !StartsWith(s[i..], pat)
    ensures ReplaceAll(s, pat, rep) == s[..n] + ReplaceAll(s[n..], pat, rep)
    decreases n
  {
    if n > 0 {
      NoStartFirst(s, pat, n);
      ReplaceStep(s, pat, rep);
      NoStartShift(s, pat, n);
      ReplaceSkip(s[1..], pat, rep, n - 1);
      SliceShift(s, n);
      Assoc([s[0]], s[1..][..n - 1], ReplaceAll(s[n..], pat, rep));
    } else {
      assert s[0..] == s;
    }
  }

  lemma ReplaceStep(s: string, pat: string, rep: string)
    requires |pat| > 0 && |s| > 0 && !StartsWith(s, pat)
    ensures ReplaceAll(s, pat, rep) == [s[0]] + ReplaceAll(s[1..], pat, rep)
  {
  }

  lemma Assoc(x: string, y: string, z: string)
    ensures x + (y + z) == (x + y) + z
  {
  }

  lemma NoStartFirst(s: string, p: string, n: nat)
    requires 0 < n <= |s|
    requires forall i :: 0 <= i < n ==> !StartsWith(s[i..], p)
    ensures !StartsWith(s, p)
  {
    assert s[0..] == s;
  }

  lemma NoStartShift(s: string, p: string, n: nat)
    requires 0 < n <= |s|
    requires forall i :: 0 <= i < n ==> !StartsWith(s[i..], p)
    ensures forall i :: 0 <= i < n - 1 ==> !StartsWith(s[1..][i..], p)
  {
    assert forall i :: 0 <= i < n - 1 ==> s[1..][i..] == s[i + 1..];
  }

  lemma SliceShift(s: string, n: nat)
    requires 0 < n <= |s|
    ensures s[..n] + s[n..] == s
    ensures [s[0]] + (s[1..][..n - 1] + s[1..][n - 1..]) == s[..n] + s[n..]
    ensures s[1..][n - 1..] == s[n..] && [s[0]] + s[1..][..n - 1] == s[..n]
  {
  }

  /** A rule passes over a piece in which none of its matches can start. */
  lemma ApplySkip(r: Rule, u: string, rest: string)
    requires WellFormed(r) && Inert(u, Anchor(r))
    ensures Apply(r, u + rest) == u + Apply(r, rest)
  {
    InertNoStart(u, rest, Anchor(r));
    var s := u + rest;
    assert s[..|u|] == u;
    assert s[|u|..] == rest;
    match r
    case Literal(p, rep) => ReplaceSkip(s, p, rep, |u|);
    case Lazy(k, t, b, a) => SubLazySkip(s, k, t, b, a, |u|);
  }

  /** A rule whose anchor has a character the text lacks leaves the text alone. */
  lemma AbsentBy(r: Rule, s: string, c: char)
    requires WellFormed(r) && c in Anchor(r) && c !in s
    ensures Apply(r, s) == s
  {
    if Contains(s, Anchor(r)) {
      ContainsChar(s, Anchor(r), c);
    }
    ApplyAbsent(r, s);
  }

  lemma ApplyEmpty(r: Rule)
    requires WellFormed(r)
    ensures Apply(r, "") == ""
  {
  }

  /** `name=v` followed by the terminator `t`, then the rest of the text. */
  function Raw(name: string, v: string, t: char, rest: string): string {
    name + ("=" + ((v + [t]) + rest))
  }

  /** A quoted value `"v` with its closing text, then the rest of the text. */
  function Quoted(v: string, close: string, rest: string): string {
    "\"" + ((v + close) + rest)
  }

  lemma SkipRaw(r: Rule, name: string, v: string, t: char, rest: string)
    requires WellFormed(r) && Anchor(r)[0] != '='
    requires Inert(name, Anchor(r)) && Inert(v + [t], Anchor(r))
    ensures Apply(r, Raw(name, v, t, rest)) == Raw(name, v, t, Apply(r, rest))
  {
    ApplySkip(r, name, "=" + ((v + [t]) + rest));
    ApplySkip(r, "=", (v + [t]) + rest);
    ApplySkip(r, v + [t], rest);
  }

  lemma SkipQuoted(r: Rule, v: string, close: string, rest: string)
    requires WellFormed(r) && Anchor(r)[0] != '"' && Inert(v + close, Anchor(r))
    ensures Apply(r, Quoted(v, close, rest)) == Quoted(v, close, Apply(r, rest))
  {
    ApplySkip(r, "\"", (v + close) + rest);
    ApplySkip(r, v + close, rest);
  }

  /** The rule for `name=` rewrites that field and goes on after its terminator. */
  lemma QuoteField(r: Rule, name: string, v: string, rest: string)
    requires r.Lazy? && r.terminator.Some? && r.key == name + "=" && |r.key| > 0
    requires r.terminator.value !in v && '\n' !in v
    ensures Apply(r, Raw(name, v, r.terminator.value, rest))
         == r.before + ((v + r.after) + Apply(r, rest))
  {
    var t := r.terminator.value;
    assert Raw(name, v, t, rest) == r.key + v + [t] + rest;
    LazyQuotes(r.key, t, r.before, r.after, v, rest);
  }

  /** A lazy rule without terminator deletes `name=`. */
  lemma DeleteField(r: Rule, name: string, rest: string)
    requires r == Lazy(name + "=", None, "", "")
    ensures Apply(r, name + ("=" + rest)) == Apply(r, rest)
  {
    var s := name + ("=" + rest);
    assert s[..|r.key|] == r.key;
    assert s[|r.key|..] == rest;
  }

  lemma ApplyAllFrom(rules: seq<Rule>, k: nat, s: string)
    requires forall j :: 0 <= j < |rules| ==> WellFormed(rules[j])
    requires k < |rules|
    ensures ApplyAll(rules[k..], s) == ApplyAll(rules[k + 1..], Apply(rules[k], s))
  {
    assert rules[k..][0] == rules[k];
    assert rules[k..][1..] == rules[k + 1..];
  }

  /** `p in s` holds wherever `p` sits in the text. */
  lemma {:induction false} ContainsAt(x: string, p: string, y: string)
    ensures Contains(x + (p + y), p)
    decreases |x|
  {
    if |x| == 0 {
      assert x + (p + y) == p + y;
      assert (p + y)[..|p|] == p;
    } else {
      ContainsAt(x[1..], p, y);
      assert (x + (p + y))[1..] == x[1..] + (p + y);
    }
  }

  // The current schema: `(file=F,videoStart=A,signStart=B,signEnd=C,isValid=V,attempt=N)`.

  function Q(v: string, rest: string): string { Quoted(v, "\",", rest) }

  function Current0(f: string, a: string, b: string, c: string, v: string, n: string): string {
    "(" + Raw("file", f, ',', Raw("videoStart", a, ',', Raw("signStart", b, ',',
            Raw("signEnd", c, ',', Raw("isValid", v, ',', Raw("attempt", n, ')', ""))))))
  }

  function Current1(f: string, a: string, b: string, c: string, v: string, n: string): string {
    "(" + Q(f, Raw("videoStart", a, ',', Raw("signStart", b, ',',
            Raw("signEnd", c, ',', Raw("isValid", v, ',', Raw("attempt", n, ')', ""))))))
  }

  function Current2(f: string, a: string, b: string, c: string, v: string, n: string): string {
    "(" + Q(f, Q(a, Raw("signStart", b, ',',
            Raw("signEnd", c, ',', Raw("isValid", v, ',', Raw("attempt", n, ')', ""))))))
  }

  function Current3(f: string, a: string, b: string, c: string, v: string, n: string): string {
    "(" + Q(f, Q(a, Q(b, Raw("signEnd", c, ',', Raw("isValid", v, ',', Raw("attempt", n, ')', ""))))))
  }

  function Current4(f: string, a: string, b: string, c: string, v: string, n: string): string {
    "(" + Q(f, Q(a, Q(b, Q(c, Raw("isValid", v, ',', Raw("attempt", n, ')', ""))))))
  }

  function Current5(f: string, a: string, b: string, c: string, v: string, n: string): string {
    "(" + Q(f, Q(a, Q(b, Q(c, (v + ",") + Raw("attempt", n, ')', "")))))
  }

  function Current6(f: string, a: string, b: string, c: string, v: string, n: string): string {
    "(" + Q(f, Q(a, Q(b, Q(c, (v + ",") + ((n + ")") + "")))))
  }

  lemma InertDotQuote(v: string, close: string)
    requires Plain(v) && (close == "\"," || close == "\")")
    ensures Inert(v + close, ".\"")
  {
    var u := v + close;
    assert u[..|u| - 2] == v;
    assert u[|u| - 2] == '"' && u[|u| - 1] == close[1];
    if |u| > 2 {
      assert u[|u| - 3] == v[|v| - 1];
    }
  }

  /** The shape of the `name=` anchors of the lazy rules. */
  predicate LazyKey(key: string) {
    && |key| > 0 && key[|key| - 1] == '=' && key[0] != '=' && key[0] != '"'
    && ',' !in key && ')' !in key && '"' !in key
  }

  /** A plain value with any of its field closers is inert for every lazy rule. */
  lemma ValueInert(v: string, key: string)
    requires Plain(v) && LazyKey(key)
    ensures Inert(v + [','], key) && Inert(v + [')'], key)
    ensures Inert(v + "\",", key) && Inert(v + "\")", key)
  {
    assert (v + [',']) [|v| ] == ',';
    assert (v + [')']) [|v|] == ')';
    assert (v + "\",")[|v| + 1] == ',';
    assert (v + "\")")[|v| + 1] == ')';
  }

  /** The chain for a description that mentions `isValid`, written out. */
  lemma CurrentChain()
    ensures Chain(true) == [
      Lazy("file=", Some(','), "\"", "\","), Lazy("videoStart=", Some(','), "\"", "\","),
      Lazy("signStart=", Some(','), "\"", "\","), Lazy("signEnd=", Some(','), "\"", "\","),
      Lazy("isValid=", Some(','), "", ","),
      Literal("\\/", "/"), Literal("\"[", "["), Literal("]\"", "]"), Literal("\\r", ""),
      Literal(".\"", "\""), Lazy("attempt=", None, "", ""), Lazy("isValid=", None, "", ""),
      Literal("pet's name", "pets name"), Literal("don't", "dont")]
  {
  }

  /** The chain for a legacy description, written out. */
  lemma LegacyChain()
    ensures Chain(false) == [
      Lazy("file=", Some(','), "\"", "\","), Lazy("videoStart=", Some(','), "\"", "\","),
      Lazy("signStart=", Some(','), "\"", "\","), Lazy("signEnd=", Some(','), "\"", "\")"),
      Literal("\\/", "/"), Literal("\"[", "["), Literal("]\"", "]"), Literal("\\r", ""),
      Literal(".\"", "\""), Lazy("attempt=", None, "", ""), Lazy("isValid=", None, "", ""),
      Literal("pet's name", "pets name"), Literal("don't", "dont")]
  {
  }

  lemma Keys()
    ensures LazyKey("file=") && LazyKey("videoStart=") && LazyKey("signStart=")
    ensures LazyKey("signEnd=") && LazyKey("isValid=") && LazyKey("attempt=")
  {
  }

  /** The field names each rule passes over, split where a name shares characters with the anchor. */
  lemma FileNames()
    ensures Inert("(", "file=") && Inert("videoStart", "file=") && Inert("signStart", "file=")
    ensures Inert("signEnd", "file=") && Inert("isValid", "file=") && Inert("attempt", "file=")
  {
  }

  lemma VideoStartNames()
    ensures Inert("(", "videoStart=") && Inert("signStart", "videoStart=") && Inert("signEnd", "videoStart=")
    ensures Inert("isValid", "videoStart=") && Inert("attempt", "videoStart=")
  {
  }

  lemma SignStartNames()
    ensures Inert("(", "signStart=") && Inert("signEnd", "signStart=")
    ensures Inert("isValid", "signStart=") && Inert("attempt", "signStart=")
  {
  }

  lemma SignEndNames()
    ensures Inert("(", "signEnd=") && Inert("isVal", "signEnd=") && Inert("id", "signEnd=")
    ensures Inert("attempt", "signEnd=")
  {
  }

  lemma OtherNames()
    ensures Inert("(", "isValid=") && Inert("attempt", "isValid=") && Inert("(", "attempt=")
    ensures Inert("(", ".\"") && Inert("attempt", ".\"")
  {
  }

  // Rules passing over the raw fields that follow the one they rewrite.

  predicate Passes(r: Rule, name: string, v: string, t: char)
    requires WellFormed(r)
  {
    Anchor(r)[0] != '=' && Inert(name, Anchor(r)) && Inert(v + [t], Anchor(r))
  }

  /** The last raw field of a record. */
  lemma KeepLast(r: Rule, name: string, v: string, t: char)
    requires WellFormed(r) && Passes(r, name, v, t)
    ensures Apply(r, Raw(name, v, t, "")) == Raw(name, v, t, "")
  {
    SkipRaw(r, name, v, t, "");
  }

  /** The last two raw fields of a record. */
  lemma KeepTwo(r: Rule, n1: string, v1: string, t1: char, n2: string, v2: string, t2: char)
    requires WellFormed(r) && Passes(r, n1, v1, t1) && Passes(r, n2, v2, t2)
    ensures var t := Raw(n1, v1, t1, Raw(n2, v2, t2, "")); Apply(r, t) == t
  {
    SkipRaw(r, n1, v1, t1, Raw(n2, v2, t2, ""));
    KeepLast(r, n2, v2, t2);
  }

  /** The last three raw fields of a record. */
  lemma KeepThree(r: Rule, n1: string, v1: string, t1: char, n2: string, v2: string, t2: char,
                  n3: string, v3: string, t3: char)
    requires WellFormed(r) && Passes(r, n1, v1, t1) && Passes(r, n2, v2, t2) && Passes(r, n3, v3, t3)
    ensures var t := Raw(n1, v1, t1, Raw(n2, v2, t2, Raw(n3, v3, t3, ""))); Apply(r, t) == t
  {
    SkipRaw(r, n1, v1, t1, Raw(n2, v2, t2, Raw(n3, v3, t3, "")));
    KeepTwo(r, n2, v2, t2, n3, v3, t3);
  }

  lemma KeepSignStart(r: Rule, b: string, c: string, v: string, n: string)
    requires WellFormed(r) && Passes(r, "signStart", b, ',') && Passes(r, "signEnd", c, ',')
    requires Passes(r, "isValid", v, ',') && Passes(r, "attempt", n, ')')
    ensures var t := Raw("signStart", b, ',', Raw("signEnd", c, ',',
                       Raw("isValid", v, ',', Raw("attempt", n, ')', ""))));
      Apply(r, t) == t
  {
    SkipRaw(r, "signStart", b, ',', Raw("signEnd", c, ',', Raw("isValid", v, ',', Raw("attempt", n, ')', ""))));
    KeepThree(r, "signEnd", c, ',', "isValid", v, ',', "attempt", n, ')');
  }

  lemma KeepVideoStart(r: Rule, a: string, b: string, c: string, v: string, n: string)
    requires WellFormed(r) && Passes(r, "videoStart", a, ',') && Passes(r, "signStart", b, ',')
    requires Passes(r, "signEnd", c, ',') && Passes(r, "isValid", v, ',') && Passes(r, "attempt", n, ')')
    ensures var t := Raw("videoStart", a, ',', Raw("signStart", b, ',', Raw("signEnd", c, ',',
                       Raw("isValid", v, ',', Raw("attempt", n, ')', "")))));
      Apply(r, t) == t
  {
    SkipRaw(r, "videoStart", a, ',', Raw("signStart", b, ',', Raw("signEnd", c, ',',
                                     Raw("isValid", v, ',', Raw("attempt", n, ')', "")))));
    KeepSignStart(r, b, c, v, n);
  }

  // Rules passing over the fields already rewritten.

  lemma KeepQuoted1(r: Rule, f: string, close: string, rest: string)
    requires WellFormed(r) && Anchor(r)[0] != '"' && Inert("(", Anchor(r)) && Inert(f + close, Anchor(r))
    ensures Apply(r, "(" + Quoted(f, close, rest)) == "(" + Quoted(f, close, Apply(r, rest))
  {
    ApplySkip(r, "(", Quoted(f, close, rest));
    SkipQuoted(r, f, close, rest);
  }

  lemma KeepQuoted2(r: Rule, f: string, a: string, rest: string)
    requires WellFormed(r) && Anchor(r)[0] != '"' && Inert("(", Anchor(r))
    requires Inert(f + "\",", Anchor(r)) && Inert(a + "\",", Anchor(r))
    ensures Apply(r, "(" + Q(f, Q(a, rest))) == "(" + Q(f, Q(a, Apply(r, rest)))
  {
    KeepQuoted1(r, f, "\",", Q(a, rest));
    SkipQuoted(r, a, "\",", rest);
  }

  lemma KeepQuoted3(r: Rule, f: string, a: string, b: string, rest: string)
    requires WellFormed(r) && Anchor(r)[0] != '"' && Inert("(", Anchor(r))
    requires Inert(f + "\",", Anchor(r)) && Inert(a + "\",", Anchor(r)) && Inert(b + "\",", Anchor(r))
    ensures Apply(r, "(" + Q(f, Q(a, Q(b, rest)))) == "(" + Q(f, Q(a, Q(b, Apply(r, rest))))
  {
    KeepQuoted2(r, f, a, Q(b, rest));
    SkipQuoted(r, b, "\",", rest);
  }

  lemma KeepQuoted4(r: Rule, f: string, a: string, b: string, c: string, close: string, rest: string)
    requires WellFormed(r) && Anchor(r)[0] != '"' && Inert("(", Anchor(r))
    requires Inert(f + "\",", Anchor(r)) && Inert(a + "\",", Anchor(r)) && Inert(b + "\",", Anchor(r))
    requires Inert(c + close, Anchor(r))
    ensures Apply(r, "(" + Q(f, Q(a, Q(b, Quoted(c, close, rest)))))
         == "(" + Q(f, Q(a, Q(b, Quoted(c, close, Apply(r, rest)))))
  {
    KeepQuoted3(r, f, a, b, Quoted(c, close, rest));
    SkipQuoted(r, c, close, rest);
  }

  // The current schema, one rule at a time.

  lemma CurrentFile(r: Rule, f: string, a: string, b: string, c: string, v: string, n: string)
    requires r == Lazy("file=", Some(','), "\"", "\",")
    requires Plain(f) && Plain(a) && Plain(b) && Plain(c) && Plain(v) && Plain(n)
    ensures Apply(r, Current0(f, a, b, c, v, n)) == Current1(f, a, b, c, v, n)
  {
    Keys();
    FileNames();
    ValueInert(a, "file=");
    ValueInert(b, "file=");
    ValueInert(c, "file=");
    ValueInert(v, "file=");
    ValueInert(n, "file=");
    var t0 := Raw("videoStart", a, ',', Raw("signStart", b, ',', Raw("signEnd", c, ',',
                Raw("isValid", v, ',', Raw("attempt", n, ')', "")))));
    ApplySkip(r, "(", Raw("file", f, ',', t0));
    QuoteField(r, "file", f, t0);
    KeepVideoStart(r, a, b, c, v, n);
  }

  lemma CurrentVideoStart(r: Rule, f: string, a: string, b: string, c: string, v: string, n: string)
    requires r == Lazy("videoStart=", Some(','), "\"", "\",")
    requires Plain(f) && Plain(a) && Plain(b) && Plain(c) && Plain(v) && Plain(n)
    ensures Apply(r, Current1(f, a, b, c, v, n)) == Current2(f, a, b, c, v, n)
  {
    Keys();
    VideoStartNames();
    ValueInert(f, "videoStart=");
    ValueInert(b, "videoStart=");
    ValueInert(c, "videoStart=");
    ValueInert(v, "videoStart=");
    ValueInert(n, "videoStart=");
    var t1 := Raw("signStart", b, ',', Raw("signEnd", c, ',', Raw("isValid", v, ',', Raw("attempt", n, ')', ""))));
    KeepQuoted1(r, f, "\",", Raw("videoStart", a, ',', t1));
    QuoteField(r, "videoStart", a, t1);
    KeepSignStart(r, b, c, v, n);
  }

  lemma CurrentSignStart(r: Rule, f: string, a: string, b: string, c: string, v: string, n: string)
    requires r == Lazy("signStart=", Some(','), "\"", "\",")
    requires Plain(f) && Plain(a) && Plain(b) && Plain(c) && Plain(v) && Plain(n)
    ensures Apply(r, Current2(f, a, b, c, v, n)) == Current3(f, a, b, c, v, n)
  {
    Keys();
    SignStartNames();
    ValueInert(f, "signStart=");
    ValueInert(a, "signStart=");
    ValueInert(c, "signStart=");
    ValueInert(v, "signStart=");
    ValueInert(n, "signStart=");
    var t2 := Raw("signEnd", c, ',', Raw("isValid", v, ',', Raw("attempt", n, ')', "")));
    KeepQuoted2(r, f, a, Raw("signStart", b, ',', t2));
    QuoteField(r, "signStart", b, t2);
    KeepThree(r, "signEnd", c, ',', "isValid", v, ',', "attempt", n, ')');
  }

  lemma CurrentSignEnd(r: Rule, f: string, a: string, b: string, c: string, v: string, n: string)
    requires r == Lazy("signEnd=", Some(','), "\"", "\",")
    requires Plain(f) && Plain(a) && Plain(b) && Plain(c) && Plain(v) && Plain(n)
    ensures Apply(r, Current3(f, a, b, c, v, n)) == Current4(f, a, b, c, v, n)
  {
    Keys();
    SignEndNames();
    ValueInert(f, "signEnd=");
    ValueInert(a, "signEnd=");
    ValueInert(b, "signEnd=");
    ValueInert(v, "signEnd=");
    ValueInert(n, "signEnd=");
    var t3 := Raw("isValid", v, ',', Raw("attempt", n, ')', ""));
    KeepQuoted3(r, f, a, b, Raw("signEnd", c, ',', t3));
    QuoteField(r, "signEnd", c, t3);
    KeepIsValidSplit(r, v, n);
  }

  /** `isValid` shares `i`, `s` and `d` with `signEnd=`, so it is passed in two pieces. */
  lemma KeepIsValidSplit(r: Rule, v: string, n: string)
    requires WellFormed(r) && Passes(r, "id", v, ',') && Passes(r, "attempt", n, ')')
    requires Inert("isVal", Anchor(r))
    ensures var t := Raw("isValid", v, ',', Raw("attempt", n, ')', "")); Apply(r, t) == t
  {
    var t4 := Raw("attempt", n, ')', "");
    assert Raw("isValid", v, ',', t4) == "isVal" + Raw("id", v, ',', t4);
    ApplySkip(r, "isVal", Raw("id", v, ',', t4));
    SkipRaw(r, "id", v, ',', t4);
    KeepLast(r, "attempt", n, ')');
  }

  lemma CurrentIsValid(r: Rule, f: string, a: string, b: string, c: string, v: string, n: string)
    requires r == Lazy("isValid=", Some(','), "", ",")
    requires Plain(f) && Plain(a) && Plain(b) && Plain(c) && Plain(v) && Plain(n)
    ensures Apply(r, Current4(f, a, b, c, v, n)) == Current5(f, a, b, c, v, n)
  {
    Keys();
    OtherNames();
    ValueInert(f, "isValid=");
    ValueInert(a, "isValid=");
    ValueInert(b, "isValid=");
    ValueInert(c, "isValid=");
    ValueInert(n, "isValid=");
    var t4 := Raw("attempt", n, ')', "");
    var x := Raw("isValid", v, ',', t4);
    assert Current4(f, a, b, c, v, n) == "(" + Q(f, Q(a, Q(b, Quoted(c, "\",", x))));
    KeepQuoted4(r, f, a, b, c, "\",", x);
    QuoteField(r, "isValid", v, t4);
    KeepLast(r, "attempt", n, ')');
    assert Apply(r, x) == (v + ",") + t4;
  }

  lemma LacksQ(ch: char, v: string, rest: string)
    requires ch !in v && ch !in rest && ch != '"' && ch != ','
    ensures ch !in Q(v, rest)
  {
  }

  /** A character outside every value and every piece of punctuation is not in the record. */
  lemma Current5Lacks(ch: char, f: string, a: string, b: string, c: string, v: string, n: string)
    requires ch !in f && ch !in a && ch !in b && ch !in c && ch !in v && ch !in n
    requires ch !in "(\",)=attempt"
    ensures ch !in Current5(f, a, b, c, v, n)
  {
    var t4 := Raw("attempt", n, ')', "");
    assert ch !in t4;
    var x := (v + ",") + t4;
    LacksQ(ch, c, x);
    LacksQ(ch, b, Q(c, x));
    LacksQ(ch, a, Q(b, Q(c, x)));
    LacksQ(ch, f, Q(a, Q(b, Q(c, x))));
  }

  /** The fixed-text rules but the period one find nothing in the rewritten fields. */
  lemma CurrentLiterals(f: string, a: string, b: string, c: string, v: string, n: string)
    requires Plain(f) && Plain(a) && Plain(b) && Plain(c) && Plain(v) && Plain(n)
    ensures var s := Current5(f, a, b, c, v, n);
      && Apply(Literal("\\/", "/"), s) == s && Apply(Literal("\"[", "["), s) == s
      && Apply(Literal("]\"", "]"), s) == s && Apply(Literal("\\r", ""), s) == s
  {
    var s := Current5(f, a, b, c, v, n);
    Current5Lacks('\\', f, a, b, c, v, n);
    Current5Lacks('[', f, a, b, c, v, n);
    Current5Lacks(']', f, a, b, c, v, n);
    AbsentBy(Literal("\\/", "/"), s, '\\');
    AbsentBy(Literal("\"[", "["), s, '[');
    AbsentBy(Literal("]\"", "]"), s, ']');
    AbsentBy(Literal("\\r", ""), s, '\\');
  }

  lemma CurrentPeriod(r: Rule, f: string, a: string, b: string, c: string, v: string, n: string)
    requires r == Literal(".\"", "\"")
    requires Plain(f) && Plain(a) && Plain(b) && Plain(c) && Plain(v) && Plain(n)
    ensures Apply(r, Current5(f, a, b, c, v, n)) == Current5(f, a, b, c, v, n)
  {
    OtherNames();
    InertDotQuote(f, "\",");
    InertDotQuote(a, "\",");
    InertDotQuote(b, "\",");
    InertDotQuote(c, "\",");
    var t4 := Raw("attempt", n, ')', "");
    KeepQuoted4(r, f, a, b, c, "\",", (v + ",") + t4);
    assert (v + ",")[|v|] == ',';
    ApplySkip(r, v + ",", t4);
    assert (n + [')'])[|n|] == ')';
    KeepLast(r, "attempt", n, ')');
  }

  lemma CurrentAttempt(r: Rule, f: string, a: string, b: string, c: string, v: string, n: string)
    requires r == Lazy("attempt=", None, "", "")
    requires Plain(f) && Plain(a) && Plain(b) && Plain(c) && Plain(v) && Plain(n)
    ensures Apply(r, Current5(f, a, b, c, v, n)) == Current6(f, a, b, c, v, n)
  {
    Keys();
    OtherNames();
    ValueInert(f, "attempt=");
    ValueInert(a, "attempt=");
    ValueInert(b, "attempt=");
    ValueInert(c, "attempt=");
    ValueInert(v, "attempt=");
    ValueInert(n, "attempt=");
    var t4 := Raw("attempt", n, ')', "");
    KeepQuoted4(r, f, a, b, c, "\",", (v + ",") + t4);
    ApplySkip(r, v + [','], t4);
    DeleteField(r, "attempt", (n + [')']) + "");
    ApplySkip(r, n + [')'], "");
  }

  lemma Current6Lacks(ch: char, f: string, a: string, b: string, c: string, v: string, n: string)
    requires ch !in f && ch !in a && ch !in b && ch !in c && ch !in v && ch !in n
    requires ch !in "(\",)"
    ensures ch !in Current6(f, a, b, c, v, n)
  {
    var x := (v + ",") + ((n + ")") + "");
    LacksQ(ch, c, x);
    LacksQ(ch, b, Q(c, x));
    LacksQ(ch, a, Q(b, Q(c, x)));
    LacksQ(ch, f, Q(a, Q(b, Q(c, x))));
  }

  /** The rules of the current chain, by position. */
  lemma CurrentRules()
    ensures |Chain(true)| == 14
    ensures Chain(true)[0] == Lazy("file=", Some(','), "\"", "\",")
    ensures Chain(true)[1] == Lazy("videoStart=", Some(','), "\"", "\",")
    ensures Chain(true)[2] == Lazy("signStart=", Some(','), "\"", "\",")
    ensures Chain(true)[3] == Lazy("signEnd=", Some(','), "\"", "\",")
    ensures Chain(true)[4] == Lazy("isValid=", Some(','), "", ",")
    ensures Chain(true)[5] == Literal("\\/", "/") && Chain(true)[6] == Literal("\"[", "[")
    ensures Chain(true)[7] == Literal("]\"", "]") && Chain(true)[8] == Literal("\\r", "")
    ensures Chain(true)[9] == Literal(".\"", "\"")
    ensures Chain(true)[10] == Lazy("attempt=", None, "", "")
    ensures Chain(true)[11] == Lazy("isValid=", None, "", "")
    ensures Chain(true)[12..] == ContractionRules
  {
    CurrentChain();
  }

  /** One rule of a chain applied: the rest of the chain sees its output. */
  lemma Advance(rules: seq<Rule>, k: nat, s: string, t: string)
    requires forall j :: 0 <= j < |rules| ==> WellFormed(rules[j])
    requires k < |rules| && Apply(rules[k], s) == t
    ensures ApplyAll(rules[k..], s) == ApplyAll(rules[k + 1..], t)
  {
    ApplyAllFrom(rules, k, s);
  }

  /** The lazy rules turn the six raw fields of the current schema into a tuple. */
  lemma CurrentFields(f: string, a: string, b: string, c: string, v: string, n: string)
    requires Plain(f) && Plain(a) && Plain(b) && Plain(c) && Plain(v) && Plain(n)
    ensures ApplyAll(Chain(true), Current0(f, a, b, c, v, n))
         == ApplyAll(Chain(true)[5..], Current5(f, a, b, c, v, n))
  {
    var rules := Chain(true);
    CurrentRules();
    assert rules[0..] == rules;
    CurrentFile(rules[0], f, a, b, c, v, n);
    Advance(rules, 0, Current0(f, a, b, c, v, n), Current1(f, a, b, c, v, n));
    CurrentVideoStart(rules[1], f, a, b, c, v, n);
    Advance(rules, 1, Current1(f, a, b, c, v, n), Current2(f, a, b, c, v, n));
    CurrentSignStart(rules[2], f, a, b, c, v, n);
    Advance(rules, 2, Current2(f, a, b, c, v, n), Current3(f, a, b, c, v, n));
    CurrentSignEnd(rules[3], f, a, b, c, v, n);
    Advance(rules, 3, Current3(f, a, b, c, v, n), Current4(f, a, b, c, v, n));
    CurrentIsValid(rules[4], f, a, b, c, v, n);
    Advance(rules, 4, Current4(f, a, b, c, v, n), Current5(f, a, b, c, v, n));
  }

  /** The tuple is left with neither `=` nor an apostrophe. */
  lemma Current6Clean(f: string, a: string, b: string, c: string, v: string, n: string)
    requires Plain(f) && Plain(a) && Plain(b) && Plain(c) && Plain(v) && Plain(n)
    ensures '=' !in Current6(f, a, b, c, v, n) && '\'' !in Current6(f, a, b, c, v, n)
  {
    Current6Lacks('=', f, a, b, c, v, n);
    Current6Lacks('\'', f, a, b, c, v, n);
  }

  /** The fixed-text rules of the current chain, the period one included, change nothing. */
  lemma CurrentLiteralSteps(f: string, a: string, b: string, c: string, v: string, n: string)
    requires Plain(f) && Plain(a) && Plain(b) && Plain(c) && Plain(v) && Plain(n)
    ensures ApplyAll(Chain(true)[5..], Current5(f, a, b, c, v, n))
         == ApplyAll(Chain(true)[10..], Current5(f, a, b, c, v, n))
  {
    var rules := Chain(true);
    var s5 := Current5(f, a, b, c, v, n);
    CurrentRules();
    CurrentLiterals(f, a, b, c, v, n);
    Advance(rules, 5, s5, s5);
    Advance(rules, 6, s5, s5);
    Advance(rules, 7, s5, s5);
    Advance(rules, 8, s5, s5);
    CurrentPeriod(rules[9], f, a, b, c, v, n);
    Advance(rules, 9, s5, s5);
  }

  /** The last rules of the current chain only drop the `attempt=` name. */
  lemma CurrentNameSteps(f: string, a: string, b: string, c: string, v: string, n: string)
    requires Plain(f) && Plain(a) && Plain(b) && Plain(c) && Plain(v) && Plain(n)
    ensures ApplyAll(Chain(true)[10..], Current5(f, a, b, c, v, n)) == Current6(f, a, b, c, v, n)
  {
    var rules := Chain(true);
    var s5 := Current5(f, a, b, c, v, n);
    var s6 := Current6(f, a, b, c, v, n);
    CurrentRules();
    CurrentAttempt(rules[10], f, a, b, c, v, n);
    Advance(rules, 10, s5, s6);
    Current6Clean(f, a, b, c, v, n);
    AbsentBy(rules[11], s6, '=');
    Advance(rules, 11, s6, s6);
    NoApostropheUnchanged(s6);
  }

  // Regrouping the text of a record.

  lemma Regroup(x0: string, x1: string, x2: string, x3: string, x4: string, x5: string, x6: string,
                x7: string, x8: string, x9: string, x10: string, x11: string, x12: string)
    ensures x0 + x1 + x2 + x3 + x4 + x5 + x6 + x7 + x8 + x9 + x10 + x11 + x12
         == x0 + (x1 + (x2 + (x3 + (x4 + (x5 + (x6 + (x7 + (x8 + (x9 + (x10 + (x11 + x12)))))))))))
  {
  }

  /** A value followed by `,name=` and more text is a value with its closer, then a raw field. */
  lemma Link(v: string, t: char, name: string, sep: string, x: string)
    requires sep == [t] + name + "="
    ensures v + (sep + x) == (v + [t]) + (name + ("=" + x))
  {
  }

  lemma Opening(x: string)
    ensures "(file=" + x == "(" + ("file" + ("=" + x))
  {
    assert "(file=" == "(" + "file" + "=";
  }

  /** The raw current-schema description, as the device writes it. */
  lemma CurrentInput(f: string, a: string, b: string, c: string, v: string, n: string)
    ensures "(file=" + f + ",videoStart=" + a + ",signStart=" + b + ",signEnd=" + c
            + ",isValid=" + v + ",attempt=" + n + ")" == Current0(f, a, b, c, v, n)
  {
    Regroup("(file=", f, ",videoStart=", a, ",signStart=", b, ",signEnd=", c,
            ",isValid=", v, ",attempt=", n, ")");
    var z5 := n + ")";
    assert z5 == (n + [')']) + "";
    var z4 := v + (",attempt=" + z5);
    Link(v, ',', "attempt", ",attempt=", z5);
    var z3 := c + (",isValid=" + z4);
    Link(c, ',', "isValid", ",isValid=", z4);
    var z2 := b + (",signEnd=" + z3);
    Link(b, ',', "signEnd", ",signEnd=", z3);
    var z1 := a + (",signStart=" + z2);
    Link(a, ',', "signStart", ",signStart=", z2);
    Link(f, ',', "videoStart", ",videoStart=", z1);
    Opening(f + (",videoStart=" + z1));
  }

  lemma SplitName(x: string, q: string, p: string, e: string, x9: string, x10: string, x11: string, x12: string)
    ensures x + (q + (p + e)) + x9 + x10 + x11 + x12 == (x + q) + (p + (e + x9 + x10 + x11 + x12))
  {
  }

  /** The raw current-schema description mentions `isValid`. */
  lemma CurrentMentions(f: string, a: string, b: string, c: string, v: string, n: string)
    ensures Contains("(file=" + f + ",videoStart=" + a + ",signStart=" + b + ",signEnd=" + c
                     + ",isValid=" + v + ",attempt=" + n + ")", "isValid")
  {
    var x := "(file=" + f + ",videoStart=" + a + ",signStart=" + b + ",signEnd=" + c;
    assert ",isValid=" == "," + ("isValid" + "=");
    SplitName(x, ",", "isValid", "=", v, ",attempt=", n, ")");
    ContainsAt(x + ",", "isValid", "=" + v + ",attempt=" + n + ")");
  }

  /** The tuple literal the evaluator receives for a current-schema description. */
  lemma CurrentOutput(f: string, a: string, b: string, c: string, v: string, n: string)
    ensures Current6(f, a, b, c, v, n)
         == "(\"" + f + "\",\"" + a + "\",\"" + b + "\",\"" + c + "\"," + v + "," + n + ")"
  {
  }

  /**
   * A description of the current schema whose values hold no punctuation
   * becomes the tuple of its six values, the first four quoted, and the
   * schema flag is set.
   */
  lemma RewriteCurrentRecord(f: string, a: string, b: string, c: string, v: string, n: string)
    requires Plain(f) && Plain(a) && Plain(b) && Plain(c) && Plain(v) && Plain(n)
    ensures Rewrite("(file=" + f + ",videoStart=" + a + ",signStart=" + b + ",signEnd=" + c
                    + ",isValid=" + v + ",attempt=" + n + ")")
         == ("(\"" + f + "\",\"" + a + "\",\"" + b + "\",\"" + c + "\"," + v + "," + n + ")", true)
  {
    CurrentInput(f, a, b, c, v, n);
    CurrentMentions(f, a, b, c, v, n);
    CurrentFields(f, a, b, c, v, n);
    CurrentLiteralSteps(f, a, b, c, v, n);
    CurrentNameSteps(f, a, b, c, v, n);
    CurrentOutput(f, a, b, c, v, n);
  }

  // The legacy schema, whose records stop after `signEnd`.

  function Legacy0(f: string, a: string, b: string, c: string): string {
    "(" + Raw("file", f, ',', Raw("videoStart", a, ',', Raw("signStart", b, ',', Raw("signEnd", c, ',', ""))))
  }

  function Legacy1(f: string, a: string, b: string, c: string): string {
    "(" + Q(f, Raw("videoStart", a, ',', Raw("signStart", b, ',', Raw("signEnd", c, ',', ""))))
  }

  function Legacy2(f: string, a: string, b: string, c: string): string {
    "(" + Q(f, Q(a, Raw("signStart", b, ',', Raw("signEnd", c, ',', ""))))
  }

  function Legacy3(f: string, a: string, b: string, c: string): string {
    "(" + Q(f, Q(a, Q(b, Raw("signEnd", c, ',', ""))))
  }

  function Legacy4(f: string, a: string, b: string, c: string): string {
    "(" + Q(f, Q(a, Q(b, Quoted(c, "\")", ""))))
  }

  lemma LegacyFile(r: Rule, f: string, a: string, b: string, c: string)
    requires r == Lazy("file=", Some(','), "\"", "\",")
    requires Plain(f) && Plain(a) && Plain(b) && Plain(c)
    ensures Apply(r, Legacy0(f, a, b, c)) == Legacy1(f, a, b, c)
  {
    Keys();
    FileNames();
    ValueInert(a, "file=");
    ValueInert(b, "file=");
    ValueInert(c, "file=");
    var t0 := Raw("videoStart", a, ',', Raw("signStart", b, ',', Raw("signEnd", c, ',', "")));
    ApplySkip(r, "(", Raw("file", f, ',', t0));
    QuoteField(r, "file", f, t0);
    KeepThree(r, "videoStart", a, ',', "signStart", b, ',', "signEnd", c, ',');
  }

  lemma LegacyVideoStart(r: Rule, f: string, a: string, b: string, c: string)
    requires r == Lazy("videoStart=", Some(','), "\"", "\",")
    requires Plain(f) && Plain(a) && Plain(b) && Plain(c)
    ensures Apply(r, Legacy1(f, a, b, c)) == Legacy2(f, a, b, c)
  {
    Keys();
    VideoStartNames();
    ValueInert(f, "videoStart=");
    ValueInert(b, "videoStart=");
    ValueInert(c, "videoStart=");
    var t1 := Raw("signStart", b, ',', Raw("signEnd", c, ',', ""));
    KeepQuoted1(r, f, "\",", Raw("videoStart", a, ',', t1));
    QuoteField(r, "videoStart", a, t1);
    KeepTwo(r, "signStart", b, ',', "signEnd", c, ',');
  }

  lemma LegacySignStart(r: Rule, f: string, a: string, b: string, c: string)
    requires r == Lazy("signStart=", Some(','), "\"", "\",")
    requires Plain(f) && Plain(a) && Plain(b) && Plain(c)
    ensures Apply(r, Legacy2(f, a, b, c)) == Legacy3(f, a, b, c)
  {
    Keys();
    SignStartNames();
    ValueInert(f, "signStart=");
    ValueInert(a, "signStart=");
    ValueInert(c, "signStart=");
    var t2 := Raw("signEnd", c, ',', "");
    KeepQuoted2(r, f, a, Raw("signStart", b, ',', t2));
    QuoteField(r, "signStart", b, t2);
    KeepLast(r, "signEnd", c, ',');
  }

  lemma LegacySignEnd(r: Rule, f: string, a: string, b: string, c: string)
    requires r == Lazy("signEnd=", Some(','), "\"", "\")")
    requires Plain(f) && Plain(a) && Plain(b) && Plain(c)
    ensures Apply(r, Legacy3(f, a, b, c)) == Legacy4(f, a, b, c)
  {
    Keys();
    SignEndNames();
    ValueInert(f, "signEnd=");
    ValueInert(a, "signEnd=");
    ValueInert(b, "signEnd=");
    KeepQuoted3(r, f, a, b, Raw("signEnd", c, ',', ""));
    QuoteField(r, "signEnd", c, "");
    ApplyEmpty(r);
  }

  lemma Legacy4Lacks(ch: char, f: string, a: string, b: string, c: string)
    requires ch !in f && ch !in a && ch !in b && ch !in c
    requires ch !in "(\",)"
    ensures ch !in Legacy4(f, a, b, c)
  {
    LacksQ(ch, b, Quoted(c, "\")", ""));
    LacksQ(ch, a, Q(b, Quoted(c, "\")", "")));
    LacksQ(ch, f, Q(a, Q(b, Quoted(c, "\")", ""))));
  }

  lemma LegacyPeriod(r: Rule, f: string, a: string, b: string, c: string)
    requires r == Literal(".\"", "\"")
    requires Plain(f) && Plain(a) && Plain(b) && Plain(c)
    ensures Apply(r, Legacy4(f, a, b, c)) == Legacy4(f, a, b, c)
  {
    OtherNames();
    InertDotQuote(f, "\",");
    InertDotQuote(a, "\",");
    InertDotQuote(b, "\",");
    InertDotQuote(c, "\")");
    KeepQuoted4(r, f, a, b, c, "\")", "");
    ApplyEmpty(r);
  }

  /** The rules of the legacy chain, by position. */
  lemma LegacyRules()
    ensures |Chain(false)| == 13
    ensures Chain(false)[0] == Lazy("file=", Some(','), "\"", "\",")
    ensures Chain(false)[1] == Lazy("videoStart=", Some(','), "\"", "\",")
    ensures Chain(false)[2] == Lazy("signStart=", Some(','), "\"", "\",")
    ensures Chain(false)[3] == Lazy("signEnd=", Some(','), "\"", "\")")
    ensures Chain(false)[4] == Literal("\\/", "/") && Chain(false)[5] == Literal("\"[", "[")
    ensures Chain(false)[6] == Literal("]\"", "]") && Chain(false)[7] == Literal("\\r", "")
    ensures Chain(false)[8] == Literal(".\"", "\"")
    ensures Chain(false)[9] == Lazy("attempt=", None, "", "")
    ensures Chain(false)[10] == Lazy("isValid=", None, "", "")
    ensures Chain(false)[11..] == ContractionRules
  {
    LegacyChain();
  }

  /** The lazy rules turn the four raw fields of the legacy schema into a tuple. */
  lemma LegacyFields(f: string, a: string, b: string, c: string)
    requires Plain(f) && Plain(a) && Plain(b) && Plain(c)
    ensures ApplyAll(Chain(false), Legacy0(f, a, b, c)) == ApplyAll(Chain(false)[4..], Legacy4(f, a, b, c))
  {
    var rules := Chain(false);
    LegacyRules();
    assert rules[0..] == rules;
    LegacyFile(rules[0], f, a, b, c);
    Advance(rules, 0, Legacy0(f, a, b, c), Legacy1(f, a, b, c));
    LegacyVideoStart(rules[1], f, a, b, c);
    Advance(rules, 1, Legacy1(f, a, b, c), Legacy2(f, a, b, c));
    LegacySignStart(rules[2], f, a, b, c);
    Advance(rules, 2, Legacy2(f, a, b, c), Legacy3(f, a, b, c));
    LegacySignEnd(rules[3], f, a, b, c);
    Advance(rules, 3, Legacy3(f, a, b, c), Legacy4(f, a, b, c));
  }

  /** The legacy tuple holds none of the characters the later rules look for. */
  lemma Legacy4Clean(f: string, a: string, b: string, c: string)
    requires Plain(f) && Plain(a) && Plain(b) && Plain(c)
    ensures var s := Legacy4(f, a, b, c);
      '\\' !in s && '[' !in s && ']' !in s && '=' !in s && '\'' !in s
  {
    Legacy4Lacks('\\', f, a, b, c);
    Legacy4Lacks('[', f, a, b, c);
    Legacy4Lacks(']', f, a, b, c);
    Legacy4Lacks('=', f, a, b, c);
    Legacy4Lacks('\'', f, a, b, c);
  }

  /** The fixed-text rules of the legacy chain change nothing in the tuple. */
  lemma LegacyLiteralSteps(f: string, a: string, b: string, c: string)
    requires Plain(f) && Plain(a) && Plain(b) && Plain(c)
    ensures ApplyAll(Chain(false)[4..], Legacy4(f, a, b, c)) == ApplyAll(Chain(false)[8..], Legacy4(f, a, b, c))
  {
    var rules := Chain(false);
    var s := Legacy4(f, a, b, c);
    LegacyRules();
    Legacy4Clean(f, a, b, c);
    AbsentBy(rules[4], s, '\\');
    Advance(rules, 4, s, s);
    AbsentBy(rules[5], s, '[');
    Advance(rules, 5, s, s);
    AbsentBy(rules[6], s, ']');
    Advance(rules, 6, s, s);
    AbsentBy(rules[7], s, '\\');
    Advance(rules, 7, s, s);
  }

  /** The period rule, the name deletions and the contractions change nothing in the legacy tuple. */
  lemma LegacyNameSteps(f: string, a: string, b: string, c: string)
    requires Plain(f) && Plain(a) && Plain(b) && Plain(c)
    ensures ApplyAll(Chain(false)[8..], Legacy4(f, a, b, c)) == Legacy4(f, a, b, c)
  {
    var rules := Chain(false);
    var s := Legacy4(f, a, b, c);
    LegacyRules();
    Legacy4Clean(f, a, b, c);
    LegacyPeriod(rules[8], f, a, b, c);
    Advance(rules, 8, s, s);
    AbsentBy(rules[9], s, '=');
    Advance(rules, 9, s, s);
    AbsentBy(rules[10], s, '=');
    Advance(rules, 10, s, s);
    NoApostropheUnchanged(s);
  }

  lemma RegroupLegacy(x0: string, x1: string, x2: string, x3: string, x4: string, x5: string, x6: string,
                      x7: string, x8: string)
    ensures x0 + x1 + x2 + x3 + x4 + x5 + x6 + x7 + x8
         == x0 + (x1 + (x2 + (x3 + (x4 + (x5 + (x6 + (x7 + x8)))))))
  {
  }

  /** The raw legacy description, up to the comma after `signEnd`. */
  lemma LegacyInput(f: string, a: string, b: string, c: string)
    ensures "(file=" + f + ",videoStart=" + a + ",signStart=" + b + ",signEnd=" + c + ","
         == Legacy0(f, a, b, c)
  {
    RegroupLegacy("(file=", f, ",videoStart=", a, ",signStart=", b, ",signEnd=", c, ",");
    var z3 := c + ",";
    assert z3 == (c + [',']) + "";
    var z2 := b + (",signEnd=" + z3);
    Link(b, ',', "signEnd", ",signEnd=", z3);
    var z1 := a + (",signStart=" + z2);
    Link(a, ',', "signStart", ",signStart=", z2);
    Link(f, ',', "videoStart", ",videoStart=", z1);
    Opening(f + (",videoStart=" + z1));
  }

  lemma LegacyOutput(f: string, a: string, b: string, c: string)
    ensures Legacy4(f, a, b, c) == "(\"" + f + "\",\"" + a + "\",\"" + b + "\",\"" + c + "\")"
  {
  }

  /**
   * A legacy description, which never mentions `isValid`, whose values hold
   * no punctuation becomes the tuple of its four quoted values, closed where
   * `signEnd` ends, and the schema flag is clear.
   */
  lemma RewriteLegacyRecord(f: string, a: string, b: string, c: string)
    requires Plain(f) && Plain(a) && Plain(b) && Plain(c)
    requires !Contains("(file=" + f + ",videoStart=" + a + ",signStart=" + b + ",signEnd=" + c + ",", "isValid")
    ensures Rewrite("(file=" + f + ",videoStart=" + a + ",signStart=" + b + ",signEnd=" + c + ",")
         == ("(\"" + f + "\",\"" + a + "\",\"" + b + "\",\"" + c + "\")", false)
  {
    LegacyInput(f, a, b, c);
    LegacyFields(f, a, b, c);
    LegacyLiteralSteps(f, a, b, c);
    LegacyNameSteps(f, a, b, c);
    LegacyOutput(f, a, b, c);
  }
}
