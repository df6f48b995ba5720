/**
 * Turning the recorder's `key=value,` description into the text handed to
 * the literal evaluator, and the process-wide count of descriptions that
 * fail to evaluate.
 */
module Description {
  import opened Basics
  import opened Text
  import opened Records

  /**
   * The lazy group of `key(.*?)t` followed by `t`: the shortest run of
   * non-newline characters that is followed by `t`, if there is one.
   */
  function CaptureUntil(s: string, t: char): (r: Option<string>)
    ensures r.Some? ==> |r.value| < |s| && s[..|r.value|] == r.value && s[|r.value|] == t
    ensures r.Some? ==> t !in r.value && '\n' !in r.value
    ensures r.None? ==> forall k :: 0 <= k < |s| && s[k] == t ==> '\n' in s[..k]
    decreases |s|
  {
    if |s| == 0 then None
    else if s[0] == t then Some("")
    else if s[0] == '\n' then
      assert forall k :: 0 < k < |s| ==> s[..k][0] == '\n';
      None
    else
      match CaptureUntil(s[1..], t)
      case None =>
        assert forall k :: 1 <= k < |s| ==> s[1..][..k - 1] == s[..k][1..];
        None
      case Some(v) =>
        assert s[..|v| + 1] == [s[0]] + s[1..][..|v|];
        Some([s[0]] + v)
  }

  /** One substitution of the chain. */
  datatype Rule =
    /** `re.sub(pattern, replacement, s)` for a pattern without metacharacters. */
    | Literal(pattern: string, replacement: string)
    /**
     * `re.sub(key + "(.*?)" + t, before + r"\1" + after, s)`, where `t` is the
     * optional terminator character.
     */
    | Lazy(key: string, terminator: Option<char>, before: string, after: string)

  predicate WellFormed(r: Rule) {
    match r
    case Literal(p, _) => |p| > 0
    case Lazy(k, _, _, _) => |k| > 0
  }

  /** The literal text a rule needs to find before it changes anything. */
  function Anchor(r: Rule): string {
    match r
    case Literal(p, _) => p
    case Lazy(k, _, _, _) => k
  }

  /** The group a lazy rule captures at the start of `s`, if it matches there. */
  function LazyMatch(s: string, key: string, terminator: Option<char>): (r: Option<string>)
    ensures r.Some? ==> StartsWith(s, key)
    ensures r.Some? ==> |key| + |r.value| + (if terminator.Some? then 1 else 0) <= |s|
  {
    if !StartsWith(s, key) then None
    else match terminator
      case None => Some("")
      case Some(t) => CaptureUntil(s[|key|..], t)
  }

  function SubLazy(s: string, key: string, terminator: Option<char>, before: string, after: string): string
    requires |key| > 0
    decreases |s|
  {
    if |s| == 0 then ""
    else match LazyMatch(s, key, terminator)
      case Some(v) =>
        before + v + after
          + SubLazy(s[|key| + |v| + (if terminator.Some? then 1 else 0)..], key, terminator, before, after)
      case None => [s[0]] + SubLazy(s[1..], key, terminator, before, after)
  }

  function Apply(r: Rule, s: string): string
    requires WellFormed(r)
  {
    match r
    case Literal(p, rep) => ReplaceAll(s, p, rep)
    case Lazy(k, t, b, a) => SubLazy(s, k, t, b, a)
  }

  function ApplyAll(rules: seq<Rule>, s: string): string
    requires forall k :: 0 <= k < |rules| ==> WellFormed(rules[k])
    decreases |rules|
  {
    if |rules| == 0 then s else ApplyAll(rules[1..], Apply(rules[0], s))
  }

  /** `clean_contractions`: a fixed allow-list of apostrophes to drop. */
  const ContractionRules: seq<Rule> := [
    Literal("pet's name", "pets name"),
    Literal("don't", "dont")
  ]

  function CleanContractions(s: string): string {
    ApplyAll(ContractionRules, s)
  }

  /**
   * The whole chain of substitutions of `get_data_from_description`, in
   * order. The `signEnd=` value closes the tuple with `)` when the raw text
   * never mentions `isValid`, and is followed by the `isValid=` value
   * otherwise.
   */
  function Chain(isValidExists: bool): (rules: seq<Rule>)
    ensures forall k :: 0 <= k < |rules| ==> WellFormed(rules[k])
  {
    [ Lazy("file=", Some(','), "\"", "\","),
      Lazy("videoStart=", Some(','), "\"", "\","),
      Lazy("signStart=", Some(','), "\"", "\",") ]
    + (if isValidExists
       then [ Lazy("signEnd=", Some(','), "\"", "\","), Lazy("isValid=", Some(','), "", ",") ]
       else [ Lazy("signEnd=", Some(','), "\"", "\")") ])
    + [ Literal("\\/", "/"),
        Literal("\"[", "["),
        Literal("]\"", "]"),
        Literal("\\r", ""),
        Literal(".\"", "\""),
        Lazy("attempt=", None, "", ""),
        Lazy("isValid=", None, "", "") ]
    + ContractionRules
  }

  /**
   * The text handed to the evaluator and the schema flag. The flag looks at
   * the raw description, before the chain deletes any `isValid=`.
   */
  function Rewrite(description: string): (r: (string, bool))
    ensures r.1 <==> Contains(description, "isValid")
    ensures r.0 == ApplyAll(Chain(r.1), description)
  {
    var isValidExists := Contains(description, "isValid");
    (ApplyAll(Chain(isValidExists), description), isValidExists)
  }

  /** A rule whose anchor does not occur leaves the text unchanged. */
  lemma ApplyAbsent(r: Rule, s: string)
    requires WellFormed(r) && !Contains(s, Anchor(r))
    ensures Apply(r, s) == s
  {
    match r
    case Literal(p, rep) => ReplaceAbsent(s, p, rep);
    case Lazy(k, t, b, a) => SubLazyAbsent(s, k, t, b, a);
  }

  lemma {:induction false} SubLazyAbsent(s: string, key: string, t: Option<char>, b: string, a: string)
    requires |key| > 0 && !Contains(s, key)
    ensures SubLazy(s, key, t, b, a) == s
    decreases |s|
  {
    if |s| > 0 {
      SubLazyAbsent(s[1..], key, t, b, a);
    }
  }

  /** A chain none of whose anchors ever occurs is the identity. */
  lemma {:induction false} ApplyAllAbsent(rules: seq<Rule>, s: string)
    requires forall k :: 0 <= k < |rules| ==> WellFormed(rules[k]) && !Contains(s, Anchor(rules[k]))
    ensures ApplyAll(rules, s) == s
    decreases |rules|
  {
    if |rules| > 0 {
      ApplyAbsent(rules[0], s);
      ApplyAllAbsent(rules[1..], s);
    }
  }

  /** The capture up to the first terminator of a value free of terminators and newlines. */
  lemma {:induction false} CaptureValue(v: string, t: char, rest: string)
    requires t !in v && '\n' !in v
    ensures CaptureUntil(v + [t] + rest, t) == Some(v)
    decreases |v|
  {
    if |v| > 0 {
      CaptureValue(v[1..], t, rest);
      assert (v + [t] + rest)[1..] == v[1..] + [t] + rest;
      assert v == [v[0]] + v[1..];
    }
  }

  /** `key=V,` at the front becomes `before + V + after`, and the scan resumes after the `,`. */
  lemma LazyQuotes(key: string, t: char, b: string, a: string, v: string, rest: string)
    requires |key| > 0 && t !in v && '\n' !in v
    ensures SubLazy(key + v + [t] + rest, key, Some(t), b, a)
         == b + v + a + SubLazy(rest, key, Some(t), b, a)
  {
    var s := key + v + [t] + rest;
    assert s[..|key|] == key;
    assert s[|key|..] == v + [t] + rest;
    CaptureValue(v, t, rest);
    assert s[|key| + |v| + 1..] == rest;
  }

  /**
   * The `signEnd=` rule: with the flag set, `signEnd=V,` becomes `"V",`;
   * without it, `"V")`, which closes the legacy tuple.
   */
  lemma SignEndQuoted(isValidExists: bool, v: string, rest: string)
    requires ',' !in v && '\n' !in v
    ensures Apply(Chain(isValidExists)[3], "signEnd=" + v + "," + rest)
         == "\"" + v + (if isValidExists then "\"," else "\")")
            + Apply(Chain(isValidExists)[3], rest)
  {
    LazyQuotes("signEnd=", ',', "\"", if isValidExists then "\"," else "\")", v, rest);
  }

  /** The `file=`, `videoStart=` and `signStart=` values are quoted the same way. */
  lemma FieldsQuoted(isValidExists: bool, k: nat, v: string, rest: string)
    requires k < 3 && ',' !in v && '\n' !in v
    ensures Chain(isValidExists)[k].Lazy?
    ensures Apply(Chain(isValidExists)[k], Chain(isValidExists)[k].key + v + "," + rest)
         == "\"" + v + "\"," + Apply(Chain(isValidExists)[k], rest)
  {
    var r := Chain(isValidExists)[k];
    LazyQuotes(r.key, ',', "\"", "\",", v, rest);
  }

  /** With the flag set, `isValid=V,` loses its attribute name and keeps `V,`. */
  lemma IsValidValueKept(v: string, rest: string)
    requires ',' !in v && '\n' !in v
    ensures Apply(Chain(true)[4], "isValid=" + v + "," + rest)
         == v + "," + Apply(Chain(true)[4], rest)
  {
    LazyQuotes("isValid=", ',', "", ",", v, rest);
    assert "" + v + "," == v + ",";
  }

  /**
   * A lazy group with nothing after it captures the empty string, so the
   * `attempt=` and `isValid=` rules only delete those literals.
   */
  lemma {:induction false} LazyWithoutTerminatorDeletes(s: string, key: string)
    requires |key| > 0
    ensures SubLazy(s, key, None, "", "") == ReplaceAll(s, key, "")
    decreases |s|
  {
    if |s| > 0 {
      if StartsWith(s, key) {
        LazyWithoutTerminatorDeletes(s[|key|..], key);
      } else {
        LazyWithoutTerminatorDeletes(s[1..], key);
      }
    }
  }

  lemma AttributeNamesDeleted(isValidExists: bool, s: string)
    ensures var rules := Chain(isValidExists);
      var n := |rules|;
      && Apply(rules[n - 4], s) == ReplaceAll(s, "attempt=", "")
      && Apply(rules[n - 3], s) == ReplaceAll(s, "isValid=", "")
  {
    LazyWithoutTerminatorDeletes(s, "attempt=");
    LazyWithoutTerminatorDeletes(s, "isValid=");
  }

  /** The two contractions of the allow-list lose their apostrophe. */
  lemma ContractionsRemoved()
    ensures CleanContractions("pet's name") == "pets name"
    ensures CleanContractions("don't") == "dont"
  {
    PetsNameRemoved();
    DontRemoved();
  }

  lemma PetsNameRemoved()
    ensures CleanContractions("pet's name") == "pets name"
  {
    ApplyPair(ContractionRules[0], ContractionRules[1], "pet's name");
    ReplaceWhole("pet's name", "pets name");
    NoApostrophe("pets name", "don't");
    ReplaceAbsent("pets name", "don't", "dont");
  }

  lemma DontRemoved()
    ensures CleanContractions("don't") == "dont"
  {
    ApplyPair(ContractionRules[0], ContractionRules[1], "don't");
    ContainsShorter("don't", "pet's name");
    ReplaceAbsent("don't", "pet's name", "pets name");
    ReplaceWhole("don't", "dont");
  }

  /** A chain of two rules applies the first, then the second. */
  lemma ApplyPair(first: Rule, second: Rule, s: string)
    requires WellFormed(first) && WellFormed(second)
    ensures ApplyAll([first, second], s) == Apply(second, Apply(first, s))
  {
    var t := Apply(first, s);
    assert [first, second][1..] == [second];
    assert ApplyAll([first, second], s) == ApplyAll([second], t);
    assert [second][1..] == [];
    assert ApplyAll([second], t) == ApplyAll([], Apply(second, t));
  }

  /** An anchor with an apostrophe cannot occur in text without one. */
  lemma NoApostrophe(s: string, p: string)
    requires '\'' !in s && '\'' in p
    ensures !Contains(s, p)
  {
    if Contains(s, p) {
      ContainsChar(s, p, '\'');
    }
  }

  /** Text without an apostrophe passes `clean_contractions` unchanged. */
  lemma NoApostropheUnchanged(s: string)
    requires '\'' !in s
    ensures CleanContractions(s) == s
  {
    NoApostrophe(s, "pet's name");
    NoApostrophe(s, "don't");
    ApplyAllAbsent(ContractionRules, s);
  }

  /** Failures 1 to 50 are tolerated; the 51st aborts the batch. */
  const MaxDecodeFailures: nat := 50

  datatype DecodeOutcome =
    /** The evaluated dictionary and the schema flag. */
    | Decoded(data: Dict, isValidExists: bool)
    /** `(-1, -1)`: the file is skipped; `log` is what the per-file error log receives. */
    | Failed(log: string)
    /** The `raise` once more than 50 descriptions have failed. */
    | Aborted(log: string)

  /**
   * One call of `get_data_from_description` with the failure counter at
   * `errorCount`: the outcome and the new counter. `eval` is the literal
   * evaluator; None stands for the exception it raises.
   */
  function Decode(errorCount: nat, description: string, eval: string -> Option<Dict>): (r: (DecodeOutcome, nat))
    ensures var (subbed, isValidExists) := Rewrite(description);
      && (eval(subbed).Some? ==> r == (Decoded(eval(subbed).value, isValidExists), errorCount))
      && (eval(subbed).None? ==> r.1 == errorCount + 1 && !r.0.Decoded? && r.0.log == subbed)
      && (r.0.Aborted? <==> eval(subbed).None? && errorCount >= MaxDecodeFailures)
  {
    var (subbed, isValidExists) := Rewrite(description);
    match eval(subbed)
    case Some(data) => (Decoded(data, isValidExists), errorCount)
    case None =>
      if errorCount + 1 > MaxDecodeFailures then (Aborted(subbed), errorCount + 1)
      else (Failed(subbed), errorCount + 1)
  }

  /**
   * The outcomes of feeding descriptions one after another, up to and
   * including the one that aborts.
   */
  function DecodeRun(errorCount: nat, descriptions: seq<string>, eval: string -> Option<Dict>): seq<DecodeOutcome>
    decreases |descriptions|
  {
    if |descriptions| == 0 then []
    else
      var (outcome, count) := Decode(errorCount, descriptions[0], eval);
      if outcome.Aborted? then [outcome]
      else [outcome] + DecodeRun(count, descriptions[1..], eval)
  }

  predicate Unparsable(description: string, eval: string -> Option<Dict>) {
    eval(Rewrite(description).0).None?
  }

  /**
   * With the counter at `errorCount`, a run of unparsable descriptions goes
   * on until the counter passes 50: the first `50 - errorCount` are skipped
   * and the next one aborts.
   */
  lemma {:induction false} FailuresAbortAfterFifty(errorCount: nat, descriptions: seq<string>, eval: string -> Option<Dict>)
    requires errorCount <= MaxDecodeFailures
    requires forall k :: 0 <= k < |descriptions| ==> Unparsable(descriptions[k], eval)
    ensures |DecodeRun(errorCount, descriptions, eval)| == Min(|descriptions|, MaxDecodeFailures + 1 - errorCount)
    ensures forall k :: 0 <= k < |DecodeRun(errorCount, descriptions, eval)| ==>
      && !DecodeRun(errorCount, descriptions, eval)[k].Decoded?
      && (DecodeRun(errorCount, descriptions, eval)[k].Aborted? <==> errorCount + k == MaxDecodeFailures)
    decreases |descriptions|
  {
    if |descriptions| > 0 {
      var (outcome, count) := Decode(errorCount, descriptions[0], eval);
      assert count == errorCount + 1;
      if !outcome.Aborted? {
        FailuresAbortAfterFifty(count, descriptions[1..], eval);
      }
    }
  }

  /** Starting from a fresh counter: 51 unparsable files abort at the 51st, 50 never abort. */
  lemma FiftyFirstFailureAborts(descriptions: seq<string>, eval: string -> Option<Dict>)
    requires forall k :: 0 <= k < |descriptions| ==> Unparsable(descriptions[k], eval)
    ensures |descriptions| <= MaxDecodeFailures ==>
      forall k :: 0 <= k < |DecodeRun(0, descriptions, eval)| ==> DecodeRun(0, descriptions, eval)[k].Failed?
    ensures |descriptions| > MaxDecodeFailures ==>
      |DecodeRun(0, descriptions, eval)| == MaxDecodeFailures + 1
      && DecodeRun(0, descriptions, eval)[MaxDecodeFailures].Aborted?
  {
    FailuresAbortAfterFifty(0, descriptions, eval);
  }

  /** The module-level `error_count` and the function that reads and bumps it. */
  class Decoder {
    var errorCount: nat

    constructor ()
      ensures errorCount == 0
    {
      errorCount := 0;
    }

    method GetDataFromDescription(description: string, eval: string -> Option<Dict>) returns (outcome: DecodeOutcome)
      modifies this
      ensures (outcome, errorCount) == Decode(old(errorCount), description, eval)
    {
      var (subbed, isValidExists) := Rewrite(description);
      var data := eval(subbed);
      if data.Some? {
        outcome := Decoded(data.value, isValidExists);
      } else {
        errorCount := errorCount + 1;
        if errorCount > MaxDecodeFailures {
          outcome := Aborted(subbed);
        } else {
          outcome := Failed(subbed);
        }
      }
    }
  }
}
