/**
 * Annotation batches: the clips of a training manifest grouped by the
 * phrase they show, and the groups dealt out two to a batch.
 */
module Batches {
  import opened Basics
  import opened Text

  /** One manifest entry: its `phrase` and `clipFilename`, when present. */
  datatype ClipEntry = ClipEntry(phrase: Option<string>, clipFilename: Option<string>)

  /** `if word and clip`: both present and non-empty. */
  predicate Usable(e: ClipEntry) {
    e.phrase.Some? && e.phrase.value != "" && e.clipFilename.Some? && e.clipFilename.value != ""
  }

  /** `{"word": ..., "clips": [...]}`. */
  datatype Group = Group(word: string, clips: seq<string>)

  /** The elements of `s` at their first occurrence, in order. */
  function Dedup(s: seq<string>): (r: seq<string>)
    ensures forall x :: x in r <==> x in s
    decreases |s|
  {
    if |s| == 0 then []
    else
      var init := Dedup(s[..|s| - 1]);
      assert s == s[..|s| - 1] + [s[|s| - 1]];
      if s[|s| - 1] in init then init else init + [s[|s| - 1]]
  }

  /** Dedup keeps every element once. */
  lemma {:induction false} DedupDistinct(s: seq<string>)
    ensures forall i, j :: 0 <= i < j < |Dedup(s)| ==> Dedup(s)[i] != Dedup(s)[j]
    decreases |s|
  {
    if |s| > 0 {
      DedupDistinct(s[..|s| - 1]);
      assert s == s[..|s| - 1] + [s[|s| - 1]];
    }
  }

  /** The index of the first occurrence of `x` in `s`. */
  function FirstIndex(s: seq<string>, x: string): (i: nat)
    requires x in s
    ensures i < |s| && s[i] == x && x !in s[..i]
  {
    if s[0] == x then 0 else
      assert s[1..] + [] == s[1..];
      var j := FirstIndex(s[1..], x);
      assert s[..j + 1] == [s[0]] + s[1..][..j];
      j + 1
  }

  /** The first index is the only one before which `x` does not occur. */
  lemma {:induction false} FirstIndexUnique(s: seq<string>, x: string, i: nat)
    requires i < |s| && s[i] == x && x !in s[..i]
    ensures FirstIndex(s, x) == i
  {
    assert forall k :: 0 <= k < i ==> s[..i][k] == s[k];
    if s[0] != x {
      assert s[1..][..i - 1] == s[..i][1..];
      FirstIndexUnique(s[1..], x, i - 1);
    }
  }

  /** The first occurrence of `x` in `s` is also its first in any extension of `s`. */
  lemma FirstIndexPrefix(s: seq<string>, t: seq<string>, x: string)
    requires x in s
    ensures FirstIndex(s + t, x) == FirstIndex(s, x)
  {
    var i := FirstIndex(s, x);
    assert (s + t)[..i] == s[..i];
    FirstIndexUnique(s + t, x, i);
  }

  /** Dedup keeps the order of first occurrences. */
  lemma {:induction false} DedupOrder(s: seq<string>)
    ensures forall i, j :: 0 <= i < j < |Dedup(s)| ==>
      FirstIndex(s, Dedup(s)[i]) < FirstIndex(s, Dedup(s)[j])
    decreases |s|
  {
    if |s| > 0 {
      var init, last := s[..|s| - 1], s[|s| - 1];
      DedupOrder(init);
      DedupDistinct(init);
      DedupDistinct(s);
      assert s == init + [last];
      var d := Dedup(s);
      forall i, j | 0 <= i < j < |d|
        ensures FirstIndex(s, d[i]) < FirstIndex(s, d[j])
      {
        FirstIndexPrefix(init, [last], d[i]);
        if j < |Dedup(init)| {
          FirstIndexPrefix(init, [last], d[j]);
        } else {
          assert d[j] == last && last !in init;
          assert FirstIndex(s, d[j]) == |init|;
        }
      }
    }
  }

  /** The words of the usable entries, in order, with repeats. */
  function UsableWords(entries: seq<ClipEntry>): seq<string>
    decreases |entries|
  {
    if |entries| == 0 then []
    else
      var n := |entries| - 1;
      UsableWords(entries[..n]) + if Usable(entries[n]) then [entries[n].phrase.value] else []
  }

  /** The words listed are those of the usable entries. */
  lemma {:induction false} UsableWordsMembers(entries: seq<ClipEntry>)
    ensures forall w :: w in UsableWords(entries) <==>
      exists k :: 0 <= k < |entries| && Usable(entries[k]) && entries[k].phrase.value == w
    decreases |entries|
  {
    if |entries| > 0 {
      var n := |entries| - 1;
      UsableWordsMembers(entries[..n]);
      assert forall k :: 0 <= k < n ==> entries[..n][k] == entries[k];
    }
  }

  /** The clips of the usable entries for `word`, in order, with repeats. */
  function ClipsOf(entries: seq<ClipEntry>, word: string): seq<string>
    decreases |entries|
  {
    if |entries| == 0 then []
    else
      var n := |entries| - 1;
      ClipsOf(entries[..n], word)
        + if Usable(entries[n]) && entries[n].phrase.value == word then [entries[n].clipFilename.value] else []
  }

  /** The clips listed for a word are those of its usable entries. */
  lemma {:induction false} ClipsOfMembers(entries: seq<ClipEntry>, word: string)
    ensures forall c :: c in ClipsOf(entries, word) <==>
      exists k :: 0 <= k < |entries| && Usable(entries[k]) && entries[k].phrase.value == word
        && entries[k].clipFilename.value == c
    decreases |entries|
  {
    if |entries| > 0 {
      var n := |entries| - 1;
      ClipsOfMembers(entries[..n], word);
      assert forall k :: 0 <= k < n ==> entries[..n][k] == entries[k];
    }
  }

  /** Dedup of an extended sequence. */
  lemma DedupSnoc(s: seq<string>, x: string)
    ensures Dedup(s + [x]) == if x in Dedup(s) then Dedup(s) else Dedup(s) + [x]
  {
    assert (s + [x])[..|s|] == s;
  }

  /** One more entry adds at most its word and its clip. */
  lemma EntryStep(entries: seq<ClipEntry>, i: nat)
    requires i < |entries|
    ensures Usable(entries[i]) ==> UsableWords(entries[..i + 1]) == UsableWords(entries[..i]) + [entries[i].phrase.value]
    ensures !Usable(entries[i]) ==> UsableWords(entries[..i + 1]) == UsableWords(entries[..i])
  {
    assert entries[..i + 1][..i] == entries[..i];
  }

  /** One more entry adds its clip to its own word only. */
  lemma EntryClipStep(entries: seq<ClipEntry>, i: nat, w: string)
    requires i < |entries|
    ensures Usable(entries[i]) && entries[i].phrase.value == w ==>
      ClipsOf(entries[..i + 1], w) == ClipsOf(entries[..i], w) + [entries[i].clipFilename.value]
    ensures !(Usable(entries[i]) && entries[i].phrase.value == w) ==>
      ClipsOf(entries[..i + 1], w) == ClipsOf(entries[..i], w)
  {
    assert entries[..i + 1][..i] == entries[..i];
  }

  /** A word no usable entry carries has no clips. */
  lemma {:induction false} NoWordNoClips(entries: seq<ClipEntry>, w: string)
    requires w !in UsableWords(entries)
    ensures ClipsOf(entries, w) == []
    decreases |entries|
  {
    if |entries| > 0 {
      var n := |entries| - 1;
      NoWordNoClips(entries[..n], w);
    }
  }

  /** What `group_clips_by_word` returns. */
  function Grouped(entries: seq<ClipEntry>): (r: seq<Group>)
  {
    var words := Dedup(UsableWords(entries));
    seq(|words|, i requires 0 <= i < |words| => Group(words[i], Dedup(ClipsOf(entries, words[i]))))
  }

  /**
   * One group per word of a usable entry, in the order of the word's first
   * appearance; each group holds that word's clips, without repeats, in the
   * order of their first appearance.
   */
  lemma GroupedShape(entries: seq<ClipEntry>)
    ensures var groups := Grouped(entries);
      && (forall w :: w in Words(groups) <==>
            exists k :: 0 <= k < |entries| && Usable(entries[k]) && entries[k].phrase.value == w)
      && DistinctWords(groups)
      && (forall i, j :: 0 <= i < j < |groups| ==>
            FirstIndex(UsableWords(entries), groups[i].word) < FirstIndex(UsableWords(entries), groups[j].word))
  {
    DedupOrder(UsableWords(entries));
    UsableWordsMembers(entries);
    DedupDistinct(UsableWords(entries));
    assert Words(Grouped(entries)) == Dedup(UsableWords(entries));
  }

  /**
   * A group's clips are exactly the usable clips of its word, without
   * repeats, in the order of their first appearance.
   */
  lemma GroupClips(entries: seq<ClipEntry>, i: nat)
    requires i < |Grouped(entries)|
    ensures var g := Grouped(entries)[i];
      && (forall c :: c in g.clips <==>
            exists k :: 0 <= k < |entries| && Usable(entries[k]) && entries[k].phrase.value == g.word
              && entries[k].clipFilename.value == c)
      && (forall a, b :: 0 <= a < b < |g.clips| ==> g.clips[a] != g.clips[b])
      && (forall a, b :: 0 <= a < b < |g.clips| ==>
            FirstIndex(ClipsOf(entries, g.word), g.clips[a]) < FirstIndex(ClipsOf(entries, g.word), g.clips[b]))
  {
    DedupOrder(ClipsOf(entries, Grouped(entries)[i].word));
    ClipsOfMembers(entries, Grouped(entries)[i].word);
    DedupDistinct(ClipsOf(entries, Grouped(entries)[i].word));
  }

  /**
   * The state of the loop of `group_clips_by_word` after a prefix of the
   * entries: the dictionary's keys in insertion order, and its contents.
   */
  ghost predicate Grouping(done: seq<ClipEntry>, words: seq<string>, result: map<string, seq<string>>) {
    && words == Dedup(UsableWords(done))
    && (forall w :: w in result <==> w in words)
    && (forall w :: w in result ==> result[w] == Dedup(ClipsOf(done, w)))
  }

  /** One turn of the loop: open the word's list if need be, then add the clip if it is new. */
  function Visit(words: seq<string>, result: map<string, seq<string>>, e: ClipEntry)
    : (seq<string>, map<string, seq<string>>)
  {
    if !Usable(e) then (words, result)
    else
      var word, clip := e.phrase.value, e.clipFilename.value;
      var (keys, lists) := if word in result then (words, result) else (words + [word], result[word := []]);
      if clip in lists[word] then (keys, lists)
      else (keys, lists[word := lists[word] + [clip]])
  }

  lemma GroupingOf(done: seq<ClipEntry>, words: seq<string>, result: map<string, seq<string>>)
    requires words == Dedup(UsableWords(done))
    requires forall w :: w in result <==> w in words
    requires forall w :: w in result ==> result[w] == Dedup(ClipsOf(done, w))
    ensures Grouping(done, words, result)
  {
  }

  lemma VisitKeepsGrouping(entries: seq<ClipEntry>, i: nat, words: seq<string>, result: map<string, seq<string>>)
    requires i < |entries| && Grouping(entries[..i], words, result)
    ensures Grouping(entries[..i + 1], Visit(words, result, entries[i]).0, Visit(words, result, entries[i]).1)
  {
    if Usable(entries[i]) {
      VisitUsable(entries, i, words, result);
    } else {
      EntryStep(entries, i);
      forall w | w in result
        ensures result[w] == Dedup(ClipsOf(entries[..i + 1], w))
      {
        EntryClipStep(entries, i, w);
      }
      GroupingOf(entries[..i + 1], words, result);
    }
  }

  lemma VisitUsable(entries: seq<ClipEntry>, i: nat, words: seq<string>, result: map<string, seq<string>>)
    requires i < |entries| && Usable(entries[i]) && Grouping(entries[..i], words, result)
    ensures Grouping(entries[..i + 1], Visit(words, result, entries[i]).0, Visit(words, result, entries[i]).1)
  {
    VisitKeys(entries, i, words, result);
    VisitLists(entries, i, words, result);
    GroupingOf(entries[..i + 1], Visit(words, result, entries[i]).0, Visit(words, result, entries[i]).1);
  }

  /** A usable entry's word is listed once, at its first appearance. */
  lemma VisitKeys(entries: seq<ClipEntry>, i: nat, words: seq<string>, result: map<string, seq<string>>)
    requires i < |entries| && Usable(entries[i]) && Grouping(entries[..i], words, result)
    ensures Visit(words, result, entries[i]).0 == Dedup(UsableWords(entries[..i + 1]))
    ensures forall w :: w in Visit(words, result, entries[i]).1 <==> w in Visit(words, result, entries[i]).0
  {
    EntryStep(entries, i);
    DedupSnoc(UsableWords(entries[..i]), entries[i].phrase.value);
  }

  /** A usable entry's clip joins its word's list, unless it is there already. */
  lemma VisitLists(entries: seq<ClipEntry>, i: nat, words: seq<string>, result: map<string, seq<string>>)
    requires i < |entries| && Usable(entries[i]) && Grouping(entries[..i], words, result)
    ensures forall w :: w in Visit(words, result, entries[i]).1 ==>
      Visit(words, result, entries[i]).1[w] == Dedup(ClipsOf(entries[..i + 1], w))
  {
    var e := entries[i];
    var word, clip := e.phrase.value, e.clipFilename.value;
    var lists := if word in result then result else result[word := []];
    var final := Visit(words, result, e).1;
    assert final == if clip in lists[word] then lists else lists[word := lists[word] + [clip]];
    if word !in result {
      NoWordNoClips(entries[..i], word);
    }
    assert lists[word] == Dedup(ClipsOf(entries[..i], word));
    DedupSnoc(ClipsOf(entries[..i], word), clip);
    EntryClipStep(entries, i, word);
    forall w | w in final
      ensures final[w] == Dedup(ClipsOf(entries[..i + 1], w))
    {
      EntryClipStep(entries, i, w);
    }
  }

  /** The loop of `group_clips_by_word`, then the comprehension that lists the groups. */
  method GroupClipsByWord(entries: seq<ClipEntry>) returns (groups: seq<Group>)
    ensures groups == Grouped(entries)
  {
    var words: seq<string> := [];
    var result: map<string, seq<string>> := map[];
    var i := 0;
    assert entries[..i] == [];
    assert Grouping(entries[..i], words, result);
    while i < |entries|
      invariant 0 <= i <= |entries|
      invariant Grouping(entries[..i], words, result)
    {
      VisitKeepsGrouping(entries, i, words, result);
      ghost var visited := Visit(words, result, entries[i]);
      var e := entries[i];
      if Usable(e) {
        var word, clip := e.phrase.value, e.clipFilename.value;
        if word !in result {
          words := words + [word];
          result := result[word := []];
        }
        if clip !in result[word] {
          result := result[word := result[word] + [clip]];
        }
      }
      assert (words, result) == visited;
      ghost var done := entries[..i + 1];
      assert Grouping(done, words, result);
      i := i + 1;
      assert entries[..i] == done;
    }
    assert entries[..i] == entries;
    groups := seq(|words|, k requires 0 <= k < |words| => Group(words[k], result[words[k]]));
  }

  /** The words of the groups, in order. */
  function Words(groups: seq<Group>): (r: seq<string>)
    ensures |r| == |groups| && forall i :: 0 <= i < |groups| ==> r[i] == groups[i].word
  {
    seq(|groups|, i requires 0 <= i < |groups| => groups[i].word)
  }

  /** No word occurs twice. */
  predicate DistinctWords(groups: seq<Group>) {
    forall i, j :: 0 <= i < j < |groups| ==> groups[i].word != groups[j].word
  }

  /** One batch: `{word: clips}` in insertion order. */
  type Batch = seq<Group>

  /** `batch[word] = clips`: an existing word keeps its place and takes the new clips. */
  function Put(batch: Batch, g: Group): (r: Batch)
    ensures (forall i :: 0 <= i < |batch| ==> batch[i].word != g.word) ==> r == batch + [g]
    ensures |r| <= |batch| + 1
    decreases |batch|
  {
    if |batch| == 0 then [g]
    else if batch[0].word == g.word then [g] + batch[1..]
    else [batch[0]] + Put(batch[1..], g)
  }

  /** The key of the `k`-th batch. */
  function BatchKey(k: nat): string {
    "batch_" + NatToString(k)
  }

  /** The batches after dealing out `groups`, as their keys and contents in order. */
  function Dealt(groups: seq<Group>): (r: seq<(string, Batch)>)
    ensures |r| > 0
    decreases |groups|
  {
    if |groups| == 0 then [(BatchKey(0), [])]
    else Deal(Dealt(groups[..|groups| - 1]), groups[|groups| - 1])
  }

  /** The batching loop of `create_phrase_batches`. */
  method DealBatches(groups: seq<Group>) returns (batches: seq<(string, Batch)>)
    ensures batches == Dealt(groups)
  {
    var batchIndex := 0;
    batches := [(BatchKey(batchIndex), [])];
    for i := 0 to |groups|
      invariant batches == Dealt(groups[..i])
      invariant batchIndex == |batches| - 1
    {
      DealtSnoc(groups, i);
      ghost var before := batches;
      var current := Put(batches[batchIndex].1, groups[i]);
      batches := batches[batchIndex := (BatchKey(batchIndex), current)];
      if |current| == 2 {
        batchIndex := batchIndex + 1;
        batches := batches + [(BatchKey(batchIndex), [])];
      }
      assert batches == Deal(before, groups[i]);
    }
    assert groups[..|groups|] == groups;
  }

  /** Batch `k` is keyed `batch_k`: a turn rewrites the open batch under its own key and opens the next one under the next key. */
  lemma DealKeys(before: seq<(string, Batch)>, g: Group)
    requires |before| > 0 && forall k :: 0 <= k < |before| ==> before[k].0 == BatchKey(k)
    ensures forall k :: 0 <= k < |Deal(before, g)| ==> Deal(before, g)[k].0 == BatchKey(k)
  {
  }

  /** The batches are keyed `batch_0`, `batch_1`, ... in order. */
  lemma {:induction false} DealtKeys(groups: seq<Group>)
    ensures forall k :: 0 <= k < |Dealt(groups)| ==> Dealt(groups)[k].0 == BatchKey(k)
    decreases |groups|
  {
    if |groups| > 0 {
      DealtKeys(groups[..|groups| - 1]);
      DealKeys(Dealt(groups[..|groups| - 1]), groups[|groups| - 1]);
    }
  }

  lemma DealtSnoc(groups: seq<Group>, i: nat)
    requires i < |groups|
    ensures Dealt(groups[..i + 1]) == Deal(Dealt(groups[..i]), groups[i])
  {
    assert groups[..i + 1][..i] == groups[..i];
    assert groups[..i + 1][i] == groups[i];
  }

  /** The `k`-th batch of a deal of distinct words: groups `2k` and `2k + 1`, as far as they go. */
  function Pair(groups: seq<Group>, k: nat): Batch
    requires 2 * k <= |groups|
  {
    groups[2 * k..Min(2 * k + 2, |groups|)]
  }

  /**
   * With distinct words, batch `k` holds groups `2k` and `2k + 1`, and there
   * are `n / 2 + 1` batches for `n` groups.
   */
  predicate PairedOff(groups: seq<Group>, batches: seq<(string, Batch)>) {
    && |batches| == |groups| / 2 + 1
    && forall k :: 0 <= k < |batches| ==> 2 * k <= |groups| && batches[k].1 == Pair(groups, k)
  }

  /**
   * With distinct words, batch `k` holds groups `2k` and `2k + 1`, and there
   * are `n / 2 + 1` batches for `n` groups.
   */
  lemma {:induction false} DealtPairs(groups: seq<Group>)
    requires DistinctWords(groups)
    ensures PairedOff(groups, Dealt(groups))
    decreases |groups|
  {
    if |groups| > 0 {
      var n := |groups| - 1;
      var init := groups[..n];
      assert DistinctWords(init) by {
        assert forall i :: 0 <= i < n ==> init[i] == groups[i];
      }
      DealtPairs(init);
      DealtStep(groups);
    }
  }

  /** Dealing one more group of a new word keeps the batches paired off. */
  lemma DealtStep(groups: seq<Group>)
    requires |groups| > 0 && DistinctWords(groups)
    requires PairedOff(groups[..|groups| - 1], Dealt(groups[..|groups| - 1]))
    ensures PairedOff(groups, Dealt(groups))
  {
    var before := Dealt(groups[..|groups| - 1]);
    OpenBatchGrows(groups, before);
    EarlierPairsKept(groups, before);
    DealPairs(groups, before);
  }

  /**
   * One turn of the batching loop: the group joins the open batch, and a
   * new empty batch opens once that one holds two words.
   */
  function Deal(before: seq<(string, Batch)>, g: Group): (r: seq<(string, Batch)>)
    requires |before| > 0
    ensures |r| > 0
  {
    var k := |before| - 1;
    var current := Put(before[k].1, g);
    var dealt := before[k := (BatchKey(k), current)];
    if |current| == 2 then dealt + [(BatchKey(k + 1), [])] else dealt
  }

  lemma DealPairs(groups: seq<Group>, before: seq<(string, Batch)>)
    requires |groups| > 0 && |before| > 0
    requires var n, k := |groups| - 1, |before| - 1;
      && 2 * k <= n < 2 * k + 2
      && Put(before[k].1, groups[n]) == groups[2 * k..n + 1]
      && forall j :: 0 <= j < k ==> before[j].1 == Pair(groups, j)
    ensures PairedOff(groups, Deal(before, groups[|groups| - 1]))
  {
    var n, k := |groups| - 1, |before| - 1;
    if |Put(before[k].1, groups[n])| == 2 {
      assert Pair(groups, k + 1) == [];
    }
  }

  /** The open batch takes the new group at its end. */
  lemma OpenBatchGrows(groups: seq<Group>, before: seq<(string, Batch)>)
    requires |groups| > 0 && DistinctWords(groups)
    requires PairedOff(groups[..|groups| - 1], before)
    ensures var n, k := |groups| - 1, |before| - 1;
      2 * k <= n < 2 * k + 2 && Put(before[k].1, groups[n]) == groups[2 * k..n + 1]
  {
    var n, k := |groups| - 1, |before| - 1;
    var last := before[k].1;
    assert 2 * k <= n < 2 * k + 2 && last == groups[2 * k..n] by {
      assert last == Pair(groups[..n], k);
      assert groups[..n][2 * k..n] == groups[2 * k..n];
    }
    FreshInSlice(groups, 2 * k, n);
    assert groups[2 * k..n] + [groups[n]] == groups[2 * k..n + 1];
  }

  /** With distinct words, the last group's word is new to any run just before it. */
  lemma FreshInSlice(groups: seq<Group>, lo: nat, n: nat)
    requires DistinctWords(groups) && lo <= n < |groups|
    ensures forall i :: 0 <= i < n - lo ==> groups[lo..n][i].word != groups[n].word
  {
    assert forall i :: 0 <= i < n - lo ==> groups[lo..n][i] == groups[lo + i];
  }

  /** The closed batches are pairs of the longer list too. */
  lemma EarlierPairsKept(groups: seq<Group>, before: seq<(string, Batch)>)
    requires |groups| > 0
    requires PairedOff(groups[..|groups| - 1], before)
    ensures forall j :: 0 <= j < |before| - 1 ==> before[j].1 == Pair(groups, j)
  {
    var n := |groups| - 1;
    forall j | 0 <= j < |before| - 1
      ensures before[j].1 == Pair(groups, j)
    {
      assert 2 * j + 2 <= n;
      assert Pair(groups[..n], j) == Pair(groups, j);
    }
  }

  /** All contents, one batch after another. */
  function Flatten(batches: seq<(string, Batch)>): seq<Group>
    decreases |batches|
  {
    if |batches| == 0 then [] else Flatten(batches[..|batches| - 1]) + batches[|batches| - 1].1
  }

  lemma {:induction false} FlattenPairs(groups: seq<Group>, batches: seq<(string, Batch)>, j: nat)
    requires j <= |batches| && 2 * j <= |groups| + 2
    requires forall k :: 0 <= k < |batches| ==> 2 * k <= |groups| && batches[k].1 == Pair(groups, k)
    ensures Flatten(batches[..j]) == groups[..Min(2 * j, |groups|)]
    decreases j
  {
    if j > 0 {
      assert batches[..j][..j - 1] == batches[..j - 1];
      FlattenPairs(groups, batches, j - 1);
    }
  }

  /**
   * Dealing distinct words: every batch holds at most two, the last holds
   * `n % 2` (so it is empty for an even count, zero included), and the
   * batches, read in order, give back the groups unchanged.
   */
  lemma DealtShape(groups: seq<Group>)
    requires DistinctWords(groups)
    ensures var batches := Dealt(groups);
      && (forall k :: 0 <= k < |batches| ==> |batches[k].1| <= 2)
      && |batches[|batches| - 1].1| == |groups| % 2
      && Flatten(batches) == groups
  {
    DealtPairs(groups);
    var batches := Dealt(groups);
    FlattenPairs(groups, batches, |batches|);
    assert batches[..|batches|] == batches;
  }

  /** `create_phrase_batches` without the files: group the entries, then deal the groups. */
  method CreatePhraseBatches(entries: seq<ClipEntry>) returns (batches: seq<(string, Batch)>)
    ensures batches == Dealt(Grouped(entries))
    ensures Flatten(batches) == Grouped(entries)
    ensures forall k :: 0 <= k < |batches| ==> batches[k].0 == BatchKey(k) && |batches[k].1| <= 2
  {
    var groups := GroupClipsByWord(entries);
    GroupedShape(entries);
    DealtShape(groups);
    DealtKeys(groups);
    batches := DealBatches(groups);
  }
}
