/**
 * The block of `process_file` that turns the evaluated dictionary into one
 * ordered timeline: flattening every list of recordings into rows that
 * start with their sign, padding legacy rows with attempt 0, tracking the
 * highest attempt per sign, sorting by sign end and computing the reject
 * list.
 */
module Timeline {
  import opened Basics
  import opened Text
  import opened Records

  /** A row whose index 0 is its sign name, as every flattened row is. */
  predicate Signed(r: Row) {
    |r| > 0 && r[0].Str?
  }

  /** The sign name of a flattened row (every row built here has one). */
  function SignOf(r: Row): string {
    if Signed(r) then r[0].s else ""
  }

  predicate AllSigned(rows: seq<Row>) {
    forall k :: 0 <= k < |rows| ==> Signed(rows[k])
  }

  /**
   * `list(recording)` with the sign inserted at index 0; a row of six
   * elements, from a recorder without attempt numbers, gets attempt 0.
   */
  function PadRecord(sign: string, recording: seq<Value>): (r: Row)
    ensures Signed(r) && SignOf(r) == sign
  {
    var row := [Str(sign)] + recording;
    if |row| == 6 then row + [Int(0)] else row
  }

  /**
   * The padded row is the sign followed by the recording, and only a
   * five-element recording gains an element, attempt 0.
   */
  lemma PadRecordShape(sign: string, recording: seq<Value>)
    ensures var r := PadRecord(sign, recording);
      && |r| == (if |recording| == 5 then 7 else |recording| + 1)
      && r[1..|recording| + 1] == recording
      && (|r| == 7 ==> r[6] == if |recording| == 5 then Int(0) else recording[5])
  {
  }

  /** The rows of one sign's list, in order. */
  function PadAll(sign: string, recordings: seq<seq<Value>>): (r: seq<Row>)
    ensures |r| == |recordings| && AllSigned(r)
    ensures forall k :: 0 <= k < |r| ==> r[k] == PadRecord(sign, recordings[k])
  {
    seq(|recordings|, k requires 0 <= k < |recordings| => PadRecord(sign, recordings[k]))
  }

  lemma PadAllCons(sign: string, recordings: seq<seq<Value>>, j: nat)
    requires j < |recordings|
    ensures PadAll(sign, recordings[j..]) == [PadRecord(sign, recordings[j])] + PadAll(sign, recordings[j + 1..])
  {
  }

  /** Entries that are not lists (metadata such as a version) contribute nothing. */
  function EntryRows(sign: string, e: Entry): (r: seq<Row>)
    ensures AllSigned(r)
  {
    match e
    case NotAList(_) => []
    case Tuples(ts) => PadAll(sign, ts)
  }

  /** `newList`: the rows of every entry, in the dictionary's order. */
  function Rows(data: Dict): (r: seq<Row>)
    ensures AllSigned(r)
    decreases |data|
  {
    if |data| == 0 then []
    else
      var r := EntryRows(data[0].0, data[0].1) + Rows(data[1..]);
      SignedConcat(EntryRows(data[0].0, data[0].1), Rows(data[1..]));
      r
  }

  lemma SignedConcat(a: seq<Row>, b: seq<Row>)
    requires AllSigned(a) && AllSigned(b)
    ensures AllSigned(a + b)
  {
    assert forall k :: 0 <= k < |a + b| ==> (a + b)[k] == if k < |a| then a[k] else b[k - |a|];
  }

  /** Every row carries the name of the entry it came from. */
  lemma {:induction false} RowsFromEntries(data: Dict)
    ensures forall r :: r in Rows(data) ==> exists i :: 0 <= i < |data| && SignOf(r) == data[i].0
    decreases |data|
  {
    if |data| > 0 {
      RowsFromEntries(data[1..]);
      forall r | r in Rows(data)
        ensures exists i :: 0 <= i < |data| && SignOf(r) == data[i].0
      {
        if r in Rows(data[1..]) {
          var i :| 0 <= i < |data[1..]| && SignOf(r) == data[1..][i].0;
          assert data[i + 1] == data[1..][i];
        } else {
          assert r in EntryRows(data[0].0, data[0].1);
          assert SignOf(r) == data[0].0;
        }
      }
    }
  }

  /** `max_attempt` after one more row: an IndexError without index 6. */
  function Observe(m: map<string, Value>, row: Row): (r: Result<map<string, Value>, PyError>)
    ensures r.Err? <==> |row| < 7 || (SignOf(row) in m && PyLess(m[SignOf(row)], row[6]).None?)
  {
    if |row| < 7 then Err(IndexError)
    else if SignOf(row) in m then
      var best :- PyMax(m[SignOf(row)], row[6]);
      Ok(m[SignOf(row) := best])
    else Ok(m[SignOf(row) := row[6]])
  }

  /**
   * `max_attempt` after the given rows, starting from `m`, or the exception
   * that stops the loop.
   */
  function TrackFrom(m: map<string, Value>, rows: seq<Row>): Result<map<string, Value>, PyError>
    decreases |rows|
  {
    if |rows| == 0 then Ok(m)
    else
      var next :- Observe(m, rows[0]);
      TrackFrom(next, rows[1..])
  }

  /** Tracking two stretches of rows is tracking the first, then the second. */
  lemma {:induction false} TrackFromAppend(m: map<string, Value>, a: seq<Row>, b: seq<Row>)
    ensures TrackFrom(m, a).Err? ==> TrackFrom(m, a + b) == TrackFrom(m, a)
    ensures TrackFrom(m, a).Ok? ==> TrackFrom(m, a + b) == TrackFrom(TrackFrom(m, a).value, b)
    decreases |a|
  {
    if |a| > 0 {
      assert (a + b)[0] == a[0];
      assert (a + b)[1..] == a[1..] + b;
      if Observe(m, a[0]).Ok? {
        TrackFromAppend(Observe(m, a[0]).value, a[1..], b);
      }
    } else {
      assert a + b == b;
    }
  }

  /** The rows and the highest attempt per sign, or the exception raised while building them. */
  function NormalizeSpec(data: Dict): Result<(seq<Row>, map<string, Value>), PyError> {
    var rows := Rows(data);
    var m :- TrackFrom(map[], rows);
    Ok((rows, m))
  }

  /**
   * Tracking succeeds only when every row has an attempt field, and then
   * every row's sign, and every sign already tracked, is in the table.
   */
  lemma {:induction false} TrackFromCovers(m: map<string, Value>, rows: seq<Row>)
    requires TrackFrom(m, rows).Ok?
    ensures forall k :: 0 <= k < |rows| ==> |rows[k]| >= 7 && SignOf(rows[k]) in TrackFrom(m, rows).value
    ensures forall s :: s in m ==> s in TrackFrom(m, rows).value
    decreases |rows|
  {
    if |rows| > 0 {
      var next := Observe(m, rows[0]).value;
      TrackFromCovers(next, rows[1..]);
      assert forall k :: 1 <= k < |rows| ==> rows[k] == rows[1..][k - 1];
    }
  }

  /**
   * The two nested loops of `process_file` that build `newList` and
   * `max_attempt`, stopping at the first exception.
   */
  method Normalize(data: Dict) returns (r: Result<(seq<Row>, map<string, Value>), PyError>)
    ensures r == NormalizeSpec(data)
  {
    var newList: seq<Row> := [];
    var maxAttempt: map<string, Value> := map[];
    var i := 0;
    while i < |data|
      invariant 0 <= i <= |data|
      invariant newList == Rows(data[..i])
      invariant TrackFrom(map[], Rows(data)) == TrackFrom(maxAttempt, Rows(data[i..]))
    {
      var (sign, entry) := data[i];
      if entry.Tuples? {
        var next := AddRecordings(newList, maxAttempt, sign, entry.tuples);
        if next.Err? {
          NormalizeStepFails(data, i, maxAttempt, next.error);
          return Err(next.error);
        }
        NormalizeStep(data, i, newList, maxAttempt, next.value.0, next.value.1);
        newList, maxAttempt := next.value.0, next.value.1;
      } else {
        NormalizeStep(data, i, newList, maxAttempt, newList, maxAttempt);
      }
      i := i + 1;
    }
    NormalizeDone(data, newList, maxAttempt);
    return Ok((newList, maxAttempt));
  }

  /** One entry handled: the rows so far grow by its rows, and the tracking moves past them. */
  lemma NormalizeStep(data: Dict, i: nat, rows: seq<Row>, m: map<string, Value>,
                      rows': seq<Row>, m': map<string, Value>)
    requires i < |data| && rows == Rows(data[..i])
    requires TrackFrom(map[], Rows(data)) == TrackFrom(m, Rows(data[i..]))
    requires rows' == rows + EntryRows(data[i].0, data[i].1)
    requires TrackFrom(m, EntryRows(data[i].0, data[i].1)) == Ok(m')
    ensures rows' == Rows(data[..i + 1])
    ensures TrackFrom(map[], Rows(data)) == TrackFrom(m', Rows(data[i + 1..]))
  {
    RowsStep(data, i);
    RowsSnoc(data, i);
    TrackFromAppend(m, EntryRows(data[i].0, data[i].1), Rows(data[i + 1..]));
  }

  /** An entry whose rows raise makes the whole loop raise that error. */
  lemma NormalizeStepFails(data: Dict, i: nat, m: map<string, Value>, e: PyError)
    requires i < |data|
    requires TrackFrom(map[], Rows(data)) == TrackFrom(m, Rows(data[i..]))
    requires TrackFrom(m, EntryRows(data[i].0, data[i].1)) == Err(e)
    ensures NormalizeSpec(data) == Err(e)
  {
    RowsStep(data, i);
    TrackFromAppend(m, EntryRows(data[i].0, data[i].1), Rows(data[i + 1..]));
    NormalizeFails(data, e);
  }

  lemma NormalizeFails(data: Dict, e: PyError)
    requires TrackFrom(map[], Rows(data)) == Err(e)
    ensures NormalizeSpec(data) == Err(e)
  {
  }

  lemma NormalizeDone(data: Dict, rows: seq<Row>, m: map<string, Value>)
    requires rows == Rows(data[..|data|])
    requires TrackFrom(map[], Rows(data)) == TrackFrom(m, Rows(data[|data|..]))
    ensures NormalizeSpec(data) == Ok((rows, m))
  {
    assert data[|data|..] == [];
    assert data[..|data|] == data;
  }

  /**
   * A recording of the legacy schema has four values: with its sign it is
   * a row of five, which is not padded, so reading its attempt field
   * raises IndexError while the first entry is normalised.
   */
  lemma LegacyRecordIndexError(s: string, f: string, a: string, b: string, c: string,
                               more: seq<seq<Value>>, rest: Dict)
    ensures NormalizeSpec([(s, Tuples([[Str(f), Str(a), Str(b), Str(c)]] + more))] + rest) == Err(IndexError)
  {
  }

  lemma {:induction false} RowsAppend(a: Dict, b: Dict)
    ensures Rows(a + b) == Rows(a) + Rows(b)
    decreases |a|
  {
    if |a| > 0 {
      RowsHead(a, b);
      RowsAppend(a[1..], b);
      AppendAssoc(EntryRows(a[0].0, a[0].1), Rows(a[1..]), Rows(b));
    } else {
      assert a + b == b;
    }
  }

  lemma RowsHead(a: Dict, b: Dict)
    requires |a| > 0
    ensures Rows(a) == EntryRows(a[0].0, a[0].1) + Rows(a[1..])
    ensures Rows(a + b) == EntryRows(a[0].0, a[0].1) + Rows(a[1..] + b)
  {
    assert (a + b)[0] == a[0];
    assert (a + b)[1..] == a[1..] + b;
  }

  lemma AppendAssoc(x: seq<Row>, y: seq<Row>, z: seq<Row>)
    ensures x + (y + z) == (x + y) + z
  {
  }

  lemma RowsSnoc(data: Dict, i: nat)
    requires i < |data|
    ensures Rows(data[..i + 1]) == Rows(data[..i]) + EntryRows(data[i].0, data[i].1)
  {
    assert data[..i + 1] == data[..i] + [data[i]];
    RowsAppend(data[..i], [data[i]]);
    assert Rows([data[i]]) == EntryRows(data[i].0, data[i].1) + Rows([]);
  }

  lemma RowsStep(data: Dict, i: nat)
    requires i < |data|
    ensures Rows(data[i..]) == EntryRows(data[i].0, data[i].1) + Rows(data[i + 1..])
  {
    assert data[i..][1..] == data[i + 1..];
  }

  /** The inner loop: one sign's recordings appended to `newList`, tracking attempts. */
  method AddRecordings(rows: seq<Row>, m: map<string, Value>, sign: string, recordings: seq<seq<Value>>)
    returns (r: Result<(seq<Row>, map<string, Value>), PyError>)
    ensures r.Ok? ==> r.value.0 == rows + PadAll(sign, recordings) && TrackFrom(m, PadAll(sign, recordings)) == Ok(r.value.1)
    ensures r.Err? ==> TrackFrom(m, PadAll(sign, recordings)) == Err(r.error)
  {
    var newList := rows;
    var maxAttempt := m;
    var j := 0;
    while j < |recordings|
      invariant 0 <= j <= |recordings|
      invariant newList == rows + PadAll(sign, recordings[..j])
      invariant TrackFrom(m, PadAll(sign, recordings)) == TrackFrom(maxAttempt, PadAll(sign, recordings[j..]))
    {
      var row := PadRecord(sign, recordings[j]);
      PadAllCons(sign, recordings, j);
      assert PadAll(sign, recordings[..j + 1]) == PadAll(sign, recordings[..j]) + [row];
      newList := newList + [row];
      var next := Observe(maxAttempt, row);
      if next.Err? {
        return Err(next.error);
      }
      maxAttempt := next.value;
      j := j + 1;
    }
    assert recordings[..j] == recordings;
    assert PadAll(sign, recordings[j..]) == [];
    return Ok((newList, maxAttempt));
  }

  /** Rows whose attempts are all integers, as the current recorder writes them. */
  predicate IntAttempts(rows: seq<Row>) {
    forall r: Row :: r in rows ==> Signed(r) && |r| >= 7 && r[6].Int?
  }

  /** `m` maps each sign of `rows` to the highest attempt among its rows, and nothing else. */
  predicate IsMaxAttempt(rows: seq<Row>, m: map<string, Value>)
    requires IntAttempts(rows)
  {
    && (forall r: Row :: r in rows ==> SignOf(r) in m && m[SignOf(r)].Int? && r[6].n <= m[SignOf(r)].n)
    && (forall s :: s in m ==> exists r: Row :: r in rows && SignOf(r) == s && r[6] == m[s])
  }

  /** One more row with an integer attempt keeps the table a per-sign maximum. */
  lemma ObserveKeepsMax(rows: seq<Row>, m: map<string, Value>, last: Row)
    requires IntAttempts(rows + [last]) && IntAttempts(rows) && IsMaxAttempt(rows, m)
    ensures Observe(m, last).Ok? && IsMaxAttempt(rows + [last], Observe(m, last).value)
  {
    assert last in rows + [last];
    var s := SignOf(last);
    var m' := m[s := if s in m then Int(Max(m[s].n, last[6].n)) else last[6]];
    assert Observe(m, last) == Ok(m');
    forall r: Row | r in rows + [last]
      ensures SignOf(r) in m' && m'[SignOf(r)].Int? && r[6].n <= m'[SignOf(r)].n
    {
      if r != last {
        assert r in rows;
      }
    }
    forall t | t in m'
      ensures exists r: Row :: r in rows + [last] && SignOf(r) == t && r[6] == m'[t]
    {
      if t == s && !(s in m && last[6].n < m[s].n) {
        assert last in rows + [last];
      } else {
        var r: Row :| r in rows && SignOf(r) == t && r[6] == m[t];
        assert r in rows + [last];
      }
    }
  }

  /**
   * With integer attempts the loop never raises: from a table that is the
   * maximum of the rows seen so far, it computes the maximum of all rows.
   */
  lemma {:induction false} TrackComputesMax(done: seq<Row>, m: map<string, Value>, rows: seq<Row>)
    requires IntAttempts(done + rows) && IsMaxAttempt(done, m)
    requires forall r: Row :: r in done ==> r in done + rows
    ensures TrackFrom(m, rows).Ok? && IsMaxAttempt(done + rows, TrackFrom(m, rows).value)
    decreases |rows|
  {
    assert forall r: Row :: r in rows ==> r in done + rows;
    if |rows| == 0 {
      assert done + rows == done;
    } else {
      var done' := done + [rows[0]];
      assert done' + rows[1..] == done + rows;
      assert forall r: Row :: r in done' ==> r in done + rows;
      ObserveKeepsMax(done, m, rows[0]);
      TrackComputesMax(done', Observe(m, rows[0]).value, rows[1..]);
    }
  }

  /** From an empty table: integer attempts give the per-sign maximum of every row. */
  lemma MaxAttemptOfRows(rows: seq<Row>)
    requires IntAttempts(rows)
    ensures TrackFrom(map[], rows).Ok? && IsMaxAttempt(rows, TrackFrom(map[], rows).value)
  {
    assert [] + rows == rows;
    TrackComputesMax([], map[], rows);
  }

  /** The sort key `tup[4]`: the sign end, a string in every recorder schema. */
  predicate HasEndKey(r: Row) {
    |r| > 4 && r[4].Str?
  }

  function EndKey(r: Row): string
    requires HasEndKey(r)
  {
    r[4].s
  }

  predicate Keyed(rows: seq<Row>) {
    forall k :: 0 <= k < |rows| ==> HasEndKey(rows[k])
  }

  /** Ascending by sign end, as `sorted` leaves it. */
  predicate SortedByEnd(rows: seq<Row>)
    requires Keyed(rows)
  {
    forall i, j :: 0 <= i < j < |rows| ==> !Less(EndKey(rows[j]), EndKey(rows[i]))
  }

  /** Places `x` after every row whose key is not greater than its own. */
  function Insert(s: seq<Row>, x: Row): (r: seq<Row>)
    requires Keyed(s) && HasEndKey(x)
    ensures Keyed(r) && multiset(r) == multiset(s) + multiset{x}
    decreases |s|
  {
    if |s| == 0 then [x]
    else if Less(EndKey(x), EndKey(s[0])) then [x] + s
    else
      var tail := Insert(s[1..], x);
      assert s == [s[0]] + s[1..];
      [s[0]] + tail
  }

  /** A key below the first key of a sorted sequence is below all of its keys. */
  lemma BelowFirst(s: seq<Row>, key: string)
    requires Keyed(s) && SortedByEnd(s) && |s| > 0 && Less(key, EndKey(s[0]))
    ensures forall j :: 0 <= j < |s| ==> Less(key, EndKey(s[j]))
  {
    forall j | 0 < j < |s|
      ensures Less(key, EndKey(s[j]))
    {
      LessTotal(EndKey(s[0]), EndKey(s[j]));
      if Less(EndKey(s[0]), EndKey(s[j])) {
        LessTransitive(key, EndKey(s[0]), EndKey(s[j]));
      }
    }
  }

  lemma {:induction false} InsertSorted(s: seq<Row>, x: Row)
    requires Keyed(s) && HasEndKey(x) && SortedByEnd(s)
    ensures SortedByEnd(Insert(s, x))
    decreases |s|
  {
    if |s| > 0 {
      if Less(EndKey(x), EndKey(s[0])) {
        BelowFirst(s, EndKey(x));
        forall j | 0 <= j < |s|
          ensures !Less(EndKey(s[j]), EndKey(x))
        {
          LessAsymmetric(EndKey(x), EndKey(s[j]));
        }
      } else {
        InsertSorted(s[1..], x);
        InsertAfterFirst(s, x);
      }
    }
  }

  /** When `x` goes after the first row, that row stays ahead of everything. */
  lemma InsertAfterFirst(s: seq<Row>, x: Row)
    requires Keyed(s) && HasEndKey(x) && SortedByEnd(s) && |s| > 0
    requires !Less(EndKey(x), EndKey(s[0])) && SortedByEnd(Insert(s[1..], x))
    ensures SortedByEnd(Insert(s, x))
  {
    InsertPast(s, x);
    TailBounded(s);
    InsertBound(s[1..], x, EndKey(s[0]));
    ConsSorted(s[0], Insert(s[1..], x));
  }

  /** Every later row of a sorted sequence is not below its first row. */
  lemma TailBounded(s: seq<Row>)
    requires Keyed(s) && SortedByEnd(s) && |s| > 0
    ensures Keyed(s[1..])
    ensures forall j :: 0 <= j < |s[1..]| ==> !Less(EndKey(s[1..][j]), EndKey(s[0]))
  {
    assert forall j :: 0 <= j < |s[1..]| ==> s[1..][j] == s[j + 1];
  }

  /** Inserting keeps a lower bound that `x` and every row of `s` respect. */
  lemma {:induction false} InsertBound(s: seq<Row>, x: Row, key: string)
    requires Keyed(s) && HasEndKey(x) && !Less(EndKey(x), key)
    requires forall j :: 0 <= j < |s| ==> !Less(EndKey(s[j]), key)
    ensures forall j :: 0 <= j < |Insert(s, x)| ==> !Less(EndKey(Insert(s, x)[j]), key)
    decreases |s|
  {
    if |s| > 0 && !Less(EndKey(x), EndKey(s[0])) {
      InsertBound(s[1..], x, key);
      assert Insert(s, x) == [s[0]] + Insert(s[1..], x);
    }
  }

  lemma ConsSorted(a: Row, t: seq<Row>)
    requires HasEndKey(a) && Keyed(t) && SortedByEnd(t)
    requires forall j :: 0 <= j < |t| ==> !Less(EndKey(t[j]), EndKey(a))
    ensures Keyed([a] + t) && SortedByEnd([a] + t)
  {
    var r := [a] + t;
    assert forall j :: 0 < j < |r| ==> r[j] == t[j - 1];
  }

  /** `sorted(newList, key=lambda tup: tup[4])`: a stable insertion sort. */
  function SortByEnd(rows: seq<Row>): (r: seq<Row>)
    requires Keyed(rows)
    ensures Keyed(r) && SortedByEnd(r)
    ensures multiset(r) == multiset(rows)
    decreases |rows|
  {
    if |rows| == 0 then []
    else
      var init := rows[..|rows| - 1];
      assert rows == init + [rows[|rows| - 1]];
      var sortedInit := SortByEnd(init);
      InsertSorted(sortedInit, rows[|rows| - 1]);
      Insert(sortedInit, rows[|rows| - 1])
  }

  /** The rows with sign end `k`, in order. */
  function WithEnd(rows: seq<Row>, k: string): seq<Row>
    requires Keyed(rows)
    decreases |rows|
  {
    if |rows| == 0 then []
    else (if EndKey(rows[0]) == k then [rows[0]] else []) + WithEnd(rows[1..], k)
  }

  lemma {:induction false} WithEndAppend(a: seq<Row>, b: seq<Row>, k: string)
    requires Keyed(a) && Keyed(b)
    ensures Keyed(a + b) && WithEnd(a + b, k) == WithEnd(a, k) + WithEnd(b, k)
    decreases |a|
  {
    assert Keyed(a + b) by {
      assert forall i :: 0 <= i < |a + b| ==> (a + b)[i] == if i < |a| then a[i] else b[i - |a|];
    }
    if |a| > 0 {
      assert (a + b)[0] == a[0];
      assert (a + b)[1..] == a[1..] + b;
      WithEndAppend(a[1..], b, k);
    } else {
      assert a + b == b;
    }
  }

  lemma {:induction false} WithEndNone(s: seq<Row>, k: string)
    requires Keyed(s) && forall j :: 0 <= j < |s| ==> EndKey(s[j]) != k
    ensures WithEnd(s, k) == []
    decreases |s|
  {
    if |s| > 0 {
      WithEndNone(s[1..], k);
    }
  }

  lemma {:induction false} InsertStable(s: seq<Row>, x: Row, k: string)
    requires Keyed(s) && HasEndKey(x) && SortedByEnd(s)
    ensures WithEnd(Insert(s, x), k) == WithEnd(s, k) + (if EndKey(x) == k then [x] else [])
    decreases |s|
  {
    if |s| == 0 {
      assert Insert(s, x) == [x];
      assert [x][1..] == [];
    } else if Less(EndKey(x), EndKey(s[0])) {
      InsertFrontStable(s, x, k);
    } else {
      var rest := s[1..];
      assert Keyed(rest) && SortedByEnd(rest) by {
        assert forall i :: 0 <= i < |rest| ==> rest[i] == s[i + 1];
      }
      InsertStable(rest, x, k);
      InsertPast(s, x);
      ConsStable(s[0], rest, Insert(rest, x), if EndKey(x) == k then [x] else [], k);
      assert [s[0]] + rest == s;
    }
  }

  /** Putting the same row in front of two lists keeps the relation between their `k`-rows. */
  lemma ConsStable(a: Row, rest: seq<Row>, tail: seq<Row>, extra: seq<Row>, k: string)
    requires HasEndKey(a) && Keyed(rest) && Keyed(tail)
    requires WithEnd(tail, k) == WithEnd(rest, k) + extra
    ensures Keyed([a] + rest) && Keyed([a] + tail)
    ensures WithEnd([a] + tail, k) == WithEnd([a] + rest, k) + extra
  {
    WithEndCons(a, tail, k);
    WithEndCons(a, rest, k);
  }

  /** Inserting past the first row leaves it in front. */
  lemma InsertPast(s: seq<Row>, x: Row)
    requires Keyed(s) && HasEndKey(x) && |s| > 0 && !Less(EndKey(x), EndKey(s[0])) && Keyed(s[1..])
    ensures Insert(s, x) == [s[0]] + Insert(s[1..], x)
  {
  }

  lemma WithEndCons(a: Row, t: seq<Row>, k: string)
    requires HasEndKey(a) && Keyed(t)
    ensures Keyed([a] + t)
    ensures WithEnd([a] + t, k) == (if EndKey(a) == k then [a] else []) + WithEnd(t, k)
  {
    assert ([a] + t)[0] == a;
    assert ([a] + t)[1..] == t;
  }

  /** Inserted in front, `x` precedes only rows with greater keys. */
  lemma InsertFrontStable(s: seq<Row>, x: Row, k: string)
    requires Keyed(s) && HasEndKey(x) && SortedByEnd(s) && |s| > 0 && Less(EndKey(x), EndKey(s[0]))
    ensures WithEnd(Insert(s, x), k) == WithEnd(s, k) + (if EndKey(x) == k then [x] else [])
  {
    assert Insert(s, x) == [x] + s;
    assert ([x] + s)[1..] == s;
    if EndKey(x) == k {
      BelowFirst(s, k);
      forall j | 0 <= j < |s|
        ensures EndKey(s[j]) != k
      {
        LessIrreflexive(k);
      }
      WithEndNone(s, k);
    }
  }

  /** Rows with equal sign ends keep their relative order. */
  lemma {:induction false} SortStable(rows: seq<Row>, k: string)
    requires Keyed(rows)
    ensures WithEnd(SortByEnd(rows), k) == WithEnd(rows, k)
    decreases |rows|
  {
    if |rows| > 0 {
      var init := rows[..|rows| - 1];
      var last := rows[|rows| - 1];
      assert rows == init + [last];
      assert Keyed(init) by {
        assert forall i :: 0 <= i < |init| ==> init[i] == rows[i];
      }
      var sortedInit := SortByEnd(init);
      assert SortByEnd(rows) == Insert(sortedInit, last);
      SortStable(init, k);
      InsertStable(sortedInit, last, k);
      WithEndAppend(init, [last], k);
      assert [last][1..] == [];
      assert WithEnd([last], k) == if EndKey(last) == k then [last] else [];
    }
  }

  /** `reject_list`: whether each row's attempt is below its sign's highest. */
  function RejectList(rows: seq<Row>, m: map<string, Value>): (r: Result<seq<bool>, PyError>)
    requires forall k :: 0 <= k < |rows| ==> |rows[k]| >= 7 && SignOf(rows[k]) in m
    ensures r.Ok? ==> |r.value| == |rows|
    ensures r.Ok? ==> forall k :: 0 <= k < |rows| ==> PyLess(rows[k][6], m[SignOf(rows[k])]) == Some(r.value[k])
    ensures r.Err? <==> exists k :: 0 <= k < |rows| && PyLess(rows[k][6], m[SignOf(rows[k])]).None?
    decreases |rows|
  {
    if |rows| == 0 then Ok([])
    else
      var init :- RejectList(rows[..|rows| - 1], m);
      match PyLess(rows[|rows| - 1][6], m[SignOf(rows[|rows| - 1])])
      case None => Err(TypeError)
      case Some(b) => Ok(init + [b])
  }

  /**
   * With integer attempts, a row is rejected exactly when another row of
   * the same sign has a higher attempt, and every sign keeps at least one
   * row that is not rejected.
   */
  lemma RejectsLowerAttempts(rows: seq<Row>, m: map<string, Value>)
    requires IntAttempts(rows) && IsMaxAttempt(rows, m)
    ensures forall k :: 0 <= k < |rows| ==> |rows[k]| >= 7 && SignOf(rows[k]) in m
    ensures RejectList(rows, m).Ok?
    ensures forall k :: 0 <= k < |rows| ==>
      (RejectList(rows, m).value[k] <==> exists j :: 0 <= j < |rows| && SignOf(rows[j]) == SignOf(rows[k]) && rows[k][6].n < rows[j][6].n)
    ensures forall s :: s in m ==> exists k :: 0 <= k < |rows| && SignOf(rows[k]) == s && !RejectList(rows, m).value[k]
  {
    assert forall k :: 0 <= k < |rows| ==> rows[k] in rows;
    var rej := RejectList(rows, m).value;
    forall k | 0 <= k < |rows|
      ensures rej[k] <==> exists j :: 0 <= j < |rows| && SignOf(rows[j]) == SignOf(rows[k]) && rows[k][6].n < rows[j][6].n
    {
      var s := SignOf(rows[k]);
      if rej[k] {
        var r: Row :| r in rows && SignOf(r) == s && r[6] == m[s];
        var j :| 0 <= j < |rows| && rows[j] == r;
      }
    }
    forall s | s in m
      ensures exists k :: 0 <= k < |rows| && SignOf(rows[k]) == s && !rej[k]
    {
      var r: Row :| r in rows && SignOf(r) == s && r[6] == m[s];
      var k :| 0 <= k < |rows| && rows[k] == r;
      assert !rej[k];
    }
  }

  /** The highest-attempt table describes the sorted rows as well as the unsorted ones. */
  lemma MaxAttemptAfterSort(rows: seq<Row>, m: map<string, Value>)
    requires Keyed(rows) && IntAttempts(rows) && IsMaxAttempt(rows, m)
    ensures IntAttempts(SortByEnd(rows)) && IsMaxAttempt(SortByEnd(rows), m)
  {
    var sorted := SortByEnd(rows);
    assert forall r :: r in sorted <==> r in rows by {
      forall r
        ensures r in sorted <==> r in rows
      {
        assert r in sorted <==> r in multiset(sorted);
        assert r in rows <==> r in multiset(rows);
      }
    }
  }

  /**
   * `sorted(newList, key=lambda tup: tup[4])`: one row needs no comparison;
   * otherwise the keys must all be strings, since a key of another type is
   * compared, sooner or later, with a string or with None.
   */
  function SortRows(rows: seq<Row>): (r: Result<seq<Row>, PyError>)
    ensures r.Err? <==> |rows| > 1 && !Keyed(rows)
    ensures r.Err? ==> r.error == TypeError
    ensures r.Ok? ==> multiset(r.value) == multiset(rows)
    ensures r.Ok? && |rows| > 1 ==> Keyed(r.value) && SortedByEnd(r.value)
  {
    if |rows| <= 1 then Ok(rows)
    else if Keyed(rows) then Ok(SortByEnd(rows))
    else Err(TypeError)
  }

  /** Sorting keeps every row and brings in no other. */
  lemma SortedRowsAreRows(rows: seq<Row>, sorted: seq<Row>)
    requires multiset(sorted) == multiset(rows)
    ensures forall r :: r in sorted <==> r in rows
  {
    forall r
      ensures r in sorted <==> r in rows
    {
      assert r in sorted <==> r in multiset(sorted);
      assert r in rows <==> r in multiset(rows);
    }
  }
}
