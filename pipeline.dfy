/**
 * `process_file`: one timestamps image, from its description to the encoder
 * requests of its recordings and the lines appended to the error files.
 * The pool is a sequential, order-preserving map: each task reads only its
 * own record and the one before it.
 */
module Pipeline {
  import opened Basics
  import opened Records
  import opened Description
  import opened Timeline
  import opened Naming
  import opened Clips

  /** The extraction of the `i`-th record of the sorted timeline. */
  function Run(opts: Options, config: Config, uid: string, sorted: seq<Row>, i: nat,
               videoPath: string, isValidExists: bool): Result<Extraction, PyError>
    requires i < |sorted| && |sorted[i]| >= 7
  {
    ExtractClip(opts, config, uid, SignOf(sorted[i]), sorted[i][6], sorted[i],
                if i > 0 then Some(sorted[i - 1]) else None, videoPath, isValidExists, false)
  }

  /** The extractions, one per record, in timeline order. */
  function Runs(opts: Options, config: Config, uid: string, sorted: seq<Row>, videoPath: string,
                isValidExists: bool): (r: seq<Result<Extraction, PyError>>)
    requires forall k :: 0 <= k < |sorted| ==> |sorted[k]| >= 7
    ensures |r| == |sorted|
    ensures forall i :: 0 <= i < |sorted| ==> r[i] == Run(opts, config, uid, sorted, i, videoPath, isValidExists)
  {
    seq(|sorted|, i requires 0 <= i < |sorted| => Run(opts, config, uid, sorted, i, videoPath, isValidExists))
  }

  /** The requests that reach the encoder: those of the extractions that did not raise. */
  function Issued(runs: seq<Result<Extraction, PyError>>): (r: seq<ClipRequest>)
    ensures |r| <= |runs|
    ensures (forall k :: 0 <= k < |runs| ==> runs[k].Err?) ==> r == []
    ensures forall q :: q in r ==> exists k :: 0 <= k < |runs| && runs[k].Ok? && runs[k].value.request == q
    decreases |runs|
  {
    if |runs| == 0 then []
    else
      var rest := Issued(runs[1..]);
      assert forall q :: q in rest ==> exists k :: 1 <= k < |runs| && runs[k].Ok? && runs[k].value.request == q by {
        forall q | q in rest
          ensures exists k :: 1 <= k < |runs| && runs[k].Ok? && runs[k].value.request == q
        {
          var j :| 0 <= j < |runs[1..]| && runs[1..][j].Ok? && runs[1..][j].value.request == q;
          assert runs[j + 1] == runs[1..][j];
        }
      }
      if runs[0].Ok? then [runs[0].value.request] + rest else rest
  }

  /**
   * A task's return value: the encoder runs on the request, and a failed
   * run raises (`check=True`). `encode` says whether the encoder succeeds.
   */
  function Outcome(run: Result<Extraction, PyError>, encode: ClipRequest -> bool): (r: Result<TaskResult, PyError>)
    ensures r.Ok? <==> run.Ok? && encode(run.value.request)
    ensures r.Ok? ==> r.value == run.value.result
    ensures run.Err? ==> r == Err(run.error)
    ensures run.Ok? && !encode(run.value.request) ==> r == Err(CalledProcessError)
  {
    var e :- run;
    if encode(e.request) then Ok(e.result) else Err(CalledProcessError)
  }

  function Outcomes(runs: seq<Result<Extraction, PyError>>, encode: ClipRequest -> bool)
    : (r: seq<Result<TaskResult, PyError>>)
    ensures |r| == |runs|
    ensures forall k :: 0 <= k < |runs| ==> r[k] == Outcome(runs[k], encode)
  {
    seq(|runs|, k requires 0 <= k < |runs| => Outcome(runs[k], encode))
  }

  /**
   * `pool.map`: the results come back in order, or the call raises the
   * exception of a task that raised; of the schedules the pool allows, the
   * model takes the one that reports the failing task of lowest index.
   */
  function PoolMap(outs: seq<Result<TaskResult, PyError>>): (r: Result<seq<TaskResult>, PyError>)
    ensures r.Ok? <==> forall k :: 0 <= k < |outs| ==> outs[k].Ok?
    ensures r.Ok? ==> |r.value| == |outs| && forall k :: 0 <= k < |outs| ==> outs[k] == Ok(r.value[k])
    ensures r.Err? ==>
      exists k :: 0 <= k < |outs| && outs[k] == Err(r.error) && forall j :: 0 <= j < k ==> outs[j].Ok?
    decreases |outs|
  {
    if |outs| == 0 then Ok([])
    else if outs[0].Err? then Err(outs[0].error)
    else
      match PoolMap(outs[1..])
      case Err(e) =>
        var k :| 0 <= k < |outs[1..]| && outs[1..][k] == Err(e) && forall j :: 0 <= j < k ==> outs[1..][j].Ok?;
        assert outs[k + 1] == Err(e);
        assert forall j :: 1 <= j < k + 1 ==> outs[j] == outs[1..][j - 1];
        Err(e)
      case Ok(rest) =>
        assert forall k :: 1 <= k < |outs| ==> outs[k] == outs[1..][k - 1];
        Ok([outs[0].value] + rest)
  }

  /** `fileName + ', ' + signName + '\n'`: concatenation raises unless both are strings. */
  function ErrorLine(fileName: Value, signName: Value): (r: Result<string, PyError>)
    ensures r.Ok? <==> fileName.Str? && signName.Str?
    ensures r.Ok? ==> r.value == fileName.s + ", " + signName.s + "\n"
    ensures r.Err? ==> r.error == TypeError
  {
    if fileName.Str? && signName.Str? then Ok(fileName.s + ", " + signName.s + "\n")
    else Err(TypeError)
  }

  /**
   * The `errorSigns.txt` loop over the first results: the lines written, and
   * the exception that stopped it, if any.
   */
  function ErrorLog(results: seq<TaskResult>): (r: (seq<string>, Option<PyError>))
    decreases |results|
  {
    if |results| == 0 then ([], None)
    else
      var (lines, failure) := ErrorLog(results[..|results| - 1]);
      if failure.Some? then (lines, failure)
      else match results[|results| - 1]
        case Accepted => (lines, None)
        case Flagged(f, s) =>
          match ErrorLine(f, s)
          case Ok(line) => (lines + [line], None)
          case Err(e) => (lines, Some(e))
  }

  /** The loop itself. */
  method WriteErrorSigns(results: seq<TaskResult>) returns (lines: seq<string>, failure: Option<PyError>)
    ensures (lines, failure) == ErrorLog(results)
  {
    lines, failure := [], None;
    var i := 0;
    while i < |results| && failure.None?
      invariant 0 <= i <= |results|
      invariant (lines, failure) == ErrorLog(results[..i])
      invariant failure.Some? ==> ErrorLog(results) == ErrorLog(results[..i])
      decreases |results| - i
    {
      assert results[..i + 1][..i] == results[..i];
      if results[i].Flagged? {
        var line := ErrorLine(results[i].fileName, results[i].signName);
        if line.Ok? {
          lines := lines + [line.value];
        } else {
          failure := Some(line.error);
          ErrorLogStops(results, i + 1);
        }
      }
      i := i + 1;
    }
    if failure.None? {
      assert results[..i] == results;
    }
  }

  /** Once the loop has raised, later results change nothing. */
  lemma {:induction false} ErrorLogStops(results: seq<TaskResult>, i: nat)
    requires i <= |results| && ErrorLog(results[..i]).1.Some?
    ensures ErrorLog(results) == ErrorLog(results[..i])
    decreases |results| - i
  {
    if i < |results| {
      assert results[..i + 1][..i] == results[..i];
      ErrorLogStops(results, i + 1);
    } else {
      assert results[..i] == results;
    }
  }

  /** The flagged results, in order. */
  function FlaggedOf(results: seq<TaskResult>): (r: seq<TaskResult>)
    ensures forall t :: t in r ==> t.Flagged? && t in results
    decreases |results|
  {
    if |results| == 0 then []
    else
      var init := FlaggedOf(results[..|results| - 1]);
      if results[|results| - 1].Flagged? then init + [results[|results| - 1]] else init
  }

  /** Every flagged result names its file and sign as strings. */
  predicate Printable(results: seq<TaskResult>) {
    forall k :: 0 <= k < |results| && results[k].Flagged? ==>
      results[k].fileName.Str? && results[k].signName.Str?
  }

  /**
   * The error log has exactly one line per flagged result, in timeline
   * order, when every flagged result names its file and sign as strings;
   * otherwise the loop raises TypeError.
   */
  lemma {:induction false} ErrorLogLines(results: seq<TaskResult>)
    ensures ErrorLog(results).1.None? <==> Printable(results)
    ensures ErrorLog(results).1.Some? ==> ErrorLog(results).1 == Some(TypeError)
    ensures Printable(results) ==>
      var lines := ErrorLog(results).0;
      var flagged := FlaggedOf(results);
      && |lines| == |flagged|
      && forall k :: 0 <= k < |flagged| ==>
        lines[k] == flagged[k].fileName.s + ", " + flagged[k].signName.s + "\n"
    decreases |results|
  {
    if |results| > 0 {
      var init := results[..|results| - 1];
      ErrorLogLines(init);
      assert forall k :: 0 <= k < |init| ==> init[k] == results[k];
      var flaggedInit := FlaggedOf(init);
      assert forall t :: t in flaggedInit ==> t in init;
    }
  }

  /** An all-valid timeline leaves the error log empty. */
  lemma ValidResultsLogNothing(results: seq<TaskResult>)
    requires forall k :: 0 <= k < |results| ==> results[k].Accepted?
    ensures ErrorLog(results) == ([], None)
    ensures FlaggedOf(results) == []
  {
    ErrorLogLines(results);
  }

  /** What one file leaves behind. */
  datatype FileOutcome = FileOutcome(
    /** The path and contents of the file's own error log. */
    errorLog: Option<(string, string)>,
    /** The lines appended to `error/noSigns.txt`. */
    noSigns: seq<string>,
    /** The encoder requests, in timeline order. */
    clips: seq<ClipRequest>,
    /** The lines appended to `error/errorSigns.txt`. */
    errorSigns: seq<string>,
    /** The exception `process_file` ends with. */
    raised: Option<PyError>)

  /** A file that leaves nothing behind. */
  const Quiet := FileOutcome(None, [], [], [], None)

  /** Every record of the sorted timeline has an attempt and a tracked sign. */
  lemma SortedCovered(rows: seq<Row>, sorted: seq<Row>, m: map<string, Value>)
    requires TrackFrom(map[], rows) == Ok(m)
    requires multiset(sorted) == multiset(rows)
    ensures forall k :: 0 <= k < |sorted| ==> |sorted[k]| >= 7 && SignOf(sorted[k]) in m
  {
    TrackFromCovers(map[], rows);
    SortedRowsAreRows(rows, sorted);
    forall k | 0 <= k < |sorted|
      ensures |sorted[k]| >= 7 && SignOf(sorted[k]) in m
    {
      assert sorted[k] in rows;
      var j :| 0 <= j < |rows| && rows[j] == sorted[k];
    }
  }

  /**
   * The branch of `process_file` for a video with more than one entry:
   * normalise, sort, compute the reject list, run the tasks, and write the
   * error lines.
   */
  function TimelineOutcome(opts: Options, config: Config, uid: string, videoPath: string,
                           data: Dict, isValidExists: bool, encode: ClipRequest -> bool): (r: FileOutcome)
    ensures r.errorLog.None? && r.noSigns == []
    ensures forall q :: q in r.clips ==> q.videoPath == videoPath
  {
    match NormalizeSpec(data)
    case Err(e) => Quiet.(raised := Some(e))
    case Ok((rows, m)) =>
      match SortRows(rows)
      case Err(e) => Quiet.(raised := Some(e))
      case Ok(sorted) =>
        SortedCovered(rows, sorted, m);
        match RejectList(sorted, m)
        case Err(e) => Quiet.(raised := Some(e))
        case Ok(_) =>
          var runs := Runs(opts, config, uid, sorted, videoPath, isValidExists);
          IssuedFromVideo(opts, config, uid, sorted, videoPath, isValidExists);
          match PoolMap(Outcomes(runs, encode))
          case Err(e) => Quiet.(clips := Issued(runs), raised := Some(e))
          case Ok(results) =>
            var (lines, failure) := ErrorLog(results);
            Quiet.(clips := Issued(runs), errorSigns := lines, raised := failure)
  }

  /** Every clip is cut from the file's own video. */
  lemma IssuedFromVideo(opts: Options, config: Config, uid: string, sorted: seq<Row>,
                        videoPath: string, isValidExists: bool)
    requires forall k :: 0 <= k < |sorted| ==> |sorted[k]| >= 7
    ensures forall q :: q in Issued(Runs(opts, config, uid, sorted, videoPath, isValidExists)) ==>
      q.videoPath == videoPath
  {
    var runs := Runs(opts, config, uid, sorted, videoPath, isValidExists);
    forall q | q in Issued(runs)
      ensures q.videoPath == videoPath
    {
      var k :| 0 <= k < |runs| && runs[k].Ok? && runs[k].value.request == q;
      var prev := if k > 0 then Some(sorted[k - 1]) else None;
      ExtractClipIsCut(opts, config, uid, SignOf(sorted[k]), sorted[k][6], sorted[k], prev,
                       videoPath, isValidExists, false);
    }
  }

  /**
   * `process_file` for one file name, with the failure counter at
   * `errorCount`: what the file leaves behind and the new counter.
   * `description` is the image's EXIF description, `eval` the literal
   * evaluator, `videoExists` the file system's answer for the video path and
   * `encode` the encoder's.
   */
  function ProcessFileSpec(errorCount: nat, opts: Options, backupDir: string, config: Config,
                           filename: string, description: string, eval: string -> Option<Dict>,
                           videoExists: string -> bool, encode: ClipRequest -> bool)
    : (r: (FileOutcome, nat))
    ensures !IsTimestampsImage(filename) ==> r == (Quiet, errorCount)
    ensures r.1 == if IsTimestampsImage(filename) && Unparsable(description, eval) then errorCount + 1 else errorCount
    ensures r.0.errorLog.Some? <==> IsTimestampsImage(filename) && Unparsable(description, eval)
    ensures r.0.errorLog.Some? ==>
      && r.0.errorLog.value == (ErrorLogPath(opts.layout.destDir, filename), Rewrite(description).0)
      && r.0.noSigns == [] && r.0.clips == [] && r.0.errorSigns == []
      && (r.0.raised.Some? <==> errorCount >= MaxDecodeFailures)
      && (r.0.raised.Some? ==> r.0.raised == Some(TypeError))
  {
    if !IsTimestampsImage(filename) then (Quiet, errorCount)
    else
      var (decoded, count) := Decode(errorCount, description, eval);
      var logPath := ErrorLogPath(opts.layout.destDir, filename);
      match decoded
      case Failed(log) => (Quiet.(errorLog := Some((logPath, log))), count)
      // `raise` of a string is itself a TypeError
      case Aborted(log) => (Quiet.(errorLog := Some((logPath, log)), raised := Some(TypeError)), count)
      case Decoded(data, isValidExists) =>
        var (uid, videoPath) := GetUid(backupDir, filename);
        if videoExists(videoPath) && |data| > 1 then
          (TimelineOutcome(opts, config, uid, videoPath, data, isValidExists, encode), count)
        else if |data| <= 1 then (Quiet.(noSigns := [filename + "\n"]), count)
        else (Quiet, count)
  }

  /** The branch of `process_file` for a video with more than one entry, step by step. */
  method ProcessTimeline(opts: Options, config: Config, uid: string, videoPath: string,
                         data: Dict, isValidExists: bool, encode: ClipRequest -> bool)
    returns (out: FileOutcome)
    ensures out == TimelineOutcome(opts, config, uid, videoPath, data, isValidExists, encode)
  {
    var normalized := Normalize(data);
    if normalized.Err? {
      return Quiet.(raised := Some(normalized.error));
    }
    var (rows, m) := normalized.value;
    var sorted := SortRows(rows);
    if sorted.Err? {
      return Quiet.(raised := Some(sorted.error));
    }
    SortedCovered(rows, sorted.value, m);
    var reject := RejectList(sorted.value, m);
    if reject.Err? {
      return Quiet.(raised := Some(reject.error));
    }
    var runs := Runs(opts, config, uid, sorted.value, videoPath, isValidExists);
    var results := PoolMap(Outcomes(runs, encode));
    if results.Err? {
      return Quiet.(clips := Issued(runs), raised := Some(results.error));
    }
    var lines, failure := WriteErrorSigns(results.value);
    out := Quiet.(clips := Issued(runs), errorSigns := lines, raised := failure);
  }

  /** `process_file`, bumping the decoder's failure counter as it goes. */
  method ProcessFile(decoder: Decoder, opts: Options, backupDir: string, config: Config,
                     filename: string, description: string, eval: string -> Option<Dict>,
                     videoExists: string -> bool, encode: ClipRequest -> bool)
    returns (out: FileOutcome)
    modifies decoder
    ensures (out, decoder.errorCount)
         == ProcessFileSpec(old(decoder.errorCount), opts, backupDir, config, filename, description,
                            eval, videoExists, encode)
  {
    if !IsTimestampsImage(filename) {
      return Quiet;
    }
    var decoded := decoder.GetDataFromDescription(description, eval);
    var logPath := ErrorLogPath(opts.layout.destDir, filename);
    match decoded {
      case Failed(log) =>
        out := Quiet.(errorLog := Some((logPath, log)));
      case Aborted(log) =>
        out := Quiet.(errorLog := Some((logPath, log)), raised := Some(TypeError));
      case Decoded(data, isValidExists) =>
        var (uid, videoPath) := GetUid(backupDir, filename);
        if videoExists(videoPath) && |data| > 1 {
          out := ProcessTimeline(opts, config, uid, videoPath, data, isValidExists, encode);
        } else if |data| <= 1 {
          out := Quiet.(noSigns := [filename + "\n"]);
        } else {
          out := Quiet;
        }
    }
  }

  /**
   * `noSigns.txt` gains the file name exactly when the description
   * evaluates to at most one entry, whether or not the video exists.
   */
  lemma NoSignsIffFewEntries(errorCount: nat, opts: Options, backupDir: string, config: Config,
                             filename: string, description: string, eval: string -> Option<Dict>,
                             videoExists: string -> bool, encode: ClipRequest -> bool)
    ensures var r := ProcessFileSpec(errorCount, opts, backupDir, config, filename, description,
                                     eval, videoExists, encode).0;
      var data := eval(Rewrite(description).0);
      && (r.noSigns != [] <==> IsTimestampsImage(filename) && data.Some? && |data.value| <= 1)
      && (r.noSigns != [] ==> r.noSigns == [filename + "\n"] && r.clips == [] && r.raised.None?)
  {
  }

  /**
   * Clips are only cut for a decodable file whose video exists and that has
   * more than one entry, and every clip is cut from that video.
   */
  lemma ClipsOnlyWithVideo(errorCount: nat, opts: Options, backupDir: string, config: Config,
                           filename: string, description: string, eval: string -> Option<Dict>,
                           videoExists: string -> bool, encode: ClipRequest -> bool)
    ensures var r := ProcessFileSpec(errorCount, opts, backupDir, config, filename, description,
                                     eval, videoExists, encode).0;
      var data := eval(Rewrite(description).0);
      var videoPath := GetUid(backupDir, filename).1;
      r.clips != [] ==>
        && IsTimestampsImage(filename) && data.Some? && |data.value| > 1 && videoExists(videoPath)
        && forall q :: q in r.clips ==> q.videoPath == videoPath
  {
  }

  /** The result of each task: accepted exactly for a valid record, otherwise its file and sign. */
  lemma TaskResults(opts: Options, config: Config, uid: string, sorted: seq<Row>, videoPath: string,
                    isValidExists: bool, encode: ClipRequest -> bool)
    requires forall k :: 0 <= k < |sorted| ==> |sorted[k]| >= 7
    requires PoolMap(Outcomes(Runs(opts, config, uid, sorted, videoPath, isValidExists), encode)).Ok?
    ensures var results := PoolMap(Outcomes(Runs(opts, config, uid, sorted, videoPath, isValidExists), encode)).value;
      && |results| == |sorted|
      && (|sorted| > 0 ==> isValidExists)
      && forall k :: 0 <= k < |sorted| ==>
        results[k] == if Truthy(sorted[k][5]) then Accepted else Flagged(sorted[k][1], sorted[k][0])
  {
    var runs := Runs(opts, config, uid, sorted, videoPath, isValidExists);
    var results := PoolMap(Outcomes(runs, encode)).value;
    forall k | 0 <= k < |sorted|
      ensures isValidExists
      ensures results[k] == if Truthy(sorted[k][5]) then Accepted else Flagged(sorted[k][1], sorted[k][0])
    {
      assert Outcomes(runs, encode)[k] == Ok(results[k]);
      var prev := if k > 0 then Some(sorted[k - 1]) else None;
      ResultFollowsValidity(opts, config, uid, SignOf(sorted[k]), sorted[k][6], sorted[k], prev,
                            videoPath, isValidExists, false);
    }
  }

  /**
   * Without `isValid` in the description each record is unpacked into
   * five fields, which no normalised row of seven fields fits: a timeline
   * with a record raises ValueError and cuts no clip.
   */
  lemma LegacyTimelineRaises(opts: Options, config: Config, uid: string, sorted: seq<Row>,
                             videoPath: string, encode: ClipRequest -> bool)
    requires forall k :: 0 <= k < |sorted| ==> |sorted[k]| >= 7
    requires |sorted| > 0
    ensures PoolMap(Outcomes(Runs(opts, config, uid, sorted, videoPath, false), encode)) == Err(ValueError)
    ensures Issued(Runs(opts, config, uid, sorted, videoPath, false)) == []
  {
    var runs := Runs(opts, config, uid, sorted, videoPath, false);
    forall k | 0 <= k < |sorted|
      ensures runs[k] == Err(ValueError)
    {
      var prev := if k > 0 then Some(sorted[k - 1]) else None;
      WrongLengthFails(opts, config, uid, SignOf(sorted[k]), sorted[k][6], sorted[k], prev,
                       videoPath, false, false);
    }
    assert Outcomes(runs, encode)[0] == Err(ValueError);
  }

  /** The error lines of invalid records, in timeline order: the reference for the log. */
  function InvalidLines(rows: seq<Row>): seq<string>
    requires forall k :: 0 <= k < |rows| ==> |rows[k]| > 5 && rows[k][0].Str? && rows[k][1].Str?
    decreases |rows|
  {
    if |rows| == 0 then []
    else
      var last := rows[|rows| - 1];
      InvalidLines(rows[..|rows| - 1])
        + if Truthy(last[5]) then [] else [last[1].s + ", " + last[0].s + "\n"]
  }

  /** An error log over results that mirror the records' validity lists exactly the invalid ones. */
  lemma {:induction false} ErrorLogOfRecords(rows: seq<Row>, results: seq<TaskResult>)
    requires forall k :: 0 <= k < |rows| ==> |rows[k]| > 5 && rows[k][0].Str? && rows[k][1].Str?
    requires |results| == |rows|
    requires forall k :: 0 <= k < |rows| ==>
      results[k] == if Truthy(rows[k][5]) then Accepted else Flagged(rows[k][1], rows[k][0])
    ensures ErrorLog(results) == (InvalidLines(rows), None)
    decreases |rows|
  {
    if |rows| > 0 {
      var n := |rows| - 1;
      assert forall k :: 0 <= k < n ==> rows[..n][k] == rows[k] && results[..n][k] == results[k];
      ErrorLogOfRecords(rows[..n], results[..n]);
      ErrorLogStep(rows, results);
    }
  }

  /** The last record's result adds its line, if any, to the log of the ones before it. */
  lemma ErrorLogStep(rows: seq<Row>, results: seq<TaskResult>)
    requires forall k :: 0 <= k < |rows| ==> |rows[k]| > 5 && rows[k][0].Str? && rows[k][1].Str?
    requires |results| == |rows| > 0
    requires ErrorLog(results[..|rows| - 1]) == (InvalidLines(rows[..|rows| - 1]), None)
    requires var last := rows[|rows| - 1];
      results[|rows| - 1] == if Truthy(last[5]) then Accepted else Flagged(last[1], last[0])
    ensures ErrorLog(results) == (InvalidLines(rows), None)
  {
    var n := |rows| - 1;
    var last := rows[n];
    if Truthy(last[5]) {
      assert InvalidLines(rows) == InvalidLines(rows[..n]);
    } else {
      assert ErrorLine(last[1], last[0]) == Ok(last[1].s + ", " + last[0].s + "\n");
    }
  }

  /**
   * When every task returns, `errorSigns.txt` gains one line per invalid
   * record, in timeline order, provided the records' file fields are strings.
   */
  lemma ErrorSignsListInvalidRecords(opts: Options, config: Config, uid: string, sorted: seq<Row>,
                                     videoPath: string, isValidExists: bool, encode: ClipRequest -> bool)
    requires forall k :: 0 <= k < |sorted| ==> |sorted[k]| >= 7 && sorted[k][0].Str? && sorted[k][1].Str?
    requires PoolMap(Outcomes(Runs(opts, config, uid, sorted, videoPath, isValidExists), encode)).Ok?
    ensures ErrorLog(PoolMap(Outcomes(Runs(opts, config, uid, sorted, videoPath, isValidExists), encode)).value)
         == (InvalidLines(sorted), None)
  {
    TaskResults(opts, config, uid, sorted, videoPath, isValidExists, encode);
    ErrorLogOfRecords(sorted, PoolMap(Outcomes(Runs(opts, config, uid, sorted, videoPath, isValidExists), encode)).value);
  }
}
