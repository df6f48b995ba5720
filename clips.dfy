/**
 * Boundary resolution and output naming for one recording: the work of
 * `extract_clip_from_video` and `extract_clip_from_video_hold` up to the
 * encoder call, which is described by the request it would receive.
 */
module Clips {
  import opened Basics
  import opened Text
  import opened Records
  import opened Timestamps
  import opened Naming

  /** Buffers, in seconds, and whether the clip is measured back from its end. */
  datatype Calibration = Calibration(bufferStart: real, bufferEnd: real, invert: bool)

  /** The command-line options that say where clips go and how they are encoded. */
  datatype Layout = Layout(
    destDir: string, makeStructuredDirs: bool, makeSignDirs: bool, oldFilenames: bool,
    useCuda: bool)

  /** The command-line options the extraction reads: the layout and the default buffers. */
  datatype Options = Options(layout: Layout, buffers: Calibration)

  /** `config.json`: calibrations by user id. */
  type Config = map<string, Calibration>

  /** The buffers in force for a user: a config entry wins over the command line. */
  function BuffersFor(opts: Options, config: Config, uid: string): Calibration {
    if uid in config then config[uid] else opts.buffers
  }

  /**
   * Moves the clip boundaries by the buffers. Inverted, the clip starts at
   * the buffered end: its length is fixed by the buffers alone.
   */
  function ApplyBuffers(b: Calibration, start: real, end: real): (r: (real, real))
    ensures r.1 == end + b.bufferEnd
    ensures b.invert ==> r.1 - r.0 == b.bufferEnd - b.bufferStart
    ensures !b.invert ==> r.1 - r.0 == (end - start) + (b.bufferEnd - b.bufferStart)
  {
    if b.invert then (end + b.bufferStart, end + b.bufferEnd)
    else (start + b.bufferStart, end + b.bufferEnd)
  }

  /** The fields a recording is unpacked into. */
  datatype Fields = Fields(
    signName: Value, file: Value, videoStart: Value, signStart: Value, signEnd: Value,
    isValid: Value)

  /**
   * Tuple unpacking: seven values in the current schema, five in the legacy
   * one (where every record counts as valid); any other length raises.
   */
  function Unpack(row: Row, isValidExists: bool): (r: Result<Fields, PyError>)
    ensures r.Ok? <==> |row| == (if isValidExists then 7 else 5)
    ensures r.Err? ==> r.error == ValueError
    ensures r.Ok? ==>
      r.value.signName == row[0] && r.value.file == row[1]
      && r.value.videoStart == row[2] && r.value.signStart == row[3] && r.value.signEnd == row[4]
    ensures r.Ok? ==> r.value.isValid == (if isValidExists then row[5] else Bool(true))
  {
    if isValidExists && |row| == 7 then Ok(Fields(row[0], row[1], row[2], row[3], row[4], row[5]))
    else if !isValidExists && |row| == 5 then Ok(Fields(row[0], row[1], row[2], row[3], row[4], Bool(true)))
    else Err(ValueError)
  }

  /** The timestamp a field holds, when it is a string `strptime` accepts. */
  function TimeOf(v: Value): Option<Timestamp> {
    if v.Str? then ParseTimestamp(v.s) else None
  }

  /**
   * `strptime(field + "000", ...)`: a non-string cannot be concatenated
   * (TypeError), a string out of format raises ValueError.
   */
  function ParseField(v: Value): (r: Result<Timestamp, PyError>)
    ensures r.Ok? <==> TimeOf(v).Some?
    ensures r.Ok? ==> v.Str? && r.value == TimeOf(v).value && ValidTimestamp(r.value)
    ensures r.Err? ==> r.error == (if v.Str? then ValueError else TypeError)
  {
    if !v.Str? then Err(TypeError)
    else match ParseTimestamp(v.s)
      case None => Err(ValueError)
      case Some(t) => Ok(t)
  }

  /** A recording held longer than one second, strictly. */
  predicate Held(row: Row) {
    |row| > 4 && TimeOf(row[3]).Some? && TimeOf(row[4]).Some?
    && Instant(TimeOf(row[4]).value) - Instant(TimeOf(row[3]).value) > MicrosPerSecond
  }

  /** Where a clip goes and what its file is called. */
  datatype Location = Location(dir: string, name: string)

  /**
   * The three naming modes, in their order of precedence: per-user sign
   * directories, sign directories, and the flat destination directory.
   */
  function ClipLocation(layout: Layout, uid: string, cleaned: string, videoStart: string,
                        signStart: string, idx: string): Location {
    if layout.makeStructuredDirs then
      Location(Join3(layout.destDir, uid, cleaned), signStart + "-" + idx + ".mp4")
    else if layout.makeSignDirs then
      var stamp := if layout.oldFilenames then videoStart else signStart;
      Location(Join(layout.destDir, cleaned), uid + "-" + cleaned + "-" + stamp + "-" + idx + ".mp4")
    else
      Location(layout.destDir, uid + "-" + cleaned + "-" + videoStart + "-" + idx + ".mp4")
  }

  /** The directory redirected clips go to. */
  function InvalidDir(destDir: string, cleaned: string): string {
    Join3(destDir, "invalid", cleaned)
  }

  /** What the encoder is asked for: a cut of the video, in seconds. */
  datatype ClipRequest = ClipRequest(
    videoPath: string, start: real, duration: real, outputDir: string, fileName: string)

  /** The encoder's output file. */
  function OutputPath(r: ClipRequest): string {
    Join(r.outputDir, r.fileName)
  }

  /** The task's return tuple: `(True, None, None)` or `(False, filename, signName)`. */
  datatype TaskResult = Accepted | Flagged(fileName: Value, signName: Value)

  datatype Mode = Hold | Tap

  datatype Extraction = Extraction(mode: Mode, request: ClipRequest, result: TaskResult)

  /** The `is_valid` a recording is judged by. */
  function Validity(row: Row, isValidExists: bool): Value
    requires isValidExists ==> |row| > 5
  {
    if isValidExists then row[5] else Bool(true)
  }

  /** The field a clip's start is read from, and named after, in each mode. */
  function StartField(mode: Mode, row: Row, prev: Option<Row>): Value
    requires |row| > 3 && (mode == Tap && prev.Some? ==> |prev.value| > 4)
  {
    match mode
    case Hold => row[3]
    case Tap => if prev.None? then row[2] else prev.value[4]
  }

  /** The field a clip's end is read from in each mode. */
  function EndField(mode: Mode, row: Row): Value
    requires |row| > 4
  {
    match mode
    case Hold => row[4]
    case Tap => row[3]
  }

  /**
   * The timeline half of an extraction: the mode, the three parsed
   * timestamps, the field the start came from, and whether the clip is
   * redirected to the invalid directory.
   */
  datatype Plan = Plan(
    mode: Mode, f: Fields, video: Timestamp, start: Timestamp, end: Timestamp,
    startField: Value, redirect: bool)

  predicate PlanValid(p: Plan) {
    ValidTimestamp(p.video) && ValidTimestamp(p.start) && ValidTimestamp(p.end)
    && p.f.videoStart.Str? && p.startField.Str?
  }

  /** The timestamps of `extract_clip_from_video_hold`, parsed in its order. */
  function PlanHold(row: Row, isValidExists: bool): (r: Result<Plan, PyError>)
    ensures r.Ok? ==> PlanValid(r.value)
  {
    var f :- Unpack(row, isValidExists);
    var video :- ParseField(f.videoStart);
    var start :- ParseField(f.signStart);
    var end :- ParseField(f.signEnd);
    Ok(Plan(Hold, f, video, start, end, f.signStart, !Truthy(f.isValid)))
  }

  /**
   * Where a tap clip starts: the previous sorted record's field 4 (unpacked
   * as seven values whatever the schema), or the video start for the first.
   */
  function TapStart(f: Fields, prev: Option<Row>): Result<Value, PyError> {
    if prev.None? then Ok(f.videoStart)
    else if |prev.value| == 7 then Ok(prev.value[4])
    else Err(ValueError)
  }

  /**
   * The timestamps of `extract_clip_from_video`, parsed in its order: a
   * recording held longer than a second is planned as held; otherwise the
   * clip runs from the previous recording's end to this recording's start,
   * and only `reject` redirects it.
   */
  function PlanClip(row: Row, prev: Option<Row>, isValidExists: bool, reject: bool)
    : (r: Result<Plan, PyError>)
    ensures |row| != (if isValidExists then 7 else 5) ==> r == Err(ValueError)
    ensures r.Ok? ==>
      && PlanValid(r.value)
      && |row| == (if isValidExists then 7 else 5)
      && (r.value.mode == Tap && prev.Some? ==> |prev.value| == 7)
      && r.value.f == Unpack(row, isValidExists).value
      && (r.value.mode == Hold <==> Held(row))
      && TimeOf(row[2]) == Some(r.value.video)
      && r.value.startField == StartField(r.value.mode, row, prev)
      && TimeOf(r.value.startField) == Some(r.value.start)
      && TimeOf(EndField(r.value.mode, row)) == Some(r.value.end)
      && r.value.redirect == (if r.value.mode == Hold then !Truthy(Validity(row, isValidExists)) else reject)
  {
    var f :- Unpack(row, isValidExists);
    var pressed :- ParseField(f.signStart);
    var released :- ParseField(f.signEnd);
    if Instant(released) - Instant(pressed) > MicrosPerSecond then
      PlanHold(row, isValidExists)
    else
      var startField :- TapStart(f, prev);
      var video :- ParseField(f.videoStart);
      var start :- ParseField(startField);
      // the tap clip ends where this recording starts, parsed again to the same instant
      Ok(Plan(Tap, f, video, start, pressed, startField, reject))
  }

  /**
   * The part both paths share once the timestamps are known: offsets from
   * the video start, buffers, naming, the redirect, and the result tuple.
   */
  function Cut(layout: Layout, b: Calibration, uid: string, sign: string, idx: Value,
               videoPath: string, p: Plan)
    : (r: Result<Extraction, PyError>)
    requires PlanValid(p)
    ensures r.Err? <==> layout.useCuda
    ensures r.Err? ==> r.error == AttributeError
    ensures r.Ok? ==>
      var cleaned := CleanSign(sign);
      var loc := ClipLocation(layout, uid, cleaned, p.f.videoStart.s, p.startField.s, ValueText(idx));
      && r.value.mode == p.mode
      && r.value.request.videoPath == videoPath
      && r.value.request.outputDir == (if p.redirect then InvalidDir(layout.destDir, cleaned) else loc.dir)
      && r.value.request.fileName == loc.name
      && r.value.result == (if Truthy(p.f.isValid) then Accepted else Flagged(p.f.file, p.f.signName))
    ensures r.Ok? ==>
      var window := ApplyBuffers(b, OffsetSeconds(p.start, p.video), OffsetSeconds(p.end, p.video));
      r.value.request.start == window.0 && r.value.request.duration == window.1 - window.0
  {
    var cleaned := CleanSign(sign);
    var window := ApplyBuffers(b,
                               OffsetSeconds(p.start, p.video), OffsetSeconds(p.end, p.video));
    var loc := ClipLocation(layout, uid, cleaned, p.f.videoStart.s, p.startField.s, ValueText(idx));
    var dir := if p.redirect then InvalidDir(layout.destDir, cleaned) else loc.dir;
    var result := if Truthy(p.f.isValid) then Accepted else Flagged(p.f.file, p.f.signName);
    if layout.useCuda then Err(AttributeError)
    else Ok(Extraction(p.mode, ClipRequest(videoPath, window.0, window.1 - window.0, dir, loc.name), result))
  }

  /** `extract_clip_from_video_hold`: the recording's own start and end are the clip's. */
  function ExtractClipHold(opts: Options, config: Config, uid: string, sign: string, idx: Value,
                           row: Row, videoPath: string, isValidExists: bool)
    : Result<Extraction, PyError>
  {
    var p :- PlanHold(row, isValidExists);
    Cut(opts.layout, BuffersFor(opts, config, uid), uid, sign, idx, videoPath, p)
  }

  /** `extract_clip_from_video`: hold or tap, then the shared cut. */
  function ExtractClip(opts: Options, config: Config, uid: string, sign: string, idx: Value,
                       row: Row, prev: Option<Row>, videoPath: string, isValidExists: bool,
                       reject: bool)
    : Result<Extraction, PyError>
  {
    var p :- PlanClip(row, prev, isValidExists, reject);
    Cut(opts.layout, BuffersFor(opts, config, uid), uid, sign, idx, videoPath, p)
  }

  /** Hold mode is taken exactly for the recordings held longer than one second. */
  lemma HoldIffLonger(opts: Options, config: Config, uid: string, sign: string, idx: Value,
                      row: Row, prev: Option<Row>, videoPath: string, isValidExists: bool,
                      reject: bool)
    requires ExtractClip(opts, config, uid, sign, idx, row, prev, videoPath, isValidExists, reject).Ok?
    ensures ExtractClip(opts, config, uid, sign, idx, row, prev, videoPath, isValidExists, reject).value.mode == Hold
        <==> Held(row)
  {
  }

  /**
   * The clip window: from the start field to the end field of the mode,
   * both measured from the video start, then buffered. A tap clip thus runs
   * from the previous record's field 4 (or the video start) to this
   * record's sign start.
   */
  lemma ClipWindow(opts: Options, config: Config, uid: string, sign: string, idx: Value,
                   row: Row, prev: Option<Row>, videoPath: string, isValidExists: bool,
                   reject: bool)
    requires ExtractClip(opts, config, uid, sign, idx, row, prev, videoPath, isValidExists, reject).Ok?
    ensures var e := ExtractClip(opts, config, uid, sign, idx, row, prev, videoPath, isValidExists, reject).value;
      |row| > 4 && (e.mode == Tap && prev.Some? ==> |prev.value| == 7)
      && TimeOf(row[2]).Some? && TimeOf(StartField(e.mode, row, prev)).Some?
      && TimeOf(EndField(e.mode, row)).Some?
      && var window := ApplyBuffers(BuffersFor(opts, config, uid),
           OffsetSeconds(TimeOf(StartField(e.mode, row, prev)).value, TimeOf(row[2]).value),
           OffsetSeconds(TimeOf(EndField(e.mode, row)).value, TimeOf(row[2]).value));
         e.request.start == window.0 && e.request.duration == window.1 - window.0
  {
    ExtractClipIsCut(opts, config, uid, sign, idx, row, prev, videoPath, isValidExists, reject);
    var p := PlanClip(row, prev, isValidExists, reject).value;
    CutWindow(opts.layout, BuffersFor(opts, config, uid), uid, sign, idx, videoPath, p);
  }

  /** An extraction that succeeds is the cut of its plan. */
  lemma ExtractClipIsCut(opts: Options, config: Config, uid: string, sign: string, idx: Value,
                         row: Row, prev: Option<Row>, videoPath: string, isValidExists: bool,
                         reject: bool)
    requires ExtractClip(opts, config, uid, sign, idx, row, prev, videoPath, isValidExists, reject).Ok?
    ensures PlanClip(row, prev, isValidExists, reject).Ok?
    ensures ExtractClip(opts, config, uid, sign, idx, row, prev, videoPath, isValidExists, reject)
         == Cut(opts.layout, BuffersFor(opts, config, uid), uid, sign, idx, videoPath,
                PlanClip(row, prev, isValidExists, reject).value)
  {
  }

  lemma CutWindow(layout: Layout, b: Calibration, uid: string, sign: string, idx: Value,
                  videoPath: string, p: Plan)
    requires PlanValid(p) && !layout.useCuda
    ensures var e := Cut(layout, b, uid, sign, idx, videoPath, p).value;
      var window := ApplyBuffers(b, OffsetSeconds(p.start, p.video), OffsetSeconds(p.end, p.video));
      e.request.start == window.0 && e.request.duration == window.1 - window.0
  {
  }

  /** Inverted, a clip lasts exactly the difference of the two buffers, whatever the timestamps. */
  lemma InvertedLength(opts: Options, config: Config, uid: string, sign: string, idx: Value,
                       row: Row, prev: Option<Row>, videoPath: string, isValidExists: bool,
                       reject: bool)
    requires ExtractClip(opts, config, uid, sign, idx, row, prev, videoPath, isValidExists, reject).Ok?
    requires BuffersFor(opts, config, uid).invert
    ensures ExtractClip(opts, config, uid, sign, idx, row, prev, videoPath, isValidExists, reject).value.request.duration
         == BuffersFor(opts, config, uid).bufferEnd - BuffersFor(opts, config, uid).bufferStart
  {
    ExtractClipIsCut(opts, config, uid, sign, idx, row, prev, videoPath, isValidExists, reject);
    var p := PlanClip(row, prev, isValidExists, reject).value;
    CutWindow(opts.layout, BuffersFor(opts, config, uid), uid, sign, idx, videoPath, p);
  }

  /** A user with a config entry gets the same clip whatever buffers the command line gives. */
  lemma ConfigOverridesOptions(opts: Options, config: Config, uid: string, sign: string, idx: Value,
                               row: Row, prev: Option<Row>, videoPath: string, isValidExists: bool,
                               reject: bool, buffers: Calibration)
    requires uid in config
    ensures ExtractClip(opts.(buffers := buffers), config, uid, sign, idx, row, prev, videoPath, isValidExists, reject)
         == ExtractClip(opts, config, uid, sign, idx, row, prev, videoPath, isValidExists, reject)
  {
    assert BuffersFor(opts.(buffers := buffers), config, uid) == BuffersFor(opts, config, uid);
  }

  /** Whether a clip goes to the invalid directory: held and not valid, or tapped and rejected. */
  predicate Redirected(mode: Mode, row: Row, isValidExists: bool, reject: bool)
    requires isValidExists ==> |row| > 5
  {
    match mode
    case Hold => !Truthy(Validity(row, isValidExists))
    case Tap => reject
  }

  /**
   * The output directory: `invalid/<sign>` for a redirected clip, otherwise
   * by precedence the user's sign directory, the sign directory, or the
   * destination itself.
   */
  lemma OutputDirectory(opts: Options, config: Config, uid: string, sign: string, idx: Value,
                        row: Row, prev: Option<Row>, videoPath: string, isValidExists: bool,
                        reject: bool)
    requires ExtractClip(opts, config, uid, sign, idx, row, prev, videoPath, isValidExists, reject).Ok?
    ensures var e := ExtractClip(opts, config, uid, sign, idx, row, prev, videoPath, isValidExists, reject).value;
      var layout := opts.layout;
      |row| == (if isValidExists then 7 else 5)
      && e.request.outputDir
         == if Redirected(e.mode, row, isValidExists, reject) then InvalidDir(layout.destDir, CleanSign(sign))
            else if layout.makeStructuredDirs then Join3(layout.destDir, uid, CleanSign(sign))
            else if layout.makeSignDirs then Join(layout.destDir, CleanSign(sign))
            else layout.destDir
  {
    ExtractClipIsCut(opts, config, uid, sign, idx, row, prev, videoPath, isValidExists, reject);
  }

  /**
   * The output file name: `<start>-<attempt>.mp4` in per-user sign
   * directories, otherwise `<uid>-<sign>-<stamp>-<attempt>.mp4`, where the
   * stamp is the start field only in sign directories without old file
   * names, and the video start otherwise. In tap mode the start field is
   * the inferred start.
   */
  lemma OutputName(opts: Options, config: Config, uid: string, sign: string, idx: Value,
                   row: Row, prev: Option<Row>, videoPath: string, isValidExists: bool,
                   reject: bool)
    requires ExtractClip(opts, config, uid, sign, idx, row, prev, videoPath, isValidExists, reject).Ok?
    ensures var e := ExtractClip(opts, config, uid, sign, idx, row, prev, videoPath, isValidExists, reject).value;
      var layout := opts.layout;
      |row| > 4 && (e.mode == Tap && prev.Some? ==> |prev.value| == 7)
      && row[2].Str? && StartField(e.mode, row, prev).Str?
      && e.request.fileName
         == if layout.makeStructuredDirs then
              StartField(e.mode, row, prev).s + "-" + ValueText(idx) + ".mp4"
            else
              var stamp := if layout.makeSignDirs && !layout.oldFilenames
                           then StartField(e.mode, row, prev).s else row[2].s;
              uid + "-" + CleanSign(sign) + "-" + stamp + "-" + ValueText(idx) + ".mp4"
  {
    ExtractClipIsCut(opts, config, uid, sign, idx, row, prev, videoPath, isValidExists, reject);
  }

  /**
   * The task returns `(True, None, None)` exactly for a valid recording, and
   * otherwise the recording's file name and raw sign name.
   */
  lemma ResultFollowsValidity(opts: Options, config: Config, uid: string, sign: string, idx: Value,
                              row: Row, prev: Option<Row>, videoPath: string, isValidExists: bool,
                              reject: bool)
    requires ExtractClip(opts, config, uid, sign, idx, row, prev, videoPath, isValidExists, reject).Ok?
    ensures var e := ExtractClip(opts, config, uid, sign, idx, row, prev, videoPath, isValidExists, reject).value;
      |row| == (if isValidExists then 7 else 5)
      && (e.result == Accepted <==> Truthy(Validity(row, isValidExists)))
      && (e.result.Flagged? ==> e.result == Flagged(row[1], row[0]))
  {
    ExtractClipIsCut(opts, config, uid, sign, idx, row, prev, videoPath, isValidExists, reject);
  }

  /**
   * A record of the wrong length fails to unpack. The normalised records
   * have at least seven fields, so the legacy five-field unpack never
   * succeeds on them.
   */
  lemma WrongLengthFails(opts: Options, config: Config, uid: string, sign: string, idx: Value,
                         row: Row, prev: Option<Row>, videoPath: string, isValidExists: bool,
                         reject: bool)
    requires |row| != (if isValidExists then 7 else 5)
    ensures ExtractClip(opts, config, uid, sign, idx, row, prev, videoPath, isValidExists, reject) == Err(ValueError)
    ensures ExtractClipHold(opts, config, uid, sign, idx, row, videoPath, isValidExists) == Err(ValueError)
  {
  }

  /** The CUDA branch formats a float with `strftime`, which raises. */
  lemma CudaAlwaysFails(opts: Options, config: Config, uid: string, sign: string, idx: Value,
                        row: Row, prev: Option<Row>, videoPath: string, isValidExists: bool,
                        reject: bool)
    requires opts.layout.useCuda
    ensures ExtractClip(opts, config, uid, sign, idx, row, prev, videoPath, isValidExists, reject).Err?
  {
  }

  /** A recording held longer than a second is cut exactly as the hold path cuts it. */
  lemma LongPressIsHold(opts: Options, config: Config, uid: string, sign: string, idx: Value,
                        row: Row, prev: Option<Row>, videoPath: string, isValidExists: bool,
                        reject: bool)
    requires |row| == (if isValidExists then 7 else 5) && Held(row)
    ensures ExtractClip(opts, config, uid, sign, idx, row, prev, videoPath, isValidExists, reject)
         == ExtractClipHold(opts, config, uid, sign, idx, row, videoPath, isValidExists)
  {
    HeldPlansHold(row, prev, isValidExists, reject);
  }

  /** A recording held longer than a second is planned by the hold path alone. */
  lemma HeldPlansHold(row: Row, prev: Option<Row>, isValidExists: bool, reject: bool)
    requires |row| == (if isValidExists then 7 else 5) && Held(row)
    ensures PlanClip(row, prev, isValidExists, reject) == PlanHold(row, isValidExists)
  {
  }
}
