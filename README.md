# Mobile recording pipeline: decode, split, batch

This project models the core of a sign-language recording pipeline in Dafny:

- **Decoding.** `decode_split_by_length.py` reads the description embedded in each `-timestamps.jpg` image from the mobile recorder. It rewrites the recorder's `key=value,` text into a Python literal and evaluates it. A process-wide counter tolerates 50 descriptions that fail to evaluate.
- **Clip planning.** For each recording it resolves the clip boundaries: a long press is a *hold*; a *tap* runs from the previous recording's sign end. It applies the per-user or command-line buffers and decides the output directory and file name.
- **Error log.** It writes the errorSigns log for recordings the recorder marked invalid.
- **Batching.** `flask_app/batches/create_batches.py` groups annotated clips by phrase and deals the phrase groups into batches of two.

Modules, one per concern:

| module | file | what it holds |
|---|---|---|
| `Basics` | basics.dfy | `Option`, `Result`, `Min`, `Max` |
| `Text` | text.dfy | the Python `str` operations used (`in`, `replace`, a `re.sub` whose only metacharacter is `.`, `<`, `posixpath.join`/`split`, `split("-")[0]`) |
| `Records` | records.dfy | the values the literal evaluator produces, Python truthiness, `<`, `max`, `str()` and the exceptions the core raises |
| `Timestamps` | timestamps.dfy | `strptime(t + "000", "%Y_%m_%d_%H_%M_%S.%f")` and the `timedelta` arithmetic (`.seconds + .microseconds / 1e6`) |
| `Description` | description.dfy | the substitution chain, `clean_contractions`, and the `Decoder` class that stands for the module-level `error_count` |
| `RecordText` | record_text.dfy | the whole substitution chain followed over one recording of each schema |
| `Naming` | naming.dfy | the file-name filter, `clean_sign`, `get_uid`, the per-file error-log path |
| `Timeline` | timeline.dfy | the normalisation loop of `process_file` (padding legacy records, tracking the highest attempt), the stable sort by sign end, `reject_list` |
| `Clips` | clips.dfy | `extract_clip_from_video` and `extract_clip_from_video_hold`, up to the request they would hand the encoder |
| `Pipeline` | pipeline.dfy | `pool.map` over the sorted recordings, the errorSigns loop, and `process_file` as a whole |
| `Batches` | batches.dfy | `group_clips_by_word` and the batching loop of `create_phrase_batches` |

The world outside the core appears as parameters:

- the literal evaluator is `eval: string -> Option<Dict>`, where None is the exception it raises;
- `os.path.exists` on the video is `videoExists`;
- the encoder run is `encode: ClipRequest -> bool`, where false is a non-zero exit under `check=True`;
- `config.json` is a `map` from user id to calibration.

### Where the model follows the code rather than the description of the design

- **Tap start.** A tap's start is the previous recording's *raw* sign-end field (`prevRecording[4]`), taken before any buffering (decode_split_by_length.py:317-322). The first tap starts at the video start.
- **`reject_list`.** It is computed but never passed on: the argument is commented out, so every call uses `reject=False` (decode_split_by_length.py:544, 558). The model computes `Timeline.RejectList` and calls `Clips.ExtractClip` with `false`. No recording is moved to `invalid/` because of a lower attempt number.
- **Legacy timelines.** A recording of the legacy schema has four values. With its sign inserted it is a row of five, which lines 528-529 do not pad, so `listRecording[6]` at line 540 raises IndexError. A legacy file therefore stops during normalisation, before the sort and before `pool.map` (`Timeline.LegacyRecordIndexError`). The padding gives every tuple of five values, and keeps every tuple of six, seven fields. For those rows the five-field unpack at lines 157 and 299 always raises, so a description without `isValid` whose tuples have five or six values aborts with ValueError (`Pipeline.LegacyTimelineRaises`).
- **CUDA.** The CUDA branch calls `strftime` on a float, so it always raises AttributeError (`Clips.CudaAlwaysFails`).
- **Aborting after fifty failures.** The abort is `raise("...")` on a string, which raises TypeError rather than an exception carrying the message. The error log is written before the raise.
- **Error log file mode.** The error log is opened with mode `"w"`, so each failing file's log holds only its own rewritten text.
- **Short timelines.** `noSigns.txt` receives the file name exactly when the dictionary has at most one entry, whether or not the video exists (lines 509 and 571).
- **Pool results.** A task that raises makes `pool.map` raise. The model raises the error of the failing task of lowest index. No errorSigns line is written for that file.

## Model

| member | source | states |
|---|---|---|
| `Text.Basename` | decode_split_by_length.py:469 | the tail of `os.path.split` has no `/`, ends the path, and is the whole path or follows its last `/` |
| `Text.BeforeFirst` | decode_split_by_length.py:470 | `split("-")[0]` has no `-`, is a prefix, and is the whole text or is followed by `-` |
| `Text.ReplaceChars` | decode_split_by_length.py:124-130 | `str.replace` brings in only characters of the text or of the replacement |
| `Text.ReplaceCount` | decode_split_by_length.py:124-130 | a character in neither pattern nor replacement keeps its number of occurrences |
| `Text.RegexLiteral` | decode_split_by_length.py:95-99 | without a `.` in the pattern, `re.sub` and `str.replace` agree |
| `Text.LessTotal` | decode_split_by_length.py:543 | Python's string `<` is a strict total order (with `LessIrreflexive`, `LessTransitive`, `LessAsymmetric`) |
| `Records.PyLess` | decode_split_by_length.py:536 | `<` compares numbers by value and strings lexicographically; None, or a string against a number, raises TypeError |
| `Records.PyMax` | decode_split_by_length.py:536 | `max(a, b)` is one of its arguments, the larger for ints, and raises exactly when `a < b` does |
| `Timestamps.ParseTimestamp` | decode_split_by_length.py:160-168 | a parsed timestamp is a valid date and time |
| `Timestamps.FormatParses` | decode_split_by_length.py:306-311 | a millisecond timestamp written the recorder's way parses back to itself |
| `Timestamps.OffsetInDay` | decode_split_by_length.py:177-181 | `.seconds + .microseconds / 1e6` of a difference lies in [0, 86400) |
| `Timestamps.OffsetForward` | decode_split_by_length.py:343-347 | a forward difference of less than a day is the exact elapsed seconds |
| `Timestamps.OffsetWrapsBackward` | decode_split_by_length.py:343-347 | a backward difference wraps round by one day, because the `days` field is dropped |
| `Description.CaptureUntil` | decode_split_by_length.py:84-92 | the lazy group `(.*?)t` captures the shortest newline-free run before the first `t`; no match means every `t` lies past a newline |
| `Description.Rewrite` | decode_split_by_length.py:82-104 | the schema flag is read from the raw description, so the later deletion of `isValid=` cannot clear it; the text is the chain of that schema (what it yields for whole recordings: `RecordText.RewriteCurrentRecord`, `RecordText.RewriteLegacyRecord`) |
| `Description.CleanContractions` | decode_split_by_length.py:134-142 | stated by `ContractionsRemoved` (the two listed phrases lose their apostrophe) and `NoApostropheUnchanged` (text without an apostrophe is unchanged) |
| `Description.Chain` | decode_split_by_length.py:84-104 | every rule in the chain is well formed |
| `Description.FieldsQuoted` | decode_split_by_length.py:84-86 | `file=V,`, `videoStart=V,` and `signStart=V,` become `"V",` |
| `Description.SignEndQuoted` | decode_split_by_length.py:88-92 | `signEnd=V,` becomes `"V",` in the current schema and `"V")`, which closes the tuple, in the legacy one |
| `Description.IsValidValueKept` | decode_split_by_length.py:90 | `isValid=V,` keeps only `V,` |
| `Description.AttributeNamesDeleted` | decode_split_by_length.py:101-102 | a lazy group with nothing after it matches the empty string, so these two rules only delete `attempt=` and `isValid=` |
| `Description.ApplyAllAbsent` | decode_split_by_length.py:84-104 | a chain none of whose anchors occurs leaves the text unchanged |
| `Description.ContractionsRemoved` | decode_split_by_length.py:134-142 | `pet's name` and `don't` lose their apostrophe |
| `Description.NoApostropheUnchanged` | decode_split_by_length.py:134-142 | text without an apostrophe passes `clean_contractions` unchanged |
| `Description.Decode` | decode_split_by_length.py:81-120 | success returns the dictionary and flag with the counter unchanged; failure bumps the counter, logs the rewritten text, and aborts exactly when the counter was already at least 50 |
| `Description.FailuresAbortAfterFifty` | decode_split_by_length.py:109-118 | from counter `c`, a run of unparsable descriptions skips `50 - c` files and aborts at the next |
| `Description.FiftyFirstFailureAborts` | decode_split_by_length.py:109-118 | from a fresh counter, 50 failures never abort and the 51st does |
| `Description.Decoder.GetDataFromDescription` | decode_split_by_length.py:80-120 | the outcome and the new `error_count` are those of `Decode` on the old count |
| `RecordText.RewriteCurrentRecord` | decode_split_by_length.py:82-103 | `(file=F,videoStart=A,signStart=B,signEnd=C,isValid=V,attempt=N)`, with values free of the characters the rules look for, becomes `("F","A","B","C",V,N)` and the flag is set |
| `RecordText.RewriteLegacyRecord` | decode_split_by_length.py:82-103 | a legacy `(file=F,videoStart=A,signStart=B,signEnd=C,` that never mentions `isValid` becomes `("F","A","B","C")`, closed where `signEnd` ends, and the flag is clear |
| `RecordText.CurrentSignEnd` | decode_split_by_length.py:89 | the current schema's `signEnd=` rule quotes its value and passes over `isValid=`, although that name shares characters with the anchor |
| `Naming.IsTimestampsImage` | decode_split_by_length.py:493 | stated by `TimestampsImageNames` |
| `Naming.TimestampsImageNames` | decode_split_by_length.py:493 | the filter lets through exactly the names `<stem>-timestamps.jpg` whose stem does not begin with `._` |
| `Naming.Stem` | decode_split_by_length.py:499 | for a name ending in `-timestamps.jpg`, the stem plus the suffix is the name |
| `Naming.ErrorLogPath` | decode_split_by_length.py:499 | the per-file error log is `<stem>.log` directly under `posixpath.join(dest, "error")` (for a stem that is not absolute) |
| `Naming.CleanSign` | decode_split_by_length.py:123-131 | stated by `CleanSignStrips`, `CleanSignKeeps`, `CleanSignChars` and `CleanSignIdempotent` |
| `Naming.CleanSignStrips` | decode_split_by_length.py:123-131 | the cleaned sign has no space, `-`, `,`, `(`, `)` or `'` |
| `Naming.CleanSignKeeps` | decode_split_by_length.py:123-131 | every other character except `/` keeps its number of occurrences |
| `Naming.CleanSignChars` | decode_split_by_length.py:123-131 | the cleaned sign only has characters of the sign |
| `Naming.CleanSignIdempotent` | decode_split_by_length.py:123-131 | cleaning a cleaned sign changes nothing |
| `Naming.GetUid` | decode_split_by_length.py:466-471 | the user id has no `-` and no `/`, and it begins the video's file name |
| `Naming.UidIsFilePrefix` | decode_split_by_length.py:466-471 | for `<uid>-<rest>` in a directory without `-`, the user id is `<uid>` and the video is in the same directory, with the suffix regex applied to `<rest>` |
| `Timeline.PadRecordShape` | decode_split_by_length.py:522-531 | the sign goes in front; a six-field record gets attempt `0` appended; other lengths pass through |
| `Timeline.PadAll` | decode_split_by_length.py:522-532 | one row per recording, in order, each padded |
| `Timeline.RowsFromEntries` | decode_split_by_length.py:515-532 | every row comes from an entry of the dictionary and carries its key |
| `Timeline.Observe` | decode_split_by_length.py:535-540 | a row raises IndexError when shorter than seven fields, and TypeError when `max` cannot compare its attempt |
| `Timeline.LegacyRecordIndexError` | decode_split_by_length.py:522-540 | a first recording of four values is left at five fields, so reading its attempt raises IndexError and normalisation fails |
| `Timeline.TrackFromAppend` | decode_split_by_length.py:515-540 | tracking two runs of rows is tracking the first, then the second from its result; an error stops it |
| `Timeline.TrackFromCovers` | decode_split_by_length.py:535-540 | after a successful run every row has seven fields and its sign is a key |
| `Timeline.Normalize` | decode_split_by_length.py:512-540 | the loop's rows and `max_attempt` are the flattened, padded rows of the dictionary and their tracked maximum, or the first error |
| `Timeline.AddRecordings` | decode_split_by_length.py:522-540 | one sign's recordings are appended padded, and the map is the tracked maximum over them |
| `Timeline.MaxAttemptOfRows` | decode_split_by_length.py:535-540 | with integer attempts, `max_attempt[s]` is the largest attempt among the rows of sign `s` |
| `Timeline.SortByEnd` | decode_split_by_length.py:543 | the result is sorted by sign end and is a permutation of the rows |
| `Timeline.SortStable` | decode_split_by_length.py:543 | rows with equal sign end keep their relative order, as in Python's stable sort |
| `Timeline.SortRows` | decode_split_by_length.py:543 | sorting raises TypeError exactly when two or more rows do not all have a string sign end; otherwise it is a sorted permutation |
| `Timeline.RejectList` | decode_split_by_length.py:544 | one flag per row, `attempt < max_attempt[sign]`, or TypeError exactly when a comparison fails |
| `Timeline.RejectsLowerAttempts` | decode_split_by_length.py:544 | with integer attempts, a row is flagged exactly when its sign has a recording with a higher attempt, and each sign keeps an unflagged row |
| `Timeline.MaxAttemptAfterSort` | decode_split_by_length.py:543-544 | sorting does not change which attempt is the highest per sign |
| `Clips.ApplyBuffers` | decode_split_by_length.py:183-209 | the end moves by `buffer_end`; inverted, the length is `buffer_end - buffer_start`, otherwise the unbuffered length plus that |
| `Clips.Unpack` | decode_split_by_length.py:154-158 | unpacking succeeds exactly for seven fields (current) or five (legacy, valid by default), and otherwise raises ValueError |
| `Clips.ParseField` | decode_split_by_length.py:306-311 | a string field parses or raises ValueError; any other value raises TypeError |
| `Clips.PlanClip` | decode_split_by_length.py:296-337 | the boundaries: hold exactly for presses over a second, a tap's start from the previous record's field 4 or the video start, and redirection to `invalid/` by validity (hold) or `reject` (tap) |
| `Clips.Cut` | decode_split_by_length.py:213-284 | CUDA raises AttributeError; otherwise the request's video, directory, name, window and result follow the plan |
| `Clips.ExtractClip` | decode_split_by_length.py:296-463 | stated by `HoldIffLonger`, `ClipWindow`, `OutputDirectory`, `OutputName`, `ResultFollowsValidity`, `WrongLengthFails`, `CudaAlwaysFails` and `ConfigOverridesOptions` |
| `Clips.ExtractClipHold` | decode_split_by_length.py:147-284 | stated by `LongPressIsHold` (it is what `ExtractClip` does for a long press), `WrongLengthFails` and `CudaAlwaysFails` |
| `Clips.HoldIffLonger` | decode_split_by_length.py:313-314 | a clip is cut in hold mode exactly when sign end minus sign start exceeds one second |
| `Clips.LongPressIsHold` | decode_split_by_length.py:313-314 | for a long press, `extract_clip_from_video` is `extract_clip_from_video_hold` |
| `Clips.HeldPlansHold` | decode_split_by_length.py:313-314 | a recording held longer than one second is planned by the hold path, whatever the previous record and the reject flag |
| `Clips.ClipWindow` | decode_split_by_length.py:343-377 | the encoder's start and duration are the buffered offsets of the resolved boundaries from the video start |
| `Clips.InvertedLength` | decode_split_by_length.py:358-360 | an inverted calibration fixes the clip length to `buffer_end - buffer_start` |
| `Clips.ConfigOverridesOptions` | decode_split_by_length.py:350-377 | a user in `config.json` gets the same clip whatever the command-line buffers |
| `Clips.OutputDirectory` | decode_split_by_length.py:380-417 | the directory is `invalid/<sign>` when redirected, else `<dest>/<uid>/<sign>`, `<dest>/<sign>` or `<dest>` by layout |
| `Clips.OutputName` | decode_split_by_length.py:382-405 | the file name for each layout, and which timestamp it uses |
| `Clips.ResultFollowsValidity` | decode_split_by_length.py:461-463 | the result is `(True, None, None)` exactly when `is_valid` is truthy, else `(False, file, sign)` |
| `Clips.WrongLengthFails` | decode_split_by_length.py:296-300 | a record of the wrong length raises ValueError in both functions |
| `Clips.CudaAlwaysFails` | decode_split_by_length.py:425-440 | with `use_cuda` every extraction fails |
| `Pipeline.Runs` | decode_split_by_length.py:548-561 | task `i` gets row `i`, its attempt as index, and row `i - 1` (or None) as the previous recording |
| `Pipeline.Outcome` | decode_split_by_length.py:453-459 | a task succeeds exactly when planning succeeds and the encoder exits with 0; otherwise CalledProcessError or the planning error |
| `Pipeline.PoolMap` | decode_split_by_length.py:548-561 | `pool.map` returns every result in order when all succeed; otherwise it raises the error of a failed task, and the model picks the failed task of lowest index |
| `Pipeline.Issued` | decode_split_by_length.py:548-561 | every encoder request comes from a task that planned successfully; none is issued when all fail |
| `Pipeline.ErrorLine` | decode_split_by_length.py:567 | the line is `file + ", " + sign + "\n"`, and TypeError unless both are strings |
| `Pipeline.WriteErrorSigns` | decode_split_by_length.py:564-568 | the loop's lines and failure are `ErrorLog` of the results |
| `Pipeline.ErrorLogStops` | decode_split_by_length.py:565-567 | the first failing write ends the loop |
| `Pipeline.ErrorLogLines` | decode_split_by_length.py:565-567 | the loop fails (with TypeError) exactly when a flagged result is not printable; otherwise it writes one line per flagged result, in order |
| `Pipeline.ValidResultsLogNothing` | decode_split_by_length.py:565-567 | all-valid results write nothing |
| `Pipeline.TimelineOutcome` | decode_split_by_length.py:509-568 | the timeline branch writes no error log and no noSigns line, and cuts only from this file's video |
| `Pipeline.ProcessFileSpec` | decode_split_by_length.py:487-575 | the filter, the counter, the error log (written exactly for unparsable descriptions, at `<stem>.log`), and the abort from the 51st failure |
| `Pipeline.ProcessTimeline` | decode_split_by_length.py:509-568 | the loops compute `TimelineOutcome` |
| `Pipeline.ProcessFile` | decode_split_by_length.py:487-575 | the method's outcome and new `error_count` are `ProcessFileSpec` on the old count |
| `Pipeline.NoSignsIffFewEntries` | decode_split_by_length.py:509-573 | `noSigns.txt` gets the file name exactly for a decoded dictionary of at most one entry, and then nothing is cut |
| `Pipeline.ClipsOnlyWithVideo` | decode_split_by_length.py:509 | clips are cut only for a decoded dictionary of two or more entries whose video exists, and only from that video |
| `Pipeline.TaskResults` | decode_split_by_length.py:548-561 | when the pool succeeds the timeline is in the current schema, and result `k` follows row `k`'s validity |
| `Pipeline.LegacyTimelineRaises` | decode_split_by_length.py:528-529 | when the description has no `isValid`, a non-empty timeline of rows with seven or more fields makes `pool.map` raise ValueError before any encoder call |
| `Pipeline.ErrorLogOfRecords` | decode_split_by_length.py:564-568 | results that follow the rows' validity log exactly the invalid rows' `file, sign` lines |
| `Pipeline.ErrorSignsListInvalidRecords` | decode_split_by_length.py:548-568 | after a successful pool, errorSigns lists exactly the invalid recordings, in sorted order |
| `Batches.Dedup` | flask_app/batches/create_batches.py:46-50 | first occurrences only: the same members as the input |
| `Batches.DedupDistinct` | flask_app/batches/create_batches.py:49-50 | no value occurs twice |
| `Batches.DedupOrder` | flask_app/batches/create_batches.py:46-50 | values are kept in the order of their first occurrence |
| `Batches.GroupedShape` | flask_app/batches/create_batches.py:39-52 | one group per word with an entry whose phrase and clip are both non-empty, no word twice, in order of first use |
| `Batches.GroupClips` | flask_app/batches/create_batches.py:41-50 | a group's clips are exactly its word's non-empty clips, without duplicates, in order of first use |
| `Batches.GroupClipsByWord` | flask_app/batches/create_batches.py:34-52 | the loop computes `Grouped` |
| `Batches.VisitKeepsGrouping` | flask_app/batches/create_batches.py:42-50 | one turn of the loop keeps the dictionary equal to the grouping of the entries seen so far |
| `Batches.Put` | flask_app/batches/create_batches.py:24 | a new word is added at the end of the batch |
| `Batches.Dealt` | flask_app/batches/create_batches.py:17-19 | there is always at least one batch, `batch_0`, even when there are no groups |
| `Batches.DealtKeys` | flask_app/batches/create_batches.py:17-27 | the batches are keyed `batch_0`, `batch_1`, … in order |
| `Batches.DealBatches` | flask_app/batches/create_batches.py:17-27 | the loop computes `Dealt` |
| `Batches.DealtPairs` | flask_app/batches/create_batches.py:22-27 | with distinct words, batch `k` holds groups `2k` and `2k + 1` and there are `n / 2 + 1` batches |
| `Batches.DealtShape` | flask_app/batches/create_batches.py:17-27 | at most two words per batch; the last batch holds `n % 2`; the batches in order give back the groups |
| `Batches.CreatePhraseBatches` | flask_app/batches/create_batches.py:15-27 | grouping then dealing; the batches flatten back to the groups and each holds at most two |

## Left out

- Reading the EXIF description (`get_image_description`, Pillow) is left out. The description text is an input.
- `eval` is a parameter. Its result is taken to be a dictionary whose values are recording lists or other metadata, and each recording is a sequence of strings, ints, bools or None. Other Python values (floats, nested containers) are not modelled.
- `config.json` entries are taken to have `buffer_start`, `buffer_end` and `invert`; a missing key (KeyError) is not modelled.
- Clip boundaries and buffers are exact reals, not binary floats. `{start:.2f}` and `{time:.2f}` are described by the exact start and duration in the `ClipRequest`, not by the rendered command string.
- The encoder is the `encode` parameter. Neither the command line nor the shell quoting of paths is modelled.
- `os.makedirs`, and the appends to `noSigns.txt` and `errorSigns.txt`, are modelled as the directory chosen or the lines produced. File handles, locks and `pbar` are left out.
- `Pipeline.PoolMap`: the pool splits the tasks into chunks and runs them in parallel. A chunk stops at its first exception, and `pool.map` raises the error of whichever failed chunk reports back first, which depends on timing. The model fixes one schedule the pool allows: the error raised is the one of the failing task of lowest index. With several failing tasks, the real pool may raise another task's error. The encoder calls are over-approximated by `Issued`, which lists the request of every task that planned successfully, including tasks a chunk would have skipped after a failure.
- `Timestamps.ParseTimestamp`: accepts ASCII digits only. In `strptime`, `%Y` and some digit positions of `%d`, `%H`, `%M` and `%S` are matched by the regex `\d`, which also takes other Unicode decimal digits (Arabic-Indic digits, for example). Such timestamps are rejected here but parsed by Python.
- `RecordText.RewriteCurrentRecord` and `RecordText.RewriteLegacyRecord` cover one recording whose values hold none of `,` `"` `\` `[` `]` `=` `'` or a newline, and do not end in `.`, with the legacy record taken to end right after the comma that the `signEnd` rule consumes. Surrounding dictionary text, several recordings in one description, and values that trigger the cleanup rules are not covered by a whole-text lemma; for them only the rule-by-rule lemmas of `Description` hold.
- `Timeline.SortRows`: Python accepts a mix of numeric sign ends (ints and bools) in `sorted`. The model requires all sign ends to be strings once there are two or more rows, and raises TypeError otherwise. A timeline with numeric sign ends fails later in `strptime` anyway.
- `Timeline.MaxAttemptOfRows` and `Timeline.RejectsLowerAttempts` are stated for integer attempts only. For other attempt values the model keeps Python's comparison errors (`Records.PyLess`) but proves nothing about the maximum.
- `count_recording` is not called on the live path of `process_file`; it appears only in dead, commented-out code, so it is not modelled.
- Argument parsing, `make_missing_dirs` and the `__main__` loop over the backup directory (which skips `.zip` files and hands each name to `process_file`) are not part of this model. Neither are `tqdm` and the Tk and Flask annotation applications.
- `Batches.Dealt`: the batch dictionary is modelled as an ordered list of `(key, batch)` pairs, since the keys are generated in order and never repeat. Loading the JSON metadata file and writing `batches.json` are left out. Each metadata entry is given as an optional phrase and an optional clip name, both strings.
- `Batches.DealtPairs` and `Batches.DealtShape` assume distinct words. That assumption always holds for output of `group_clips_by_word` (`Batches.GroupedShape`) and is what `create_phrase_batches` feeds them.
