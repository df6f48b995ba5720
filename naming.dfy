/**
 * Names derived from the recorder's files: which backup files are
 * timestamp images, the user id and video path of an image, the per-file
 * error log, and the sign name as it appears in output paths.
 */
module Naming {
  import opened Basics
  import opened Text

  /** The suffix that marks a timestamps image; the video has the same stem. */
  const TimestampsSuffix: string := "-timestamps.jpg"

  /** The filter of `process_file`: timestamp images, but not macOS `._` companions. */
  predicate IsTimestampsImage(filename: string) {
    EndsWith(filename, TimestampsSuffix) && !StartsWith(filename, "._")
  }

  /**
   * The names the filter lets through are exactly a stem followed by the
   * suffix, where the stem does not begin with `._`.
   */
  lemma TimestampsImageNames(filename: string)
    ensures IsTimestampsImage(filename)
        <==> filename == Stem(filename) + TimestampsSuffix && !StartsWith(Stem(filename), "._")
  {
    var stem := Stem(filename);
    if filename == stem + TimestampsSuffix {
      assert EndsWith(filename, TimestampsSuffix) by {
        assert filename[|filename| - |TimestampsSuffix|..] == TimestampsSuffix;
      }
      if |stem| >= 2 {
        assert filename[..2] == stem[..2];
      } else {
        assert filename[|stem|] == '-';
      }
    }
  }

  /** `filename[:-len('-timestamps.jpg')]`, with Python's clamping of a short string. */
  function Stem(filename: string): (r: string)
    ensures EndsWith(filename, TimestampsSuffix) ==> filename == r + TimestampsSuffix
  {
    filename[..Max(0, |filename| - |TimestampsSuffix|)]
  }

  /** Where a description that fails to evaluate is written. */
  function ErrorLogPath(destDir: string, filename: string): (r: string)
    ensures !StartsWith(Stem(filename), "/") ==> r == Join(destDir, "error") + "/" + Stem(filename) + ".log"
    ensures '/' !in Stem(filename) ==> Basename(r) == Stem(filename) + ".log"
  {
    var name := Stem(filename) + ".log";
    JoinBasename(Join(destDir, "error"), name);
    ErrorLogParent(destDir, Stem(filename));
    Join(Join(destDir, "error"), name)
  }

  /** Unless the stem is absolute, `<stem>.log` goes directly under `<dest>/error`. */
  lemma ErrorLogParent(destDir: string, stem: string)
    ensures !StartsWith(stem, "/") ==>
      Join(Join(destDir, "error"), stem + ".log") == Join(destDir, "error") + "/" + stem + ".log"
  {
    var d := Join(destDir, "error");
    var name := stem + ".log";
    assert d[|d| - 1] == 'r';
    if !StartsWith(stem, "/") {
      if |stem| > 0 {
        assert name[..1] == stem[..1];
      } else {
        assert name[..1] == ".";
      }
      assert !StartsWith(name, "/");
      assert d[|d| - 1..] == [d[|d| - 1]];
      assert |d| > 0 && !EndsWith(d, "/");
    }
    assert d + "/" + name == d + "/" + stem + ".log";
  }

  /** Joining a plain name onto a directory puts that name last. */
  lemma JoinBasename(dir: string, name: string)
    ensures '/' !in name ==> Basename(Join(dir, name)) == name
  {
    if '/' !in name {
      assert |name| > 0 ==> name[0] in name;
      var p := Join(dir, name);
      var prefix := if |dir| == 0 || EndsWith(dir, "/") then dir else dir + "/";
      assert p == prefix + name;
      BasenameAfterSlash(prefix, name);
    }
  }

  /** The basename of a directory prefix (empty or ending in `/`) followed by a plain name. */
  lemma {:induction false} BasenameAfterSlash(prefix: string, name: string)
    requires '/' !in name && (|prefix| == 0 || prefix[|prefix| - 1] == '/')
    ensures Basename(prefix + name) == name
    decreases |name|
  {
    if |name| == 0 {
      assert prefix + name == prefix;
    } else {
      var p := prefix + name;
      var init := name[..|name| - 1];
      var last := name[|name| - 1];
      assert p[..|p| - 1] == prefix + init;
      assert p[|p| - 1] == last;
      assert last != '/' by {
        assert last in name;
      }
      assert '/' !in init by {
        assert forall x :: x in init ==> x in name;
      }
      BasenameAfterSlash(prefix, init);
      assert Basename(p) == Basename(prefix + init) + [last];
      assert name == init + [last];
    }
  }

  /** The characters `clean_sign` removes, in the order it removes them. */
  const SignPunctuation: seq<string> := [" / ", " ", "-", ",", "(", ")", "'"]

  function RemoveEach(patterns: seq<string>, s: string): string
    requires forall k :: 0 <= k < |patterns| ==> |patterns[k]| > 0
    decreases |patterns|
  {
    if |patterns| == 0 then s else RemoveEach(patterns[1..], ReplaceAll(s, patterns[0], ""))
  }

  /** `clean_sign`: the sign name with spaces and punctuation removed. */
  function CleanSign(sign: string): string {
    RemoveEach(SignPunctuation, sign)
  }

  /** The single characters `clean_sign` removes wherever they occur. */
  predicate Stripped(c: char) {
    c == ' ' || c == '-' || c == ',' || c == '(' || c == ')' || c == '\''
  }

  /** Removing patterns never introduces a character. */
  lemma {:induction false} RemoveEachChars(patterns: seq<string>, s: string)
    requires forall k :: 0 <= k < |patterns| ==> |patterns[k]| > 0
    ensures forall x :: x in RemoveEach(patterns, s) ==> x in s
    decreases |patterns|
  {
    if |patterns| > 0 {
      ReplaceChars(s, patterns[0], "");
      RemoveEachChars(patterns[1..], ReplaceAll(s, patterns[0], ""));
    }
  }

  /** A character outside every pattern keeps its number of occurrences. */
  lemma {:induction false} RemoveEachCount(patterns: seq<string>, s: string, x: char)
    requires forall k :: 0 <= k < |patterns| ==> |patterns[k]| > 0 && x !in patterns[k]
    ensures multiset(RemoveEach(patterns, s))[x] == multiset(s)[x]
    decreases |patterns|
  {
    if |patterns| > 0 {
      ReplaceCount(s, patterns[0], "", x);
      RemoveEachCount(patterns[1..], ReplaceAll(s, patterns[0], ""), x);
    }
  }

  /** The cleaned sign contains no space, hyphen, comma, parenthesis or apostrophe. */
  lemma CleanSignStrips(sign: string)
    ensures forall c :: c in CleanSign(sign) ==> !Stripped(c)
  {
    var s0 := ReplaceAll(sign, " / ", "");
    var rest := SignPunctuation[1..];
    assert CleanSign(sign) == RemoveEach(rest, s0);
    forall c | Stripped(c)
      ensures c !in CleanSign(sign)
    {
      var k := if c == ' ' then 0 else if c == '-' then 1 else if c == ',' then 2
        else if c == '(' then 3 else if c == ')' then 4 else 5;
      assert rest[k] == [c];
      RemovedStaysRemoved(rest, s0, k, c);
    }
  }

  /** Once step `k` has removed `c`, the later removals cannot bring it back. */
  lemma {:induction false} RemovedStaysRemoved(patterns: seq<string>, s: string, k: nat, c: char)
    requires forall i :: 0 <= i < |patterns| ==> |patterns[i]| > 0
    requires k < |patterns| && patterns[k] == [c]
    ensures c !in RemoveEach(patterns, s)
    decreases |patterns|
  {
    var next := ReplaceAll(s, patterns[0], "");
    if k == 0 {
      RemoveChar(s, c);
      RemoveEachChars(patterns[1..], next);
    } else {
      RemovedStaysRemoved(patterns[1..], next, k - 1, c);
    }
  }

  /** Every other character of the sign survives, as often as it occurs, except `/`. */
  lemma CleanSignKeeps(sign: string, x: char)
    requires !Stripped(x) && x != '/'
    ensures multiset(CleanSign(sign))[x] == multiset(sign)[x]
  {
    KeptOutsidePunctuation(x);
    RemoveEachCount(SignPunctuation, sign, x);
  }

  lemma KeptOutsidePunctuation(x: char)
    requires !Stripped(x) && x != '/'
    ensures forall k :: 0 <= k < |SignPunctuation| ==> |SignPunctuation[k]| > 0 && x !in SignPunctuation[k]
  {
    assert x !in SignPunctuation[0] by {
      assert SignPunctuation[0] == [' ', '/', ' '];
    }
  }

  /** The cleaned sign only has characters of the sign. */
  lemma CleanSignChars(sign: string)
    ensures forall x :: x in CleanSign(sign) ==> x in sign
  {
    RemoveEachChars(SignPunctuation, sign);
  }

  /** Text without any pattern's characters passes every removal unchanged. */
  lemma {:induction false} RemoveEachAbsent(patterns: seq<string>, s: string)
    requires forall k :: 0 <= k < |patterns| ==> |patterns[k]| > 0 && exists c :: c in patterns[k] && c !in s
    ensures RemoveEach(patterns, s) == s
    decreases |patterns|
  {
    if |patterns| > 0 {
      var c :| c in patterns[0] && c !in s;
      if Contains(s, patterns[0]) {
        ContainsChar(s, patterns[0], c);
      }
      ReplaceAbsent(s, patterns[0], "");
      RemoveEachAbsent(patterns[1..], s);
    }
  }

  /** Cleaning a cleaned sign changes nothing. */
  lemma CleanSignIdempotent(sign: string)
    ensures CleanSign(CleanSign(sign)) == CleanSign(sign)
  {
    var s := CleanSign(sign);
    CleanSignStrips(sign);
    var ps := SignPunctuation;
    assert ' ' in ps[0] && ' ' in ps[1] && '-' in ps[2] && ',' in ps[3];
    assert '(' in ps[4] && ')' in ps[5] && '\'' in ps[6];
    RemoveEachAbsent(ps, s);
  }

  /**
   * `get_uid`: the video is the image path with `-timestamps.jpg` replaced
   * by `.mp4` (a regular expression, so its `.` matches any character), and
   * the user id is the video's file name up to its first `-`.
   */
  function GetUid(backupDir: string, filename: string): (r: (string, string))
    ensures '-' !in r.0 && '/' !in r.0
    ensures StartsWith(Basename(r.1), r.0)
  {
    var imagePath := Join(backupDir, filename);
    var videoPath := RegexReplaceAll(imagePath, TimestampsSuffix, ".mp4");
    var videoName := Basename(videoPath);
    var uid := BeforeFirst(videoName, '-');
    PrefixKeepsOut(videoName, uid, '/');
    (uid, videoPath)
  }

  lemma PrefixKeepsOut(s: string, p: string, c: char)
    requires StartsWith(s, p) && c !in s
    ensures c !in p
  {
    assert forall k :: 0 <= k < |p| ==> p[k] == s[k];
  }

  /** No match of a pattern that begins with `-` starts inside a text without `-`. */
  lemma {:induction false} RegexSkipsPrefix(u: string, t: string, pat: string, rep: string)
    requires |pat| > 0 && pat[0] == '-' && '-' !in u
    ensures RegexReplaceAll(u + t, pat, rep) == u + RegexReplaceAll(t, pat, rep)
    decreases |u|
  {
    if |u| > 0 {
      assert u[0] in u;
      assert (u + t)[0] == u[0];
      assert !RegexMatchesAt(u + t, pat);
      assert (u + t)[1..] == u[1..] + t;
      RegexSkipsPrefix(u[1..], t, pat, rep);
    } else {
      assert u + t == t;
    }
  }

  /** Replacement brings in only characters of the text or of the replacement. */
  lemma {:induction false} RegexChars(s: string, pat: string, rep: string)
    requires |pat| > 0
    ensures forall x :: x in RegexReplaceAll(s, pat, rep) ==> x in s || x in rep
    decreases |s|
  {
    if RegexMatchesAt(s, pat) {
      RegexMatchLength(s, pat);
      RegexChars(s[|pat|..], pat, rep);
      assert forall x :: x in s[|pat|..] ==> x in s;
    } else if |s| > 0 {
      RegexChars(s[1..], pat, rep);
      assert forall x :: x in s[1..] ==> x in s;
    }
  }

  /** A character in neither the text nor the replacement is not in the result. */
  lemma RegexKeepsOut(s: string, pat: string, rep: string, c: char)
    requires |pat| > 0 && c !in s && c !in rep
    ensures c !in RegexReplaceAll(s, pat, rep)
  {
    RegexChars(s, pat, rep);
  }

  /** The directory part `posixpath.join` puts in front of a relative name. */
  function DirPrefix(dir: string): (r: string)
    ensures |r| == 0 || r[|r| - 1] == '/'
    ensures '-' !in dir ==> '-' !in r
  {
    if |dir| == 0 || EndsWith(dir, "/") then dir else dir + "/"
  }

  /**
   * For an image named `<uid>-<rest>` in a backup directory without `-`,
   * where `<rest>` does not itself begin with the timestamps suffix, the
   * user id is `<uid>` and the video sits in the same directory.
   */
  lemma UidIsFilePrefix(backupDir: string, uid: string, rest: string)
    requires '-' !in backupDir && '-' !in uid && '/' !in uid && '/' !in rest
    requires |uid| > 0 && !RegexMatchesAt("-" + rest, TimestampsSuffix)
    ensures GetUid(backupDir, uid + "-" + rest).0 == uid
    ensures GetUid(backupDir, uid + "-" + rest).1
         == DirPrefix(backupDir) + (uid + "-" + RegexReplaceAll(rest, TimestampsSuffix, ".mp4"))
  {
    var video := DirPrefix(backupDir) + (uid + "-" + RegexReplaceAll(rest, TimestampsSuffix, ".mp4"));
    NoSlashInExtension();
    PrefixedVideo(backupDir, uid, rest, TimestampsSuffix, ".mp4");
    GetUidOf(backupDir, uid + "-" + rest, video);
  }

  lemma NoSlashInExtension()
    ensures '/' !in ".mp4"
  {
  }

  /** The video path of `<uid>-<rest>` keeps the directory and `<uid>-` in front. */
  lemma PrefixedVideo(backupDir: string, uid: string, rest: string, pat: string, rep: string)
    requires '-' !in backupDir && '-' !in uid && '/' !in uid && '/' !in rest && '/' !in rep
    requires |uid| > 0 && |pat| > 0 && pat[0] == '-' && !RegexMatchesAt("-" + rest, pat)
    ensures RegexReplaceAll(Join(backupDir, uid + "-" + rest), pat, rep)
         == DirPrefix(backupDir) + (uid + "-" + RegexReplaceAll(rest, pat, rep))
    ensures BeforeFirst(Basename(DirPrefix(backupDir) + (uid + "-" + RegexReplaceAll(rest, pat, rep))), '-') == uid
  {
    VideoPathShape(backupDir, uid, rest, pat, rep);
    RegexKeepsOut(rest, pat, rep, '/');
    UidOfVideoPath(DirPrefix(backupDir), uid, RegexReplaceAll(rest, pat, rep));
  }

  /** `GetUid` in terms of the video path it derives. */
  lemma GetUidOf(backupDir: string, filename: string, videoPath: string)
    requires RegexReplaceAll(Join(backupDir, filename), TimestampsSuffix, ".mp4") == videoPath
    ensures GetUid(backupDir, filename) == (BeforeFirst(Basename(videoPath), '-'), videoPath)
  {
  }

  lemma UidOfVideoPath(prefix: string, uid: string, tail: string)
    requires |prefix| == 0 || prefix[|prefix| - 1] == '/'
    requires '-' !in uid && '/' !in uid && '/' !in tail
    ensures BeforeFirst(Basename(prefix + (uid + "-" + tail)), '-') == uid
  {
    var name := uid + "-" + tail;
    assert '/' !in name;
    BasenameAfterSlash(prefix, name);
    BeforeFirstDash(uid, tail);
  }

  lemma VideoPathShape(backupDir: string, uid: string, rest: string, pat: string, rep: string)
    requires '-' !in backupDir && '-' !in uid && '/' !in uid && |uid| > 0
    requires |pat| > 0 && pat[0] == '-' && !RegexMatchesAt("-" + rest, pat)
    ensures RegexReplaceAll(Join(backupDir, uid + "-" + rest), pat, rep)
         == DirPrefix(backupDir) + (uid + "-" + RegexReplaceAll(rest, pat, rep))
  {
    var filename := uid + "-" + rest;
    var prefix := DirPrefix(backupDir);
    var tail := RegexReplaceAll(rest, pat, rep);
    assert filename[0] == uid[0] && uid[0] in uid;
    assert !StartsWith(filename, "/");
    assert Join(backupDir, filename) == prefix + filename;
    RegexSkipsPrefix(prefix, filename, pat, rep);
    assert filename == uid + ("-" + rest);
    RegexSkipsPrefix(uid, "-" + rest, pat, rep);
    DashKept(rest, pat, rep);
    assert uid + ("-" + tail) == uid + "-" + tail;
  }

  /** A `-` where the pattern does not match is copied through. */
  lemma DashKept(rest: string, pat: string, rep: string)
    requires |pat| > 0 && !RegexMatchesAt("-" + rest, pat)
    ensures RegexReplaceAll("-" + rest, pat, rep) == "-" + RegexReplaceAll(rest, pat, rep)
  {
    assert ("-" + rest)[1..] == rest;
  }

  lemma {:induction false} BeforeFirstDash(u: string, t: string)
    requires '-' !in u
    ensures BeforeFirst(u + "-" + t, '-') == u
    decreases |u|
  {
    if |u| > 0 {
      assert u[0] in u;
      assert (u + "-" + t)[1..] == u[1..] + "-" + t;
      BeforeFirstDash(u[1..], t);
    }
  }
}
