/**
 * Recorder timestamps `YYYY_MM_DD_HH_MM_SS.mmm`, read the way the pipeline
 * reads them: `datetime.strptime(t + "000", "%Y_%m_%d_%H_%M_%S.%f")`, and
 * the `timedelta` arithmetic done on the parsed values.
 */
module Timestamps {
  import opened Basics

  datatype Timestamp = Timestamp(
    year: int, month: int, day: int,
    hour: int, minute: int, second: int, microsecond: int)

  const MicrosPerDay: int := 86_400_000_000
  const MicrosPerSecond: int := 1_000_000

  predicate IsLeap(y: int) {
    y % 4 == 0 && (y % 100 != 0 || y % 400 == 0)
  }

  function DaysInMonth(y: int, m: int): int
    requires 1 <= m <= 12
  {
    if m == 2 then (if IsLeap(y) then 29 else 28)
    else if m == 4 || m == 6 || m == 9 || m == 11 then 30
    else 31
  }

  /** What `datetime` accepts. */
  predicate ValidTimestamp(t: Timestamp) {
    && 1 <= t.year <= 9999
    && 1 <= t.month <= 12
    && 1 <= t.day <= DaysInMonth(t.year, t.month)
    && 0 <= t.hour < 24
    && 0 <= t.minute < 60
    && 0 <= t.second < 60
    && 0 <= t.microsecond < MicrosPerSecond
  }

  predicate IsDigit(c: char) { '0' <= c <= '9' }

  predicate AllDigits(s: string) {
    forall k :: 0 <= k < |s| ==> IsDigit(s[k])
  }

  /** `int(s)` for a string of ASCII digits. */
  function NumberOf(s: string): nat
    requires AllDigits(s)
    decreases |s|
  {
    if |s| == 0 then 0
    else NumberOf(s[..|s| - 1]) * 10 + (s[|s| - 1] as int - '0' as int)
  }

  function Zeros(n: nat): (r: string)
    ensures |r| == n && AllDigits(r)
  {
    if n == 0 then "" else Zeros(n - 1) + "0"
  }

  /** Cuts `s` at the first `c`. */
  function SplitAt(s: string, c: char): (r: Option<(string, string)>)
    ensures r.Some? ==> s == r.value.0 + [c] + r.value.1 && c !in r.value.0
    ensures r.None? ==> c !in s
    decreases |s|
  {
    if |s| == 0 then None
    else if s[0] == c then Some(("", s[1..]))
    else
      match SplitAt(s[1..], c)
      case None => None
      case Some(p) =>
        assert s == [s[0]] + s[1..];
        Some(([s[0]] + p.0, p.1))
  }

  /** `%Y`: exactly four digits. */
  function YearField(f: string): Option<int> {
    if |f| == 4 && AllDigits(f) then Some(NumberOf(f)) else None
  }

  /**
   * `%m`, `%H`, `%M`, `%S`: one or two digits. Each regex alternative of
   * `_strptime` accepts a digit run exactly when its value is in range, and
   * that range is checked separately by ValidTimestamp.
   */
  function ShortField(f: string): Option<int> {
    if 1 <= |f| <= 2 && AllDigits(f) then Some(NumberOf(f)) else None
  }

  /** `%d` also accepts a space followed by one digit. */
  function DayField(f: string): Option<int> {
    if |f| == 2 && f[0] == ' ' && IsDigit(f[1]) then Some(f[1] as int - '0' as int)
    else ShortField(f)
  }

  /** `%f`: one to six digits, padded on the right to microseconds. */
  function FractionField(f: string): Option<int> {
    if 1 <= |f| <= 6 && AllDigits(f) then Some(NumberOf(f + Zeros(6 - |f|))) else None
  }

  /** The seven fields of `%Y_%m_%d_%H_%M_%S.%f`, before conversion. */
  datatype Pieces = Pieces(
    year: string, month: string, day: string,
    hour: string, minute: string, second: string, fraction: string)

  /** Cuts the text at the five `_` and the `.` the format has between its fields. */
  function SplitPieces(text: string): Option<Pieces> {
    var p1 :- SplitAt(text, '_');
    var p2 :- SplitAt(p1.1, '_');
    var p3 :- SplitAt(p2.1, '_');
    var p4 :- SplitAt(p3.1, '_');
    var p5 :- SplitAt(p4.1, '_');
    var p6 :- SplitAt(p5.1, '.');
    Some(Pieces(p1.0, p2.0, p3.0, p4.0, p5.0, p6.0, p6.1))
  }

  function FromPieces(p: Pieces): (r: Option<Timestamp>)
    ensures r.Some? ==> ValidTimestamp(r.value)
  {
    var year :- YearField(p.year);
    var month :- ShortField(p.month);
    var day :- DayField(p.day);
    var hour :- ShortField(p.hour);
    var minute :- ShortField(p.minute);
    var second :- ShortField(p.second);
    var micro :- FractionField(p.fraction);
    var t := Timestamp(year, month, day, hour, minute, second, micro);
    if ValidTimestamp(t) then Some(t) else None
  }

  /**
   * `datetime.strptime(s + "000", "%Y_%m_%d_%H_%M_%S.%f")`; None stands for
   * the ValueError Python raises.
   */
  function ParseTimestamp(s: string): (r: Option<Timestamp>)
    ensures r.Some? ==> ValidTimestamp(r.value)
  {
    var pieces :- SplitPieces(s + "000");
    FromPieces(pieces)
  }

  /** Days from 0001-01-01 (day 1), as `date.toordinal()`. */
  function Ordinal(y: int, m: int, d: int): int
    requires 1 <= y && 1 <= m <= 12
  {
    var py := y - 1;
    365 * py + py / 4 - py / 100 + py / 400 + DaysBeforeMonth(y, m) + d
  }

  function DaysBeforeMonth(y: int, m: int): int
    requires 1 <= m <= 12
    decreases m
  {
    if m == 1 then 0 else DaysBeforeMonth(y, m - 1) + DaysInMonth(y, m - 1)
  }

  /** The microsecond count of a timestamp on one absolute axis. */
  function Instant(t: Timestamp): int
    requires ValidTimestamp(t)
  {
    (((Ordinal(t.year, t.month, t.day) * 24 + t.hour) * 60 + t.minute) * 60 + t.second)
      * MicrosPerSecond + t.microsecond
  }

  /**
   * `td.seconds + td.microseconds / 1e6` for a `timedelta` of `d`
   * microseconds: the `days` component is dropped, so `d` is taken modulo
   * one day.
   */
  function DayOffset(d: int): real {
    (d % MicrosPerDay) as real / MicrosPerSecond as real
  }

  /** The offset, in seconds, of `t` from `origin` as the pipeline computes it. */
  function OffsetSeconds(t: Timestamp, origin: Timestamp): real
    requires ValidTimestamp(t) && ValidTimestamp(origin)
  {
    DayOffset(Instant(t) - Instant(origin))
  }

  lemma DayOffsetRange(d: int)
    ensures 0.0 <= DayOffset(d) < 86400.0
  {
    var m := d % MicrosPerDay;
    assert 0 <= m < MicrosPerDay;
    assert m as real < MicrosPerDay as real;
  }

  lemma DayOffsetForward(d: int)
    requires 0 <= d < MicrosPerDay
    ensures DayOffset(d) == d as real / 1_000_000.0
  {
    assert d % MicrosPerDay == d;
  }

  lemma DayOffsetBackward(d: int)
    requires -MicrosPerDay <= d < 0
    ensures DayOffset(d) == (d + MicrosPerDay) as real / 1_000_000.0
    ensures DayOffset(d) >= 0.0
  {
    assert d % MicrosPerDay == d + MicrosPerDay;
  }

  /** Every offset lies in [0, 86400) seconds. */
  lemma OffsetInDay(t: Timestamp, origin: Timestamp)
    requires ValidTimestamp(t) && ValidTimestamp(origin)
    ensures 0.0 <= OffsetSeconds(t, origin) < 86400.0
  {
    DayOffsetRange(Instant(t) - Instant(origin));
  }

  /** A difference of less than a day, forward, is taken as it is. */
  lemma OffsetForward(t: Timestamp, origin: Timestamp)
    requires ValidTimestamp(t) && ValidTimestamp(origin)
    requires 0 <= Instant(t) - Instant(origin) < MicrosPerDay
    ensures OffsetSeconds(t, origin) == (Instant(t) - Instant(origin)) as real / 1_000_000.0
  {
    DayOffsetForward(Instant(t) - Instant(origin));
  }

  /** A timestamp before the origin wraps round to the end of the day. */
  lemma OffsetWrapsBackward(t: Timestamp, origin: Timestamp)
    requires ValidTimestamp(t) && ValidTimestamp(origin)
    requires -MicrosPerDay <= Instant(t) - Instant(origin) < 0
    ensures OffsetSeconds(t, origin)
         == (Instant(t) - Instant(origin) + MicrosPerDay) as real / 1_000_000.0
    ensures OffsetSeconds(t, origin) >= 0.0
  {
    DayOffsetBackward(Instant(t) - Instant(origin));
  }

  /** The recorder's own way of writing a timestamp, with millisecond precision. */
  function Pad(n: nat, width: nat): (r: string)
    ensures |r| == width && AllDigits(r)
    decreases width
  {
    if width == 0 then ""
    else Pad(n / 10, width - 1) + [('0' as int + n % 10) as char]
  }

  function Format(t: Timestamp): string
    requires ValidTimestamp(t)
  {
    Pad(t.year, 4) + "_" + Pad(t.month, 2) + "_" + Pad(t.day, 2) + "_"
      + Pad(t.hour, 2) + "_" + Pad(t.minute, 2) + "_" + Pad(t.second, 2) + "."
      + Pad(t.microsecond / 1000, 3)
  }

  lemma {:induction false} PadValue(n: nat, width: nat)
    requires n < Power10(width)
    ensures NumberOf(Pad(n, width)) == n
    decreases width
  {
    if width > 0 {
      var p := Pad(n, width);
      assert p[..|p| - 1] == Pad(n / 10, width - 1);
      PadValue(n / 10, width - 1);
    }
  }

  function Power10(k: nat): (r: nat)
    ensures r > 0
  {
    if k == 0 then 1 else 10 * Power10(k - 1)
  }

  lemma {:induction false} SplitAtFirst(a: string, c: char, b: string)
    requires c !in a
    ensures SplitAt(a + [c] + b, c) == Some((a, b))
    decreases |a|
  {
    if |a| == 0 {
      assert (a + [c] + b)[1..] == b;
    } else {
      assert (a + [c] + b)[1..] == a[1..] + [c] + b;
      SplitAtFirst(a[1..], c, b);
      assert [a[0]] + a[1..] == a;
    }
  }

  lemma DigitsHaveNoSeparator(s: string)
    requires AllDigits(s)
    ensures '_' !in s && '.' !in s && ' ' !in s
  {
  }

  lemma SplitFormatted(y: string, mo: string, d: string, h: string, mi: string, s: string, f: string)
    requires AllDigits(y) && AllDigits(mo) && AllDigits(d) && AllDigits(h) && AllDigits(mi) && AllDigits(s)
    ensures SplitPieces(y + "_" + mo + "_" + d + "_" + h + "_" + mi + "_" + s + "." + f)
         == Some(Pieces(y, mo, d, h, mi, s, f))
  {
    DigitsHaveNoSeparator(y);
    DigitsHaveNoSeparator(mo);
    DigitsHaveNoSeparator(d);
    DigitsHaveNoSeparator(h);
    DigitsHaveNoSeparator(mi);
    DigitsHaveNoSeparator(s);
    var r5 := s + "." + f;
    var r4 := mi + "_" + r5;
    var r3 := h + "_" + r4;
    var r2 := d + "_" + r3;
    var r1 := mo + "_" + r2;
    assert y + "_" + mo + "_" + d + "_" + h + "_" + mi + "_" + s + "." + f == y + "_" + r1;
    SplitAtFirst(y, '_', r1);
    SplitAtFirst(mo, '_', r2);
    SplitAtFirst(d, '_', r3);
    SplitAtFirst(h, '_', r4);
    SplitAtFirst(mi, '_', r5);
    SplitAtFirst(s, '.', f);
  }

  lemma TwoDigitField(n: nat)
    requires n < 100
    ensures ShortField(Pad(n, 2)) == Some(n)
    ensures DayField(Pad(n, 2)) == Some(n)
  {
    assert Power10(2) == 100;
    PadValue(n, 2);
  }

  /** The fields of a formatted timestamp convert back to it. */
  lemma FormattedPieces(t: Timestamp)
    requires ValidTimestamp(t) && t.microsecond % 1000 == 0
    ensures FromPieces(Pieces(Pad(t.year, 4), Pad(t.month, 2), Pad(t.day, 2), Pad(t.hour, 2),
                              Pad(t.minute, 2), Pad(t.second, 2), Pad(t.microsecond / 1000, 3) + "000"))
         == Some(t)
  {
    YearFieldOf(t.year);
    TwoDigitField(t.month);
    TwoDigitField(t.day);
    TwoDigitField(t.hour);
    TwoDigitField(t.minute);
    TwoDigitField(t.second);
    FractionFieldOf(t.microsecond);
    FromFields(Pieces(Pad(t.year, 4), Pad(t.month, 2), Pad(t.day, 2), Pad(t.hour, 2),
                      Pad(t.minute, 2), Pad(t.second, 2), Pad(t.microsecond / 1000, 3) + "000"), t);
  }

  /** Fields that each convert to a component of a valid timestamp convert to that timestamp. */
  lemma FromFields(p: Pieces, t: Timestamp)
    requires ValidTimestamp(t)
    requires YearField(p.year) == Some(t.year) && ShortField(p.month) == Some(t.month)
    requires DayField(p.day) == Some(t.day) && ShortField(p.hour) == Some(t.hour)
    requires ShortField(p.minute) == Some(t.minute) && ShortField(p.second) == Some(t.second)
    requires FractionField(p.fraction) == Some(t.microsecond)
    ensures FromPieces(p) == Some(t)
  {
  }

  lemma YearFieldOf(y: nat)
    requires y < 10000
    ensures YearField(Pad(y, 4)) == Some(y)
  {
    assert Power10(4) == 10000;
    PadValue(y, 4);
  }

  lemma FractionFieldOf(micro: nat)
    requires micro < MicrosPerSecond && micro % 1000 == 0
    ensures FractionField(Pad(micro / 1000, 3) + "000") == Some(micro)
  {
    var ms := micro / 1000;
    assert ms * 1000 == micro;
    var f := Pad(ms, 3) + "000";
    FractionValue(ms);
    assert f + Zeros(0) == f;
  }

  /**
   * A timestamp the recorder writes parses back to itself: `Format` and
   * `ParseTimestamp` are inverse on millisecond-precision datetimes.
   */
  lemma FormatParses(t: Timestamp)
    requires ValidTimestamp(t) && t.microsecond % 1000 == 0
    ensures ParseTimestamp(Format(t)) == Some(t)
  {
    var y, mo, d := Pad(t.year, 4), Pad(t.month, 2), Pad(t.day, 2);
    var h, mi, s := Pad(t.hour, 2), Pad(t.minute, 2), Pad(t.second, 2);
    var f := Pad(t.microsecond / 1000, 3) + "000";
    var text := Format(t) + "000";
    assert text == y + "_" + mo + "_" + d + "_" + h + "_" + mi + "_" + s + "." + f;
    SplitFormatted(y, mo, d, h, mi, s, f);
    FormattedPieces(t);
  }

  lemma TimesTen(s: string)
    requires AllDigits(s)
    ensures AllDigits(s + "0") && NumberOf(s + "0") == NumberOf(s) * 10
  {
    assert (s + "0")[..|s|] == s;
  }

  lemma FractionValue(ms: nat)
    requires ms < 1000
    ensures AllDigits(Pad(ms, 3) + "000")
    ensures NumberOf(Pad(ms, 3) + "000") == ms * 1000
  {
    var p := Pad(ms, 3);
    assert Power10(3) == 1000;
    PadValue(ms, 3);
    TimesTen(p);
    TimesTen(p + "0");
    TimesTen(p + "0" + "0");
    assert p + "0" + "0" + "0" == p + "000";
  }
}
