/**
 RFC 3339 (section 5.6, `date-time`) timestamps as Go's `time.Parse` and
 `Time.Format` handle them with the layout `time.RFC3339`
 ("2006-01-02T15:04:05Z07:00").

 A parsed time keeps both the instant and the zone offset it was written in,
 because `Format` writes the time back in that same offset. Instants are
 nanoseconds since 0000-01-01T00:00:00Z in the proleptic Gregorian calendar.
 */
module Rfc3339 {
  import opened Wrappers
  import opened Decimal
  import opened Calendar
  import opened IntDiv

  /** A point in time and the offset east of UTC, in seconds, of the zone it is shown in. */
  datatype Time = Time(instant: int, offset: int)

  /** Wall-clock reading: a calendar date and a time of day. */
  datatype Clock = Clock(date: Date, hour: int, minute: int, second: int)

  predicate ValidClock(c: Clock) {
    ValidDate(c.date) && 0 <= c.hour < 24 && 0 <= c.minute < 60 && 0 <= c.second < 60
  }

  /** Go's zero `time.Time`: 0001-01-01T00:00:00Z, what `time.Parse` returns on failure. */
  const ZeroTime: Time := Time(31_622_400 * 1_000_000_000, 0)

  // ---------------------------------------------------------------------------
  // Parsing
  // ---------------------------------------------------------------------------

  /** The all-digit field `s[lo..hi]` if its value lies in `[min, max]`. */
  function Field(s: string, lo: int, hi: int, min: int, max: int): (r: Option<int>)
    requires 0 <= lo <= hi <= |s|
    ensures r.Some? <==> AllDigits(s[lo..hi]) && min <= Value(s[lo..hi]) <= max
    ensures r.Some? ==> r.value == Value(s[lo..hi])
  {
    var f := s[lo..hi];
    if AllDigits(f) && min <= Value(f) <= max then Some(Value(f)) else None
  }

  /** Reads the fixed-width `YYYY-MM-DDTHH:MM:SS` prefix of a timestamp. */
  function ParseClock(head: string): (r: Option<Clock>)
    requires |head| == 19
    ensures r.Some? ==> ValidClock(r.value) && 0 <= r.value.date.year <= 9999
  {
    var year := Field(head, 0, 4, 0, 9999);
    var month := Field(head, 5, 7, 1, 12);
    if year.None? || month.None? then None
    else
      var day := Field(head, 8, 10, 1, DaysIn(month.value, year.value));
      var hour := Field(head, 11, 13, 0, 23);
      var minute := Field(head, 14, 16, 0, 59);
      var second := Field(head, 17, 19, 0, 59);
      if day.None? || hour.None? || minute.None? || second.None? then None
      else if head[4] != '-' || head[7] != '-' || head[10] != 'T' || head[13] != ':' || head[16] != ':' then None
      else Some(Clock(Date(year.value, month.value, day.value), hour.value, minute.value, second.value))
  }

  /** The number of digits `s` starts with. */
  function DigitRun(s: string): (n: nat)
    ensures n <= |s|
    ensures AllDigits(s[..n])
    ensures n < |s| ==> !IsDigit(s[n])
  {
    if |s| == 0 || !IsDigit(s[0]) then 0
    else
      var n := 1 + DigitRun(s[1..]);
      assert s[..n] == [s[0]] + s[1..][..n - 1];
      n
  }

  /**
   Splits an optional fractional second (a '.' and at least one digit) off the
   text that follows the seconds field, returning its value in nanoseconds
   (digits past the ninth are dropped) and the text after it.
   */
  function SplitFraction(rest: string): (r: (int, string))
    ensures !(2 <= |rest| && rest[0] == '.') ==> r == (0, rest)
    ensures |r.1| <= |rest| && r.1 == rest[|rest| - |r.1|..]
  {
    if 2 <= |rest| && rest[0] == '.' && IsDigit(rest[1]) then
      var n := 1 + DigitRun(rest[1..]);
      var used := if n > 10 then 10 else n;
      assert AllDigits(rest[1..used]) by {
        assert rest[1..used] == rest[1..][..used - 1];
      }
      (Scale(Value(rest[1..used]), 10 - used), rest[n..])
    else (0, rest)
  }

  /** `v` followed by `k` zero digits: Go scales a short fraction to nanoseconds one digit at a time. */
  function Scale(v: int, k: nat): (r: int)
    ensures v >= 0 ==> r >= 0
  {
    if k == 0 then v else Scale(v, k - 1) * 10
  }

  /** Reads the zone designator: "Z" or a signed "hh:mm" offset, giving seconds east of UTC. */
  function ParseZone(z: string): (r: Option<int>)
    ensures r.Some? ==> r.value % 60 == 0 && -86400 < r.value < 86400
    ensures r.Some? ==> z == "Z" || (|z| == 6 && (z[0] == '+' || z[0] == '-'))
    ensures r == Some(0) && z != "Z" ==> z[1..] == "00:00"
  {
    if z == "Z" then Some(0)
    else if |z| == 6 && (z[0] == '+' || z[0] == '-') && z[3] == ':' then
      var hours := Field(z, 1, 3, 0, 23);
      var minutes := Field(z, 4, 6, 0, 59);
      if hours.None? || minutes.None? then None
      else
        var east := (hours.value * 60 + minutes.value) * 60;
        if east == 0 then
          assert z[1..] == z[1..3] + ":" + z[4..6];
          ZeroField(z[1..3]);
          ZeroField(z[4..6]);
          Some(0)
        else Some(if z[0] == '-' then -east else east)
    else None
  }

  lemma ZeroField(f: string)
    requires |f| == 2 && AllDigits(f) && Value(f) == 0
    ensures f == "00"
  {
    assert f[..1][..0] == [];
  }

  /** The instant, in nanoseconds, that a wall-clock reading denotes in UTC. */
  function LocalNanos(c: Clock, nanos: int): int
    requires 1 <= c.date.month <= 12
  {
    var days := DaysFromCivil(c.date.year, c.date.month, c.date.day);
    (days * 86400 + c.hour * 3600 + c.minute * 60 + c.second) * 1_000_000_000 + nanos
  }

  /**
   Go's `time.Parse(time.RFC3339, s)` on its strict path: four-digit year,
   two-digit fields checked against their ranges (days against the month's
   length, seconds below 60), an optional fraction, then "Z" or "+hh:mm"/"-hh:mm".
   */
  function Parse(s: string): (r: Option<Time>)
    ensures r.Some? ==> r.value.offset % 60 == 0 && -86400 < r.value.offset < 86400
  {
    if |s| < 19 then None
    else
      match ParseClock(s[..19])
      case None => None
      case Some(c) =>
        var (nanos, zone) := SplitFraction(s[19..]);
        match ParseZone(zone)
        case None => None
        case Some(offset) => Some(Time(LocalNanos(c, nanos) - offset * 1_000_000_000, offset))
  }

  // ---------------------------------------------------------------------------
  // Formatting
  // ---------------------------------------------------------------------------

  /** The wall clock a time shows in its own zone (sub-second part dropped). */
  function WallClock(t: Time): (c: Clock)
    ensures ValidClock(c)
  {
    var local := t.instant + t.offset * 1_000_000_000;
    var secs := local / 1_000_000_000;
    var sod := secs % 86400;
    Clock(CivilFromDays(secs / 86400), sod / 3600, sod % 3600 / 60, sod % 60)
  }

  /** Go's four-digit year: zero-padded, with a leading '-' for years before 0. */
  function YearText(y: int): string {
    if y < 0 then "-" + Padded(-y, 4) else Padded(y, 4)
  }

  function DateText(d: Date): string
    requires ValidDate(d)
  {
    YearText(d.year) + "-" + Padded(d.month, 2) + "-" + Padded(d.day, 2)
  }

  function TimeOfDayText(c: Clock): string
    requires ValidClock(c)
  {
    Padded(c.hour, 2) + ":" + Padded(c.minute, 2) + ":" + Padded(c.second, 2)
  }

  /** The `2006-01-02T15:04:05` part of the layout. */
  function ClockText(c: Clock): string
    requires ValidClock(c)
  {
    DateText(c.date) + "T" + TimeOfDayText(c)
  }

  /** Go's "Z07:00": "Z" for offset zero, otherwise a sign and hh:mm of the offset in whole minutes. */
  function ZoneText(offset: int): string {
    if offset == 0 then "Z"
    else
      var zone := Quot(offset, 60);
      var minutes := if zone < 0 then -zone else zone;
      OffsetText(zone < 0, minutes / 60, minutes % 60)
  }

  /** A numeric zone designator, "+hh:mm" or "-hh:mm". */
  function OffsetText(negative: bool, h: nat, m: nat): string {
    [if negative then '-' else '+'] + Padded(h, 2) + ":" + Padded(m, 2)
  }

  /** Go's `t.Format(time.RFC3339)`. */
  function Format(t: Time): string {
    ClockText(WallClock(t)) + ZoneText(t.offset)
  }

  /** A string is canonical when it parses and formatting the parsed time gives it back. */
  predicate Canonical(s: string) {
    Parse(s).Some? && Format(Parse(s).value) == s
  }

  // ---------------------------------------------------------------------------
  // Round trip
  // ---------------------------------------------------------------------------

  /** Times that `Format` writes without losing anything `Parse` can read back. */
  predicate Formattable(t: Time) {
    && t.instant % 1_000_000_000 == 0
    && t.offset % 60 == 0 && -86400 < t.offset < 86400
    && 0 <= WallClock(t).date.year <= 9999
  }

  lemma PaddedField(s: string, lo: int, f: string, n: nat, width: nat, min: int, max: int)
    requires 1 <= width && n < Pow10(width) && min <= n <= max
    requires f == Padded(n, width)
    requires 0 <= lo && lo + width <= |s| && s[lo..lo + width] == f
    ensures Field(s, lo, lo + width, min, max) == Some(n)
  {
    PaddedWidth(n, width);
  }

  /**
   A fixed-width field reads the number `n` exactly when its text is `n`
   zero-padded to the field's width and `n` lies in range: `Field` inverts
   `Padded`.
   */
  lemma FieldPadded(s: string, lo: int, hi: int, min: int, max: int, n: nat)
    requires 0 <= lo < hi <= |s|
    ensures Field(s, lo, hi, min, max) == Some(n) <==> s[lo..hi] == Padded(n, hi - lo) && min <= n <= max
  {
    if Field(s, lo, hi, min, max) == Some(n) {
      PaddedDigits(s[lo..hi]);
    }
  }

  lemma Pow10Values()
    ensures Pow10(2) == 100 && Pow10(4) == 10000
  {
    assert Pow10(1) == 10;
    assert Pow10(3) == 1000;
  }

  /** Where the three parts of `a + [x] + b + [y] + c` sit. */
  lemma Join3(a: string, x: char, b: string, y: char, c: string)
    ensures var s := a + [x] + b + [y] + c;
      && |s| == |a| + |b| + |c| + 2
      && s[0..|a|] == a && s[|a|] == x
      && s[|a| + 1..|a| + 1 + |b|] == b && s[|a| + 1 + |b|] == y
      && s[|a| + 2 + |b|..] == c
  {
  }

  lemma DateTextLayout(d: Date)
    requires ValidDate(d) && 0 <= d.year <= 9999
    ensures var s := DateText(d);
      && |s| == 10 && s[0..4] == Padded(d.year, 4) && s[5..7] == Padded(d.month, 2)
      && s[8..10] == Padded(d.day, 2) && s[4] == '-' && s[7] == '-'
  {
    Pow10Values();
    PaddedWidth(d.year, 4);
    PaddedWidth(d.month, 2);
    PaddedWidth(d.day, 2);
    assert DateText(d) == Padded(d.year, 4) + ['-'] + Padded(d.month, 2) + ['-'] + Padded(d.day, 2);
    Join3(Padded(d.year, 4), '-', Padded(d.month, 2), '-', Padded(d.day, 2));
  }

  lemma TimeOfDayTextLayout(c: Clock)
    requires ValidClock(c)
    ensures var s := TimeOfDayText(c);
      && |s| == 8 && s[0..2] == Padded(c.hour, 2) && s[3..5] == Padded(c.minute, 2)
      && s[6..8] == Padded(c.second, 2) && s[2] == ':' && s[5] == ':'
  {
    Pow10Values();
    PaddedWidth(c.hour, 2);
    PaddedWidth(c.minute, 2);
    PaddedWidth(c.second, 2);
    assert TimeOfDayText(c) == Padded(c.hour, 2) + [':'] + Padded(c.minute, 2) + [':'] + Padded(c.second, 2);
    Join3(Padded(c.hour, 2), ':', Padded(c.minute, 2), ':', Padded(c.second, 2));
  }

  /** Where each field of `ClockText` sits in its 19 characters. */
  lemma ClockTextLayout(c: Clock)
    requires ValidClock(c) && 0 <= c.date.year <= 9999
    ensures var s := ClockText(c);
      && |s| == 19
      && s[0..4] == Padded(c.date.year, 4) && s[5..7] == Padded(c.date.month, 2)
      && s[8..10] == Padded(c.date.day, 2) && s[11..13] == Padded(c.hour, 2)
      && s[14..16] == Padded(c.minute, 2) && s[17..19] == Padded(c.second, 2)
      && s[4] == '-' && s[7] == '-' && s[10] == 'T' && s[13] == ':' && s[16] == ':'
  {
    var date, time := DateText(c.date), TimeOfDayText(c);
    DateTextLayout(c.date);
    TimeOfDayTextLayout(c);
    SliceOfJoin(date, 'T', time);
  }

  lemma SliceOfJoin(a: string, x: char, b: string)
    requires |a| == 10 && |b| == 8
    ensures var s := a + [x] + b;
      && s[0..4] == a[0..4] && s[5..7] == a[5..7] && s[8..10] == a[8..10]
      && s[4] == a[4] && s[7] == a[7] && s[10] == x
      && s[11..13] == b[0..2] && s[14..16] == b[3..5] && s[17..19] == b[6..8]
      && s[13] == b[2] && s[16] == b[5]
  {
  }

  /** A 19-character text whose fields and separators are those of `c` reads as `c`. */
  lemma ParseClockFields(s: string, c: Clock)
    requires |s| == 19 && ValidClock(c)
    requires Field(s, 0, 4, 0, 9999) == Some(c.date.year) && Field(s, 5, 7, 1, 12) == Some(c.date.month)
    requires Field(s, 8, 10, 1, DaysIn(c.date.month, c.date.year)) == Some(c.date.day)
    requires Field(s, 11, 13, 0, 23) == Some(c.hour) && Field(s, 14, 16, 0, 59) == Some(c.minute)
    requires Field(s, 17, 19, 0, 59) == Some(c.second)
    requires s[4] == '-' && s[7] == '-' && s[10] == 'T' && s[13] == ':' && s[16] == ':'
    ensures ParseClock(s) == Some(c)
  {
  }

  /** The date fields of a text laid out as `ClockText` lays them out. */
  lemma DateFieldsOf(s: string, d: Date)
    requires ValidDate(d) && 0 <= d.year <= 9999 && |s| == 19
    requires s[0..4] == Padded(d.year, 4) && s[5..7] == Padded(d.month, 2) && s[8..10] == Padded(d.day, 2)
    ensures Field(s, 0, 4, 0, 9999) == Some(d.year) && Field(s, 5, 7, 1, 12) == Some(d.month)
    ensures Field(s, 8, 10, 1, DaysIn(d.month, d.year)) == Some(d.day)
  {
    Pow10Values();
    PaddedField(s, 0, Padded(d.year, 4), d.year, 4, 0, 9999);
    PaddedField(s, 5, Padded(d.month, 2), d.month, 2, 1, 12);
    PaddedField(s, 8, Padded(d.day, 2), d.day, 2, 1, DaysIn(d.month, d.year));
  }

  /** The time-of-day fields of a text laid out as `ClockText` lays them out. */
  lemma TimeFieldsOf(s: string, c: Clock)
    requires ValidClock(c) && |s| == 19
    requires s[11..13] == Padded(c.hour, 2) && s[14..16] == Padded(c.minute, 2) && s[17..19] == Padded(c.second, 2)
    ensures Field(s, 11, 13, 0, 23) == Some(c.hour) && Field(s, 14, 16, 0, 59) == Some(c.minute)
    ensures Field(s, 17, 19, 0, 59) == Some(c.second)
  {
    Pow10Values();
    PaddedField(s, 11, Padded(c.hour, 2), c.hour, 2, 0, 23);
    PaddedField(s, 14, Padded(c.minute, 2), c.minute, 2, 0, 59);
    PaddedField(s, 17, Padded(c.second, 2), c.second, 2, 0, 59);
  }

  lemma ClockTextParses(c: Clock)
    requires ValidClock(c) && 0 <= c.date.year <= 9999
    ensures |ClockText(c)| == 19
    ensures ParseClock(ClockText(c)) == Some(c)
  {
    ClockTextLayout(c);
    DateFieldsOf(ClockText(c), c.date);
    TimeFieldsOf(ClockText(c), c);
    ParseClockFields(ClockText(c), c);
  }

  /** A numeric zone designator reads back as its sign and its two fields. */
  lemma ZoneFieldsParse(negative: bool, h: nat, m: nat)
    requires h <= 23 && m <= 59
    ensures var z := OffsetText(negative, h, m);
      && |z| == 6 && (z[0] == '+' || z[0] == '-') && (z[0] == '-' <==> negative) && z[3] == ':'
      && Field(z, 1, 3, 0, 23) == Some(h) && Field(z, 4, 6, 0, 59) == Some(m)
  {
    Pow10Values();
    var hh, mm := Padded(h, 2), Padded(m, 2);
    PaddedWidth(h, 2);
    PaddedWidth(m, 2);
    var z := OffsetText(negative, h, m);
    assert z[1..3] == hh && z[4..6] == mm;
    PaddedField(z, 1, hh, h, 2, 0, 23);
    PaddedField(z, 4, mm, m, 2, 0, 59);
  }

  /** A nonzero whole-minute offset below a day, split into the sign, hours and minutes `ZoneText` writes. */
  lemma ZoneArithmetic(offset: int, negative: bool, h: int, m: int)
    requires offset != 0 && offset % 60 == 0 && -86400 < offset < 86400
    requires var zone := Quot(offset, 60);
      var minutes := if zone < 0 then -zone else zone;
      negative == (zone < 0) && h == minutes / 60 && m == minutes % 60
    ensures 0 <= h <= 23 && 0 <= m <= 59 && (h, m) != (0, 0)
    ensures (negative <==> offset < 0) && (h * 60 + m) * 60 == (if offset < 0 then -offset else offset)
  {
  }

  /** A numeric zone designator reads back as the signed offset it spells. */
  lemma OffsetTextParses(negative: bool, h: nat, m: nat)
    requires h <= 23 && m <= 59 && (h, m) != (0, 0)
    ensures var east := (h * 60 + m) * 60;
      ParseZone(OffsetText(negative, h, m)) == Some(if negative then -east else east)
  {
    ZoneFieldsParse(negative, h, m);
    ParseZoneFields(OffsetText(negative, h, m), negative, h, m);
  }

  /** Six characters with a sign, an hours field, ':' and a minutes field read as that offset. */
  lemma ParseZoneFields(z: string, negative: bool, h: nat, m: nat)
    requires |z| == 6 && (z[0] == '+' || z[0] == '-') && (z[0] == '-' <==> negative) && z[3] == ':'
    requires Field(z, 1, 3, 0, 23) == Some(h) && Field(z, 4, 6, 0, 59) == Some(m) && (h, m) != (0, 0)
    ensures var east := (h * 60 + m) * 60;
      ParseZone(z) == Some(if negative then -east else east)
  {
    assert z != "Z";
  }

  lemma ZoneTextParses(offset: int)
    requires offset % 60 == 0 && -86400 < offset < 86400
    ensures 1 <= |ZoneText(offset)| && ZoneText(offset)[0] != '.'
    ensures ParseZone(ZoneText(offset)) == Some(offset)
  {
    if offset != 0 {
      var zone := Quot(offset, 60);
      var minutes := if zone < 0 then -zone else zone;
      var negative, h, m := zone < 0, minutes / 60, minutes % 60;
      ZoneArithmetic(offset, negative, h, m);
      ZoneFieldsParse(negative, h, m);
      OffsetTextParses(negative, h, m);
      assert ZoneText(offset) == OffsetText(negative, h, m);
    }
  }

  /** A whole number of seconds, split into days and the hours, minutes and seconds of the last day. */
  lemma SecondsSplit(secs: int)
    ensures var sod := secs % 86400;
      secs == secs / 86400 * 86400 + sod / 3600 * 3600 + sod % 3600 / 60 * 60 + sod % 60
  {
    var sod := secs % 86400;
    assert sod == sod / 3600 * 3600 + sod % 3600 / 60 * 60 + sod % 60;
  }

  lemma WholeSeconds(instant: int, offset: int)
    requires instant % 1_000_000_000 == 0
    ensures var local := instant + offset * 1_000_000_000;
      local == local / 1_000_000_000 * 1_000_000_000
  {
  }

  /** The wall clock, read back as an instant in the time's own zone, is the time itself. */
  lemma WallClockInstant(t: Time)
    requires t.instant % 1_000_000_000 == 0
    ensures LocalNanos(WallClock(t), 0) - t.offset * 1_000_000_000 == t.instant
  {
    var secs := (t.instant + t.offset * 1_000_000_000) / 1_000_000_000;
    WholeSeconds(t.instant, t.offset);
    SecondsSplit(secs);
  }

  /** A timestamp without a fraction parses field by field. */
  lemma ParseJoined(s: string, c: Clock, t: Time)
    requires |s| >= 19 && ParseClock(s[..19]) == Some(c)
    requires SplitFraction(s[19..]) == (0, s[19..]) && ParseZone(s[19..]) == Some(t.offset)
    requires LocalNanos(c, 0) - t.offset * 1_000_000_000 == t.instant
    ensures Parse(s) == Some(t)
  {
  }

  /** The two parts of `Format`'s text each read back as what was written. */
  lemma FormatParts(t: Time)
    requires Formattable(t)
    ensures var s := Format(t);
      && |s| >= 19 && ParseClock(s[..19]) == Some(WallClock(t))
      && SplitFraction(s[19..]) == (0, s[19..]) && ParseZone(s[19..]) == Some(t.offset)
  {
    var c := WallClock(t);
    var head, zone := ClockText(c), ZoneText(t.offset);
    ClockTextParses(c);
    ZoneTextParses(t.offset);
    var s := Format(t);
    assert s[..19] == head && s[19..] == zone;
    assert SplitFraction(zone) == (0, zone);
  }

  /** Formatting a whole-second time and parsing the text gives the same time back. */
  lemma ParseFormat(t: Time)
    requires Formattable(t)
    ensures Parse(Format(t)) == Some(t)
  {
    FormatParts(t);
    WallClockInstant(t);
    ParseJoined(Format(t), WallClock(t), t);
  }

  /** Whatever `Format` writes for a formattable time is canonical. */
  lemma FormatIsCanonical(t: Time)
    requires Formattable(t)
    ensures Canonical(Format(t))
  {
    ParseFormat(t);
  }

  // ---------------------------------------------------------------------------
  // Non-canonical spellings
  // ---------------------------------------------------------------------------

  lemma ZoneTextLast(offset: int)
    ensures var z := ZoneText(offset);
      |z| >= 1 && (z[|z| - 1] == 'Z' <==> offset == 0)
  {
    if offset != 0 {
      var zone := Quot(offset, 60);
      var minutes := if zone < 0 then -zone else zone;
      var head := [if zone < 0 then '-' else '+'] + Padded(minutes / 60, 2) + ":";
      var mm := Padded(minutes % 60, 2);
      LastOfJoin(head, mm);
      assert IsDigit(mm[|mm| - 1]);
    }
  }

  lemma LastOfJoin(a: string, b: string)
    requires |b| >= 1
    ensures (a + b)[|a + b| - 1] == b[|b| - 1]
  {
  }

  /** `Format` ends its text with 'Z' exactly for times in offset zero. */
  lemma FormatZoneSuffix(t: Time)
    ensures var s := Format(t);
      |s| >= 1 && (s[|s| - 1] == 'Z' <==> t.offset == 0)
  {
    ZoneTextLast(t.offset);
    LastOfJoin(ClockText(WallClock(t)), ZoneText(t.offset));
  }

  /** The zone designator `Parse` accepted: a suffix of the text that reads as the parsed offset. */
  lemma ParsedZone(s: string) returns (zone: string)
    requires Parse(s).Some?
    ensures |zone| <= |s| && zone == s[|s| - |zone|..]
    ensures ParseZone(zone) == Some(Parse(s).value.offset)
  {
    var r := SplitFraction(s[19..]);
    zone := r.1;
    assert s[19..][|s[19..]| - |zone|..] == s[|s| - |zone|..];
  }

  lemma ZeroOffsetParses(z: string)
    requires z == "+00:00" || z == "-00:00"
    ensures ParseZone(z) == Some(0)
  {
    assert z[1..3] == "00" && z[4..6] == "00";
    assert Value("00") == 0 by {
      assert "00"[..1] == "0";
      assert "0"[..0] == "";
    }
  }

  /** A zone field cut from the end of text ending in "+00:00" or "-00:00" parses to offset zero. */
  lemma ZeroOffsetZone(s: string, zone: string, offset: int)
    requires |s| >= 6 && (s[|s| - 6..] == "+00:00" || s[|s| - 6..] == "-00:00")
    requires |zone| <= |s| && zone == s[|s| - |zone|..]
    requires ParseZone(zone) == Some(offset)
    ensures offset == 0
  {
    assert |zone| >= 1;
    assert zone[|zone| - 1] == s[|s| - 1] == s[|s| - 6..][5];
    assert |zone| == 6;
    assert zone == s[|s| - 6..];
    ZeroOffsetParses(zone);
  }

  /** A timestamp that parses and ends in "+00:00" or "-00:00" is in offset zero. */
  lemma ZeroOffsetSuffix(s: string)
    requires |s| >= 6 && (s[|s| - 6..] == "+00:00" || s[|s| - 6..] == "-00:00")
    requires Parse(s).Some?
    ensures Parse(s).value.offset == 0
  {
    var zone := ParsedZone(s);
    ZeroOffsetZone(s, zone, Parse(s).value.offset);
  }

  /**
   A timestamp written with the offset "+00:00" or "-00:00" is never canonical:
   it parses to a time in offset zero, which `Format` writes with a 'Z'.
   */
  lemma ZeroOffsetNotCanonical(s: string)
    requires |s| >= 6 && (s[|s| - 6..] == "+00:00" || s[|s| - 6..] == "-00:00")
    ensures !Canonical(s)
  {
    if Parse(s).Some? {
      ZeroOffsetReformatted(s, Parse(s).value);
    }
  }

  lemma ZeroOffsetReformatted(s: string, t: Time)
    requires |s| >= 6 && (s[|s| - 6..] == "+00:00" || s[|s| - 6..] == "-00:00")
    requires Parse(s) == Some(t)
    ensures Format(t) != s
  {
    assert s[|s| - 1] == s[|s| - 6..][5];
    ZeroOffsetSuffix(s);
    FormatNotEndingInZero(s, t);
  }

  /** `Format` never writes a time in offset zero as text ending in '0'. */
  lemma FormatNotEndingInZero(s: string, t: Time)
    requires |s| >= 1 && s[|s| - 1] == '0' && t.offset == 0
    ensures Format(t) != s
  {
    FormatZoneSuffix(t);
  }
}
