/**
 The error Go's `time.Parse(time.RFC3339, s)` returns. When the strict
 reading (`Rfc3339.Parse`) rejects `s`, Go reads it again with its general
 layout parser. That parser walks the layout "2006-01-02T15:04:05Z07:00"
 from left to right and reports the first problem it meets:
 - a month, hour, minute or second out of range stops the walk at that field;
 - text that does not match the layout stops it with a syntax error;
 - text left over after the zone is reported as extra text;
 - the day is compared with the month's length only after all of that.
 The walk is modelled over the strict field widths.
 */
module ParseErrors {
  import opened Wrappers
  import opened Decimal
  import opened Calendar
  import opened Rfc3339

  /** The three shapes of Go's `time.ParseError` message. */
  datatype ParseFailure = BadSyntax | OutOfRange(field: Element) | ExtraText(rest: string)

  /** The fields the walk checks against a range. */
  datatype Element = Month | Day | Hour | Minute | Second

  /** The word Go's message uses for a field. */
  function Name(e: Element): string {
    match e
    case Month => "month"
    case Day => "day"
    case Hour => "hour"
    case Minute => "minute"
    case Second => "second"
  }

  const Layout: string := "2006-01-02T15:04:05Z07:00"

  /** Two digit characters at `s[i]` and `s[i + 1]`. */
  predicate Digits2(s: string, i: nat) {
    i + 2 <= |s| && IsDigit(s[i]) && IsDigit(s[i + 1])
  }

  function Number2(s: string, i: nat): nat
    requires Digits2(s, i)
  {
    10 * DigitValue(s[i]) + DigitValue(s[i + 1])
  }

  /** Four digit characters at the start of `s`: the year. */
  predicate Digits4(s: string) {
    Digits2(s, 0) && Digits2(s, 2)
  }

  function Year(s: string): nat
    requires Digits4(s)
  {
    100 * Number2(s, 0) + Number2(s, 2)
  }

  predicate CharAt(s: string, i: nat, c: char) {
    i < |s| && s[i] == c
  }

  /** How much of `z` the zone element reads: "Z", or a sign and an hh:mm offset inside a day. */
  function ZoneLength(z: string): (n: Option<nat>)
    ensures n.Some? ==> 1 <= n.value <= |z| && ParseZone(z[..n.value]).Some?
    ensures ParseZone(z).Some? ==> n == Some(|z|)
  {
    if 1 <= |z| && z[0] == 'Z' then
      assert z[..1] == "Z";
      Some(1)
    else if 6 <= |z| && ParseZone(z[..6]).Some? then Some(6)
    else
      assert ParseZone(z).Some? ==> z[..6] == z;
      None
  }

  /** The general parser's verdict on `s`: the first problem it meets, or nothing. */
  function Diagnose(s: string): (f: Option<ParseFailure>)
    ensures f.Some? && f.value.ExtraText? ==> 0 < |f.value.rest| < |s|
  {
    if !ReadsSeconds(s) then HeadFault(s)
    else AfterSeconds(s[19..], DayRead(s), MonthLengthRead(s))
  }

  /**
   The walk from the year through the seconds: a field that is not two (or
   four) digits, or a separator that is not the layout's, is a syntax error;
   a month, hour, minute or second out of range stops the walk at once.
   */
  function HeadFault(s: string): (f: Option<ParseFailure>)
    ensures f.Some? ==> f.value.BadSyntax? || (f.value.OutOfRange? && f.value.field != Day)
  {
    if !Digits4(s) || !CharAt(s, 4, '-') || !Digits2(s, 5) then Some(BadSyntax)
    else if !(1 <= Number2(s, 5) <= 12) then Some(OutOfRange(Month))
    else if !CharAt(s, 7, '-') || !Digits2(s, 8) || !CharAt(s, 10, 'T') || !Digits2(s, 11) then Some(BadSyntax)
    else if 24 <= Number2(s, 11) then Some(OutOfRange(Hour))
    else if !CharAt(s, 13, ':') || !Digits2(s, 14) then Some(BadSyntax)
    else if 60 <= Number2(s, 14) then Some(OutOfRange(Minute))
    else if !CharAt(s, 16, ':') || !Digits2(s, 17) then Some(BadSyntax)
    else if 60 <= Number2(s, 17) then Some(OutOfRange(Second))
    else None
  }

  /** The walk reads the year through the seconds without finding a fault. */
  predicate ReadsSeconds(s: string) {
    HeadFault(s).None?
  }

  /** The day of the month the walk read. */
  function DayRead(s: string): int
    requires ReadsSeconds(s)
  {
    Number2(s, 8)
  }

  /** The length of the month the walk read. */
  function MonthLengthRead(s: string): int
    requires ReadsSeconds(s)
  {
    DaysIn(Number2(s, 5), Year(s))
  }

  /**
   The rest of the walk once the seconds are read: an optional fraction, the
   zone, any text left over, and last the day against the month's length.
   */
  function AfterSeconds(rest: string, day: int, monthLength: int): (f: Option<ParseFailure>)
    ensures f.Some? && f.value.OutOfRange? ==> f.value.field == Day
    ensures f.Some? && f.value.ExtraText? ==> 0 < |f.value.rest| < |rest|
  {
    AfterFraction(SplitFraction(rest).1, day, monthLength)
  }

  /** The zone, any text left over, and last the day against the month's length. */
  function AfterFraction(zone: string, day: int, monthLength: int): (f: Option<ParseFailure>)
    ensures f.Some? && f.value.OutOfRange? ==> f.value.field == Day
    ensures f.Some? && f.value.ExtraText? ==> 0 < |f.value.rest| < |zone|
  {
    match ZoneLength(zone)
    case None => Some(BadSyntax)
    case Some(n) =>
      if n < |zone| then Some(ExtraText(zone[n..]))
      else if !(1 <= day <= monthLength) then Some(OutOfRange(Day))
      else None
  }

  /** Go's `ParseError.Error()` for text that `time.Parse` rejects: the quoted text, then what went wrong. */
  function ParseErrorText(s: string): string {
    Quoted(s) + Detail(Diagnose(s))
  }

  function Quoted(s: string): string {
    "parsing time \"" + s + "\""
  }

  /** A syntax error goes on to name the layout; the other two say what they found. */
  function Detail(f: Option<ParseFailure>): string {
    match f
    case Some(OutOfRange(field)) => ": " + Name(field) + " out of range"
    case Some(ExtraText(rest)) => ": extra text: \"" + rest + "\""
    case _ => " as \"" + Layout + "\""
  }

  // ---------------------------------------------------------------------------
  // Agreement with the strict reading
  // ---------------------------------------------------------------------------

  /** A two-character field, read the way `Rfc3339.Field` reads it. */
  lemma Field2(s: string, i: nat)
    requires i + 2 <= |s|
    ensures AllDigits(s[i..i + 2]) <==> Digits2(s, i)
    ensures Digits2(s, i) ==> Value(s[i..i + 2]) == Number2(s, i)
  {
    var f := s[i..i + 2];
    assert f[0] == s[i] && f[1] == s[i + 1];
    assert f[..1] == [s[i]] && f[..1][..0] == [];
    if Digits2(s, i) {
      assert Value(f[..1]) == DigitValue(s[i]);
    }
  }

  /** The four-character year, read the way `Rfc3339.Field` reads it; it never exceeds 9999. */
  lemma Field4(s: string)
    requires 4 <= |s|
    ensures AllDigits(s[0..4]) <==> Digits4(s)
    ensures Digits4(s) ==> Value(s[0..4]) == Year(s) <= 9999
  {
    var f := s[0..4];
    assert f[0] == s[0] && f[1] == s[1] && f[2] == s[2] && f[3] == s[3];
    assert f[..3] == [s[0], s[1], s[2]] && f[..3][..2] == [s[0], s[1]];
    assert f[..3][..2][..1] == [s[0]] && f[..3][..2][..1][..0] == [];
    if Digits4(s) {
      assert Value([s[0]]) == DigitValue(s[0]);
      assert Value([s[0], s[1]]) == Number2(s, 0) by {
        assert [s[0], s[1]][..1] == [s[0]];
      }
      assert Value([s[0], s[1], s[2]]) == 10 * Number2(s, 0) + DigitValue(s[2]) by {
        assert [s[0], s[1], s[2]][..2] == [s[0], s[1]];
      }
    }
  }

  /** Every field and separator of `YYYY-MM-DDTHH:MM:SS` present and in range. */
  predicate StrictHead(s: string) {
    ReadsSeconds(s) && 1 <= DayRead(s) <= MonthLengthRead(s)
  }

  /** The strict reading accepts the first 19 characters exactly when the walk reads them in range. */
  lemma ClockChecks(s: string)
    requires 19 <= |s|
    ensures ParseClock(s[..19]).Some? <==> StrictHead(s)
  {
    var head := s[..19];
    HeadChecks(head);
    assert head[..19] == s[..19];
    HeadDecides(s, head);
  }

  /** The same, for a text of exactly 19 characters. */
  lemma HeadChecks(head: string)
    requires |head| == 19
    ensures ParseClock(head).Some? <==> StrictHead(head)
  {
    Field4(head);
    Field2(head, 5);
    Field2(head, 8);
    Field2(head, 11);
    Field2(head, 14);
    Field2(head, 17);
  }

  /** Only the first 19 characters decide whether the walk reaches the zone, and what it read. */
  lemma HeadDecides(s: string, t: string)
    requires 19 <= |s| && 19 <= |t| && s[..19] == t[..19]
    ensures HeadFault(s) == HeadFault(t)
    ensures ReadsSeconds(s) ==> DayRead(t) == DayRead(s) && MonthLengthRead(t) == MonthLengthRead(s)
  {
    SharedPrefix(s, t, 19);
  }

  /** Before the seconds the walk only stops on a syntax error or a month, hour, minute or second out of range. */
  lemma FaultsBeforeSeconds(s: string)
    requires !ReadsSeconds(s)
    ensures Diagnose(s).Some? && (Diagnose(s).value.BadSyntax? || (Diagnose(s).value.OutOfRange? && Diagnose(s).value.field != Day))
  {
  }

  /** Once the seconds are read, the verdict is the tail's. */
  lemma WalkToSeconds(s: string)
    requires ReadsSeconds(s)
    ensures Diagnose(s) == AfterSeconds(s[19..], DayRead(s), MonthLengthRead(s))
  {
  }

  /** The zone element reads all of `z` exactly when `z` is a whole zone designator. */
  lemma WholeZone(z: string)
    ensures ZoneLength(z) == Some(|z|) <==> ParseZone(z).Some?
  {
    if ZoneLength(z) == Some(|z|) {
      assert z[..|z|] == z;
    }
  }

  /** The general parser finds nothing wrong exactly when the strict reading succeeds. */
  lemma DiagnosedExactlyWhenRejected(s: string)
    ensures Diagnose(s).None? <==> Parse(s).Some?
  {
    StrictAccepts(s);
    GeneralAccepts(s);
    if 19 <= |s| {
      ClockChecks(s);
    }
  }

  /** The strict reading succeeds when the head reads as a clock and a whole zone follows any fraction. */
  lemma StrictAccepts(s: string)
    ensures Parse(s).Some? <==> 19 <= |s| && ParseClock(s[..19]).Some? && ParseZone(SplitFraction(s[19..]).1).Some?
  {
  }

  /** The general walk finds nothing wrong when the head is in range and a whole zone follows any fraction. */
  lemma GeneralAccepts(s: string)
    ensures Diagnose(s).None? <==> StrictHead(s) && ParseZone(SplitFraction(s[19..]).1).Some?
  {
    if ReadsSeconds(s) {
      var zone := SplitFraction(s[19..]).1;
      WholeZone(zone);
      if !(1 <= DayRead(s) <= MonthLengthRead(s)) {
        DayAlwaysChecked(zone, DayRead(s), MonthLengthRead(s));
      }
    }
  }

  /** A day out of its month is a fault whatever the zone. */
  lemma DayAlwaysChecked(zone: string, day: int, monthLength: int)
    requires !(1 <= day <= monthLength)
    ensures AfterFraction(zone, day, monthLength).Some?
  {
  }

  // ---------------------------------------------------------------------------
  // Where each report comes from
  // ---------------------------------------------------------------------------

  /** Where the field a range error names ends in the layout. */
  function FieldEnd(field: Element): nat {
    match field
    case Month => 7
    case Day => 10
    case Hour => 13
    case Minute => 16
    case Second => 19
  }

  /** Two strings that agree on their first `e` characters agree character by character. */
  lemma SharedPrefix(s: string, t: string, e: nat)
    requires e <= |s| && e <= |t| && s[..e] == t[..e]
    ensures forall i | 0 <= i < e :: s[i] == t[i]
  {
    assert forall i | 0 <= i < e :: s[i] == s[..e][i] && t[i] == t[..e][i];
  }

  /**
   A month, hour, minute or second out of range is reported as soon as the
   walk reaches that field, whatever text follows it.
   */
  lemma RangeErrorStopsTheWalk(s: string, t: string, field: Element)
    requires Diagnose(s) == Some(OutOfRange(field)) && field != Day
    requires FieldEnd(field) <= |t| && t[..FieldEnd(field)] == s[..FieldEnd(field)]
    ensures Diagnose(t) == Some(OutOfRange(field))
  {
    assert HeadFault(s) == Some(OutOfRange(field));
    SharedPrefix(s, t, FieldEnd(field));
    HeadStops(s, t, field);
  }

  /** The head of the walk stops on a range error having read only up to that field. */
  lemma HeadStops(s: string, t: string, field: Element)
    requires HeadFault(s) == Some(OutOfRange(field)) && FieldEnd(field) <= |t|
    requires forall i | 0 <= i < FieldEnd(field) :: t[i] == s[i]
    ensures HeadFault(t) == Some(OutOfRange(field))
  {
  }

  /** Writing the day as 01 changes nothing else the walk reads. */
  lemma DayRewritten(s: string, t: string)
    requires ReadsSeconds(s) && t == s[..8] + "01" + s[10..]
    ensures ReadsSeconds(t) && DayRead(t) == 1 && MonthLengthRead(t) == MonthLengthRead(s) && t[19..] == s[19..]
  {
    assert forall i | 0 <= i < 8 || 10 <= i < 19 :: t[i] == s[i];
    assert t[8] == '0' && t[9] == '1';
    assert t[19..] == s[19..];
  }

  /** After the seconds, a text whose only fault is its day has no fault once the day is in range. */
  lemma DayOnlyFault(w: string, day: int, day': int, monthLength: int)
    requires AfterSeconds(w, day, monthLength) == Some(OutOfRange(Day)) && 1 <= day' <= monthLength
    ensures AfterSeconds(w, day', monthLength) == None
  {
  }

  /**
   The day is checked against its month only after the rest of the text has
   been read: a text whose only fault is its day parses once the day is 01.
   */
  lemma DayCheckedLast(s: string)
    requires Diagnose(s) == Some(OutOfRange(Day))
    ensures Parse(s[..8] + "01" + s[10..]).Some?
  {
    var t := s[..8] + "01" + s[10..];
    if !ReadsSeconds(s) {
      FaultsBeforeSeconds(s);
    }
    WalkToSeconds(s);
    DayRewritten(s, t);
    WalkToSeconds(t);
    DayOnlyFault(s[19..], DayRead(s), 1, MonthLengthRead(s));
    DiagnosedExactlyWhenRejected(t);
  }

  /** Cutting a string after its leading digits does not change how many there are. */
  lemma {:induction false} DigitRunPrefix(x: string, j: nat)
    requires DigitRun(x) < j <= |x|
    ensures DigitRun(x[..j]) == DigitRun(x)
  {
    if IsDigit(x[0]) {
      assert x[..j][1..] == x[1..][..j - 1];
      DigitRunPrefix(x[1..], j - 1);
    }
  }

  /**
   Cutting the text after the seconds somewhere past the start of what follows
   the fraction leaves the fraction alone and cuts only what follows it.
   */
  lemma SplitFractionPrefix(w: string, k: nat, z: string)
    requires z == SplitFraction(w).1 && |w| - |z| < k <= |w|
    ensures SplitFraction(w[..k]).1 == z[..k - (|w| - |z|)]
  {
    var v := w[..k];
    FractionThenZone(w);
    FractionThenZone(v);
    if Dotted(w) {
      DottedPrefix(w, k, 1 + DigitRun(w[1..]));
    } else {
      assert !Dotted(v);
    }
  }

  /** A fraction starts the text: a '.' and a digit. */
  predicate Dotted(w: string) {
    2 <= |w| && w[0] == '.' && IsDigit(w[1])
  }

  /** What follows the fraction, if there is one. */
  lemma FractionThenZone(w: string)
    ensures SplitFraction(w).1 == if Dotted(w) then w[1 + DigitRun(w[1..])..] else w
  {
  }

  /** Cutting a text that starts with a fraction past the fraction keeps the fraction whole. */
  lemma DottedPrefix(w: string, k: nat, n: nat)
    requires Dotted(w) && n == 1 + DigitRun(w[1..]) && n < k <= |w|
    ensures Dotted(w[..k]) && 1 + DigitRun(w[..k][1..]) == n
  {
    assert w[..k][1..] == w[1..][..k - 1];
    DigitRunPrefix(w[1..], k - 1);
  }

  /** No fault at all, or only the day out of its month. */
  predicate AtMostTheDay(f: Option<ParseFailure>) {
    f.None? || f == Some(OutOfRange(Day))
  }

  /** After the seconds: cutting off the extra text leaves a whole zone, so only the day can fail. */
  lemma ExtraTextAfterZone(w: string, day: int, monthLength: int, rest: string, v: string)
    requires AfterSeconds(w, day, monthLength) == Some(ExtraText(rest))
    requires |rest| <= |w| && v == w[..|w| - |rest|]
    ensures AtMostTheDay(AfterSeconds(v, day, monthLength))
  {
    var zone := SplitFraction(w).1;
    SplitFractionPrefix(w, |w| - |rest|, zone);
    ZoneThenExtraText(zone, day, monthLength, rest);
  }

  /** The zone designator is whatever precedes the extra text. */
  lemma ZoneThenExtraText(zone: string, day: int, monthLength: int, rest: string)
    requires AfterFraction(zone, day, monthLength) == Some(ExtraText(rest))
    ensures AtMostTheDay(AfterFraction(zone[..|zone| - |rest|], day, monthLength))
  {
    var n := ZoneLength(zone).value;
    assert |zone| - |rest| == n;
    WholeZone(zone[..n]);
  }

  /** Extra text is only found after the walk has read the seconds. */
  lemma ExtraTextReadsSeconds(s: string, rest: string)
    requires Diagnose(s) == Some(ExtraText(rest))
    ensures ReadsSeconds(s) && AfterSeconds(s[19..], DayRead(s), MonthLengthRead(s)) == Some(ExtraText(rest))
  {
    if !ReadsSeconds(s) {
      FaultsBeforeSeconds(s);
    }
    WalkToSeconds(s);
  }

  /** Cutting `c` characters off the end of `s` keeps its first 19 and cuts them off what follows. */
  lemma CutTail(s: string, c: nat, head: string)
    requires 19 + c <= |s| && head == s[..|s| - c]
    ensures 19 <= |head| && head[..19] == s[..19] && head[19..] == s[19..][..|s[19..]| - c]
  {
  }

  /**
   Extra text is whatever follows a complete timestamp: cut it off and the
   rest parses, or fails only on its day, which is checked last.
   */
  lemma ExtraTextFollowsTimestamp(s: string, rest: string)
    requires Diagnose(s) == Some(ExtraText(rest))
    ensures AtMostTheDay(Diagnose(s[..|s| - |rest|]))
  {
    ExtraTextReadsSeconds(s, rest);
    var head := s[..|s| - |rest|];
    var day, monthLength := DayRead(s), MonthLengthRead(s);
    CutAfterZone(s, rest, head, day, monthLength);
    HeadDiagnosis(s, head, day, monthLength);
  }

  /** Cutting the extra text off keeps the first 19 characters and leaves a whole zone after them. */
  lemma CutAfterZone(s: string, rest: string, head: string, day: int, monthLength: int)
    requires 19 <= |s| && AfterSeconds(s[19..], day, monthLength) == Some(ExtraText(rest))
    requires head == s[..|s| - |rest|]
    ensures 19 <= |head| && head[..19] == s[..19]
    ensures AtMostTheDay(AfterSeconds(head[19..], day, monthLength))
  {
    CutTail(s, |rest|, head);
    ExtraTextAfterZone(s[19..], day, monthLength, rest, head[19..]);
  }

  /** A text that starts as `s` does and has at most a bad day after its seconds has at most a bad day. */
  lemma HeadDiagnosis(s: string, head: string, day: int, monthLength: int)
    requires ReadsSeconds(s) && day == DayRead(s) && monthLength == MonthLengthRead(s)
    requires 19 <= |head| && head[..19] == s[..19]
    requires AtMostTheDay(AfterSeconds(head[19..], day, monthLength))
    ensures AtMostTheDay(Diagnose(head))
  {
    HeadDecides(s, head);
    WalkToSeconds(head);
  }

  // ---------------------------------------------------------------------------
  // The message
  // ---------------------------------------------------------------------------

  lemma DayDetail()
    ensures Detail(Some(OutOfRange(Day))) == ": day out of range"
  {
  }

  /** A day out of range is all Go's message says: the text, then "day out of range". */
  lemma DayMessage(s: string)
    requires Diagnose(s) == Some(OutOfRange(Day))
    ensures ParseErrorText(s) == Quoted(s) + ": day out of range"
  {
    DayDetail();
  }

  lemma ZoneThenDay(z: string, day: int, monthLength: int)
    requires z == "Z" && !(1 <= day <= monthLength)
    ensures AfterSeconds(z, day, monthLength) == Some(OutOfRange(Day))
  {
    assert !(2 <= |z|);
    assert SplitFraction(z).1 == z;
    assert ZoneLength(z) == Some(1);
  }

  /** The fields of 2024-02-30T00:00:00Z as the walk reads them. */
  lemma February30Fields(s: string)
    requires s == "2024-02-30T00:00:00Z"
    ensures ReadsSeconds(s) && DayRead(s) == 30 && Number2(s, 5) == 2 && Year(s) == 2024
    ensures s[19..] == "Z"
  {
    assert s[0] == '2' && s[1] == '0' && s[2] == '2' && s[3] == '4' && s[4] == '-';
    assert s[5] == '0' && s[6] == '2' && s[7] == '-' && s[8] == '3' && s[9] == '0' && s[10] == 'T';
    assert s[11] == '0' && s[12] == '0' && s[13] == ':' && s[14] == '0' && s[15] == '0' && s[16] == ':';
    assert s[17] == '0' && s[18] == '0' && s[19] == 'Z' && |s| == 20;
  }

  /** February 2024 has no 30th: Go's message names the day and says nothing of the layout. */
  lemma February30(s: string)
    requires s == "2024-02-30T00:00:00Z"
    ensures Diagnose(s) == Some(OutOfRange(Day))
    ensures ParseErrorText(s) == Quoted(s) + ": day out of range"
  {
    February30Fields(s);
    assert MonthLengthRead(s) == DaysIn(2, 2024) == 29;
    WalkToSeconds(s);
    ZoneThenDay(s[19..], 30, 29);
    DayMessage(s);
  }
}
