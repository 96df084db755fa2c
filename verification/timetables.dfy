/**
 The per-resource timetable: a key plus a schedule of tasks indexed by the
 literal run-at text each task was inserted with.

 Go's map iteration order is unspecified, so every operation whose result
 depends on it (`List`, `Next`) takes the iteration order as an explicit
 parameter `order` that lists the schedule's keys once each. `Delay` also
 takes one, and is shown not to depend on it.
 */
module Timetables {
  import opened Wrappers
  import opened Lexicographic
  import opened Rfc3339
  import opened Durations
  import ParseErrors

  /** A unit of work: its identifier and the RFC 3339 text of when it should run. */
  datatype Task = Task(id: string, runAt: string)

  /** The tasks scheduled for one resource, keyed on their run-at text. */
  datatype Timetable = Timetable(key: string, schedule: map<string, Task>)

  /** The errors the timetable operations report. */
  datatype Error = Conflict | NotFound | EmptySchedule | TimeParse(input: string)

  /** The text of each error; a parse error reads as Go's `time.ParseError` does. */
  function ErrorText(e: Error): string {
    match e
    case Conflict => "schedule conflict"
    case NotFound => "not found"
    case EmptySchedule => "empty schedule"
    case TimeParse(input) => ParseErrors.ParseErrorText(input)
  }

  /** Every task is stored under its own run-at text. */
  predicate WellFormed(t: Timetable) {
    forall k | k in t.schedule :: t.schedule[k].runAt == k
  }

  /** `order` lists each element of `keys` exactly once: one possible map iteration order. */
  predicate Enumerates(order: seq<string>, keys: set<string>) {
    && (forall i, j | 0 <= i < j < |order| :: order[i] != order[j])
    && (forall k | k in order :: k in keys)
    && (forall k | k in keys :: k in order)
  }

  lemma {:induction false} EnumerationLength(order: seq<string>, keys: set<string>)
    requires Enumerates(order, keys)
    ensures |order| == |keys|
    decreases |order|
  {
    if |order| > 0 {
      var last := order[|order| - 1];
      var rest := order[..|order| - 1];
      assert forall k :: k in rest <==> k in keys - {last} by {
        forall k ensures k in rest <==> k in keys - {last} {
          if k in rest {
            var i :| 0 <= i < |rest| && rest[i] == k;
            assert order[i] == k;
          }
          if k in keys - {last} {
            assert k in order;
            var i :| 0 <= i < |order| && order[i] == k;
            assert i != |order| - 1;
            assert rest[i] == k;
          }
        }
      }
      EnumerationLength(rest, keys - {last});
    }
  }

  // ---------------------------------------------------------------------------
  // Construction and mutation
  // ---------------------------------------------------------------------------

  /** A timetable for resource `key` with nothing scheduled. */
  function NewTimetable(key: string): (t: Timetable)
    ensures t.key == key && |t.schedule| == 0
    ensures WellFormed(t)
  {
    Timetable(key, map[])
  }

  /** The timetable after an operation, and the error the operation returned, if any. */
  datatype Step = Step(table: Timetable, error: Option<Error>)

  /**
   Schedules `task` at its run-at text, unless that exact text is already taken.
   The conflict check compares text, so two spellings of the same instant do
   not conflict.
   */
  function Insert(t: Timetable, task: Task): (r: Step)
    ensures r.error.Some? <==> task.runAt in t.schedule
    ensures r.error.Some? ==> r.error == Some(Conflict) && r.table == t
    ensures r.error.None? ==>
      && r.table.key == t.key
      && r.table.schedule.Keys == t.schedule.Keys + {task.runAt}
      && r.table.schedule[task.runAt] == task
      && (forall k | k in t.schedule :: r.table.schedule[k] == t.schedule[k])
      && |r.table.schedule| == |t.schedule| + 1
    ensures WellFormed(t) ==> WellFormed(r.table)
  {
    if task.runAt in t.schedule then Step(t, Some(Conflict))
    else Step(t.(schedule := t.schedule[task.runAt := task]), None)
  }

  /** Deletes the task scheduled at exactly the text `runAt`. */
  function Remove(t: Timetable, runAt: string): (r: Step)
    ensures r.error.Some? <==> runAt !in t.schedule
    ensures r.error.Some? ==> r.error == Some(NotFound) && r.table == t
    ensures r.error.None? ==>
      && r.table.key == t.key
      && r.table.schedule.Keys == t.schedule.Keys - {runAt}
      && (forall k | k in r.table.schedule :: r.table.schedule[k] == t.schedule[k])
      && |r.table.schedule| == |t.schedule| - 1
    ensures WellFormed(t) ==> WellFormed(r.table)
  {
    if runAt !in t.schedule then Step(t, Some(NotFound))
    else Step(t.(schedule := t.schedule - {runAt}), None)
  }

  /** Removing what was just inserted gives back the original timetable. */
  lemma InsertThenRemove(t: Timetable, task: Task)
    requires Insert(t, task).error.None?
    ensures Remove(Insert(t, task).table, task.runAt) == Step(t, None)
  {
    var s := Remove(Insert(t, task).table, task.runAt).table;
    assert s.schedule == t.schedule;
  }

  /** Re-inserting what was just removed gives back the original timetable. */
  lemma RemoveThenInsert(t: Timetable, runAt: string)
    requires WellFormed(t) && runAt in t.schedule
    ensures Insert(Remove(t, runAt).table, t.schedule[runAt]) == Step(t, None)
  {
    var s := Insert(Remove(t, runAt).table, t.schedule[runAt]).table;
    assert s.schedule == t.schedule;
  }

  // ---------------------------------------------------------------------------
  // Listing
  // ---------------------------------------------------------------------------

  /** The scheduled tasks in map iteration order `order`. */
  function List(t: Timetable, order: seq<string>): (r: seq<Task>)
    requires Enumerates(order, t.schedule.Keys)
    ensures |r| == |t.schedule|
    ensures forall task :: task in r <==> task in t.schedule.Values
    ensures WellFormed(t) ==> forall i, j | 0 <= i < j < |r| :: r[i].runAt != r[j].runAt
  {
    EnumerationLength(order, t.schedule.Keys);
    var r := seq(|order|, i requires 0 <= i < |order| => t.schedule[order[i]]);
    assert forall task :: task in t.schedule.Values ==> task in r by {
      forall task | task in t.schedule.Values ensures task in r {
        var k :| k in t.schedule && t.schedule[k] == task;
        var i :| 0 <= i < |order| && order[i] == k;
        assert r[i] == task;
      }
    }
    r
  }

  // ---------------------------------------------------------------------------
  // Next
  // ---------------------------------------------------------------------------

  /** What `Next` makes of a key: its parsed time, or Go's zero time if it does not parse. */
  function ParseOrZero(s: string): Time {
    match Parse(s)
    case Some(t) => t
    case None => ZeroTime
  }

  /** The instant `Next` compares key `k` by. */
  function At(k: string): int {
    ParseOrZero(k).instant
  }

  /** The instants `Next` compares, one per key. */
  function Instants(keys: seq<string>): (xs: seq<int>)
    ensures |xs| == |keys|
    ensures forall i | 0 <= i < |keys| :: xs[i] == At(keys[i])
  {
    seq(|keys|, i requires 0 <= i < |keys| => At(keys[i]))
  }

  /** Position `b` holds the first of the smallest values among `xs[..n]`. */
  predicate FirstMinimum(xs: seq<int>, n: int, b: int)
    requires 0 <= n <= |xs|
  {
    && 0 <= b < n
    && (forall j | 0 <= j < n :: xs[b] <= xs[j])
    && (forall j | 0 <= j < b :: xs[j] > xs[b])
  }

  /**
   The scan in Go's `Next`: having looked at `xs[..i]` with `best` the
   earliest so far, replace the candidate only when a value is strictly smaller.
   */
  function EarliestFrom(xs: seq<int>, i: int, best: int): (b: int)
    requires 0 <= i <= |xs| && FirstMinimum(xs, i, best)
    ensures FirstMinimum(xs, |xs|, b)
    decreases |xs| - i
  {
    if i == |xs| then best
    else if xs[i] < xs[best] then EarliestFrom(xs, i + 1, i)
    else EarliestFrom(xs, i + 1, best)
  }

  /** The position the scan settles on: the first with the smallest value. */
  function Earliest(xs: seq<int>): (b: int)
    requires |xs| > 0
    ensures FirstMinimum(xs, |xs|, b)
  {
    EarliestFrom(xs, 1, 0)
  }

  /**
   The next task: the earliest key's time is formatted back to RFC 3339 and
   that text is looked up, so the answer is nothing when the text differs
   from every key. On an empty schedule the answer is nothing as well; see
   `NextAsWritten` for what the Go code does there.
   */
  function Next(t: Timetable, order: seq<string>): (r: Option<Task>)
    requires Enumerates(order, t.schedule.Keys)
    ensures |t.schedule| == 0 ==> r.None?
    ensures r.Some? ==> exists k | k in t.schedule :: t.schedule[k] == r.value
    ensures r.Some? <==> |order| > 0 && Format(ParseOrZero(order[Earliest(Instants(order))])) in t.schedule
  {
    EnumerationLength(order, t.schedule.Keys);
    if |order| == 0 then None
    else
      var text := Format(ParseOrZero(order[Earliest(Instants(order))]));
      if text in t.schedule then Some(t.schedule[text]) else None
  }

  /** What the Go `Next` returns: a task or nil, or a nil-pointer dereference. */
  datatype NextOutcome = Found(task: Option<Task>) | NilDereference

  /**
   `Next` exactly as the Go code is written: on an empty schedule the loop
   never sets its candidate, and formatting the nil candidate dereferences it.
   */
  function NextAsWritten(t: Timetable, order: seq<string>): (r: NextOutcome)
    requires Enumerates(order, t.schedule.Keys)
    ensures r == NilDereference <==> |t.schedule| == 0
    ensures r.Found? ==> r.task == Next(t, order)
  {
    EnumerationLength(order, t.schedule.Keys);
    if |order| == 0 then NilDereference else Found(Next(t, order))
  }

  /** On a new timetable the Go code fails where the intended answer is nil. */
  lemma NextOnEmptyDereferencesNil(key: string)
    ensures NextAsWritten(NewTimetable(key), []) == NilDereference
    ensures Next(NewTimetable(key), []) == None
  {
  }

  /** Key `k` is scheduled and no scheduled key is earlier. */
  predicate EarliestKey(t: Timetable, k: string) {
    k in t.schedule && forall k' | k' in t.schedule :: At(k) <= At(k')
  }

  /** The key the scan settles on is scheduled, and no scheduled key is earlier. */
  lemma ScanFindsEarliest(t: Timetable, order: seq<string>)
    requires Enumerates(order, t.schedule.Keys) && |order| > 0
    ensures EarliestKey(t, order[Earliest(Instants(order))])
  {
    var xs := Instants(order);
    var k := order[Earliest(xs)];
    forall k' | k' in t.schedule ensures At(k) <= At(k') {
      var j :| 0 <= j < |order| && order[j] == k';
      assert xs[j] == At(k');
    }
  }

  /** A canonical key is the text its own parsed time formats to. */
  lemma CanonicalText(k: string)
    requires Canonical(k)
    ensures Format(ParseOrZero(k)) == k
  {
  }

  /** When the key the scan settles on formats back to itself, `Next` returns its task. */
  lemma NextFindsKey(t: Timetable, order: seq<string>, k: string)
    requires Enumerates(order, t.schedule.Keys) && |order| > 0
    requires k == order[Earliest(Instants(order))] && k in t.schedule
    requires Format(ParseOrZero(k)) == k
    ensures Next(t, order) == Some(t.schedule[k])
  {
  }

  /**
   When every key is canonical RFC 3339 text, `Next` finds a task and it is
   one scheduled at the earliest instant.
   */
  lemma NextEarliest(t: Timetable, order: seq<string>)
    requires Enumerates(order, t.schedule.Keys) && WellFormed(t)
    requires |t.schedule| > 0
    requires forall k | k in t.schedule :: Canonical(k)
    ensures Next(t, order).Some?
    ensures EarliestKey(t, Next(t, order).value.runAt)
  {
    EnumerationLength(order, t.schedule.Keys);
    var k := order[Earliest(Instants(order))];
    ScanFindsEarliest(t, order);
    CanonicalText(k);
    NextFindsKey(t, order, k);
  }

  /** With canonical keys at distinct instants, `Next` returns the task at the earliest one. */
  lemma NextUnique(t: Timetable, order: seq<string>, k: string)
    requires Enumerates(order, t.schedule.Keys) && WellFormed(t)
    requires forall k | k in t.schedule :: Canonical(k)
    requires k in t.schedule && forall k' | k' in t.schedule && k' != k :: At(k) < At(k')
    ensures Next(t, order) == Some(t.schedule[k])
  {
    NextEarliest(t, order);
  }

  /**
   A single key is found exactly when it is the text its own parsed time
   formats to, which holds for canonical keys.
   */
  lemma NextSingleKey(t: Timetable, order: seq<string>, s: string)
    requires Enumerates(order, t.schedule.Keys) && t.schedule.Keys == {s}
    ensures Next(t, order).Some? <==> Format(ParseOrZero(s)) == s
    ensures Next(t, order).Some? ==> Next(t, order).value == t.schedule[s]
  {
    EnumerationLength(order, t.schedule.Keys);
    assert |order| == 1 && order[0] == s;
    assert Earliest(Instants(order)) == 0;
  }

  /** A single canonical key is always found. */
  lemma NextSingleCanonical(t: Timetable, order: seq<string>, s: string)
    requires Enumerates(order, t.schedule.Keys) && t.schedule.Keys == {s}
    requires Canonical(s)
    ensures Next(t, order) == Some(t.schedule[s])
  {
    CanonicalText(s);
    NextSingleKey(t, order, s);
  }

  /** Text ending in a digit is not what `Format` writes for the zero time, which ends in 'Z'. */
  lemma ZeroTimeText(s: string)
    requires |s| >= 1 && s[|s| - 1] == '0'
    ensures Format(ZeroTime) != s
  {
    FormatZoneSuffix(ZeroTime);
  }

  /** A key ending in "+00:00" or "-00:00" is never the text its own parsed time formats to. */
  lemma ZeroOffsetKeyText(s: string)
    requires |s| >= 6 && (s[|s| - 6..] == "+00:00" || s[|s| - 6..] == "-00:00")
    ensures Format(ParseOrZero(s)) != s
  {
    assert s[|s| - 1] == s[|s| - 6..][5];
    if Parse(s).Some? {
      ZeroOffsetSuffix(s);
      FormatNotEndingInZero(s, Parse(s).value);
    } else {
      ZeroTimeText(s);
    }
  }

  /**
   A key written with offset "+00:00" or "-00:00" is missed: the time it
   parses to is written back with "Z", which is not the key.
   */
  lemma NextMissesZeroOffsetKey(t: Timetable, order: seq<string>, s: string)
    requires Enumerates(order, t.schedule.Keys) && t.schedule.Keys == {s}
    requires |s| >= 6 && (s[|s| - 6..] == "+00:00" || s[|s| - 6..] == "-00:00")
    ensures Next(t, order) == None
  {
    NextSingleKey(t, order, s);
    ZeroOffsetKeyText(s);
  }

  // ---------------------------------------------------------------------------
  // Delay
  // ---------------------------------------------------------------------------

  /**
   Minutes until the next task at clock reading `now` (nanoseconds on the
   same scale as `Time.instant`). The keys are sorted as strings, not as
   times, and only the first is parsed.
   */
  function Delay(t: Timetable, order: seq<string>, now: int): (r: Result<int, Error>)
    requires Enumerates(order, t.schedule.Keys)
    ensures r == Failure(EmptySchedule) <==> |t.schedule| == 0
    ensures forall k | k in t.schedule && IsLeast(k, order) ::
      && (Parse(k).None? <==> r == Failure(TimeParse(k)))
      && (Parse(k).Some? ==> r == Success(ReportedDelay(Sub(Parse(k).value.instant, now))))
    ensures r != Success(1)
  {
    EnumerationLength(order, t.schedule.Keys);
    if |t.schedule| == 0 then Failure(EmptySchedule)
    else
      var first := Least(order);
      forall k | k in t.schedule && IsLeast(k, order) ensures k == first {
        LeastUnique(k, first, order, order);
      }
      match Parse(first)
      case None => Failure(TimeParse(first))
      case Some(tm) => Success(ReportedDelay(Sub(tm.instant, now)))
  }

  /** The map iteration order does not affect `Delay`. */
  lemma DelayOrderIndependent(t: Timetable, order: seq<string>, order': seq<string>, now: int)
    requires Enumerates(order, t.schedule.Keys) && Enumerates(order', t.schedule.Keys)
    ensures Delay(t, order, now) == Delay(t, order', now)
  {
    EnumerationLength(order, t.schedule.Keys);
    if |order| > 0 {
      var m, m' := Least(order), Least(order');
      LeastUnique(m, m', order, order');
    }
  }

  /** With a single key, `Delay` reports on that key whatever it is. */
  /**
   As the clock advances the delay reported for the same timetable never
   grows, and whether a delay is reported at all does not change.
   */
  lemma DelayCountsDown(t: Timetable, order: seq<string>, now: int, now': int)
    requires Enumerates(order, t.schedule.Keys) && now <= now'
    ensures Delay(t, order, now).Success? <==> Delay(t, order, now').Success?
    ensures Delay(t, order, now).Success? ==> Delay(t, order, now').value <= Delay(t, order, now).value
  {
    EnumerationLength(order, t.schedule.Keys);
    if |t.schedule| > 0 {
      var first := Least(order);
      assert first in t.schedule;
      match Parse(first)
      case None =>
      case Some(tm) =>
        SubMonotonic(tm.instant, tm.instant, now', now);
        ReportedDelayMonotonic(Sub(tm.instant, now'), Sub(tm.instant, now));
    }
  }

  lemma DelaySingle(t: Timetable, k: string, now: int)
    requires t.schedule.Keys == {k}
    ensures Parse(k).None? ==> Delay(t, [k], now) == Failure(TimeParse(k))
    ensures Parse(k).Some? ==> Delay(t, [k], now) == Success(ReportedDelay(Sub(Parse(k).value.instant, now)))
  {
    Reflexive(k);
    assert IsLeast(k, [k]);
  }

  /** A new timetable has nothing to report: `Delay` fails and `Next` finds nothing. */
  lemma NewTimetableIsEmpty(key: string, now: int)
    ensures Delay(NewTimetable(key), [], now) == Failure(EmptySchedule)
    ensures Next(NewTimetable(key), []) == None
    ensures List(NewTimetable(key), []) == []
  {
  }
}
