/**
 The repository's own test scenarios, replayed against the model. Clock
 readings are parameters: a test that formats `time.Now()` plus five minutes
 becomes a key whose parsed instant lies a little under five minutes after
 `now`.
 */
module Scenarios {
  import opened Wrappers
  import opened Rfc3339
  import opened Durations
  import opened Timetables
  import opened TimetableJson
  import Api
  import ParseErrors

  /** A timetable holding exactly one task, stored under its own run-at text. */
  function Single(key: string, task: Task): (t: Timetable)
    ensures t.schedule.Keys == {task.runAt} && WellFormed(t)
  {
    Timetable(key, map[task.runAt := task])
  }

  /** Delay on reported values: anything from four to under five minutes ahead reports five. */
  lemma DelayRounding(x: int, now: int)
    requires 4 * Minute <= x - now < 5 * Minute
    ensures ReportedDelay(Sub(x, now)) == 5
  {
  }

  /** A single task a little under five minutes ahead reports five. */
  lemma DelayFiveAhead(t: Timetable, k: string, now: int)
    requires t.schedule.Keys == {k}
    requires Parse(k).Some? && 4 * Minute < Parse(k).value.instant - now < 5 * Minute
    ensures Delay(t, [k], now) == Success(5)
  {
    DelaySingle(t, k, now);
    DelayRounding(Parse(k).value.instant, now);
  }

  /** Exactly four minutes ahead reports five, and exactly five reports six. */
  lemma DelayWholeMinutes()
    ensures ReportedDelay(4 * Minute) == 5
    ensures ReportedDelay(5 * Minute) == 6
    ensures ReportedDelay(Minute - 1) == 0 && ReportedDelay(-Minute + 1) == 0
    ensures ReportedDelay(-Minute) == -1
  {
  }

  /**
   The delay test: an empty timetable fails, a key that is not a timestamp
   fails to parse, and once that task is removed, a task a little under five
   minutes ahead reports five.
   */
  lemma TimetableDelayTest(k: string, now: int)
    requires Parse(k).Some? && 4 * Minute < Parse(k).value.instant - now < 5 * Minute
    ensures Delay(NewTimetable("test"), [], now) == Failure(EmptySchedule)
    ensures var t := Insert(NewTimetable("test"), Task("", "test"));
      t.error.None? && Delay(t.table, ["test"], now) == Failure(TimeParse("test"))
    ensures var t := Insert(NewTimetable("test"), Task("", "test")).table;
      var u := Insert(Remove(t, "test").table, Task("", k));
      u.error.None? && Delay(u.table, [k], now) == Success(5)
  {
    var t := Insert(NewTimetable("test"), Task("", "test")).table;
    assert Parse("test") == None;
    DelaySingle(t, "test", now);
    InsertThenRemove(NewTimetable("test"), Task("", "test"));
    var u := Insert(NewTimetable("test"), Task("", k)).table;
    DelayFiveAhead(u, k, now);
  }

  /**
   The remove test inserts a task with id "abc123" and no run-at text, then
   removes "abc123". Removal goes by run-at text, so the second removal fails
   too, where the test expects it to succeed.
   */
  lemma TimetableRemoveTest()
    ensures Remove(NewTimetable("test"), "abc123").error == Some(NotFound)
    ensures var t := Insert(NewTimetable("test"), Task("abc123", ""));
      t.error.None? && Remove(t.table, "abc123").error == Some(NotFound)
  {
  }

  /** The insert test: the same run-at text twice is a conflict, and the first task is listed. */
  lemma TimetableInsertTest(runAt: string)
    ensures var t := Insert(NewTimetable("test"), Task("", runAt));
      && t.error.None?
      && Insert(t.table, Task("", runAt)) == Step(t.table, Some(Conflict))
      && List(t.table, [runAt])[0].runAt == runAt
  {
    var t := Insert(NewTimetable("test"), Task("", runAt)).table;
    assert t == Single("test", Task("", runAt));
    assert Task("", runAt) in t.schedule.Values;
  }

  /** The list test: two distinct run-at texts list two tasks, whichever order the map yields. */
  lemma TimetableListTest(a: string, b: string, order: seq<string>)
    requires a != b
    ensures var t := Insert(Insert(NewTimetable("test"), Task("", a)).table, Task("", b));
      && t.error.None?
      && (Enumerates(order, t.table.schedule.Keys) ==> |List(t.table, order)| == 2)
  {
    var t := Insert(Insert(NewTimetable("test"), Task("", a)).table, Task("", b)).table;
    assert t.schedule.Keys == {a, b};
  }

  /** The next test's timetable: three tasks, each stored under its own run-at text. */
  function Three(a: string, b: string, c: string): Timetable {
    Timetable("test", map[a := Task("", a), b := Task("", b), c := Task("", c)])
  }

  lemma ThreeTasks(a: string, b: string, c: string, order: seq<string>)
    requires a != b && b != c && a != c
    requires Enumerates(order, {a, b, c})
    ensures Enumerates(order, Three(a, b, c).schedule.Keys) && WellFormed(Three(a, b, c))
    ensures b in Three(a, b, c).schedule && Three(a, b, c).schedule[b] == Task("", b)
  {
  }

  lemma ThreeCanonical(a: string, b: string, c: string)
    requires forall k | k in {a, b, c} :: Canonical(k)
    ensures forall k | k in Three(a, b, c).schedule :: Canonical(k)
  {
  }

  lemma ThreeEarliest(a: string, b: string, c: string)
    requires At(b) < At(a) < At(c)
    ensures forall k | k in Three(a, b, c).schedule && k != b :: At(b) < At(k)
  {
  }

  /**
   The next test: three canonical timestamps three minutes ahead, now and
   five minutes ahead; `Next` returns the one at now, whatever order the map
   yields.
   */
  lemma TimetableNextTest(a: string, b: string, c: string, order: seq<string>)
    requires forall k | k in {a, b, c} :: Canonical(k)
    requires At(b) < At(a) < At(c)
    requires Enumerates(order, {a, b, c})
    ensures Next(Three(a, b, c), order) == Some(Task("", b))
  {
    ThreeTasks(a, b, c, order);
    ThreeCanonical(a, b, c);
    ThreeEarliest(a, b, c);
    NextUnique(Three(a, b, c), order, b);
  }

  /** The marshal test: a two-task timetable is written in one of the two possible orders. */
  lemma TimetableMarshalTest(runAt1: string, runAt2: string, order: seq<string>)
    requires runAt1 != runAt2
    requires Enumerates(order, {runAt1, runAt2})
    ensures var t := Timetable("test", map[runAt1 := Task("123", runAt1), runAt2 := Task("321", runAt2)]);
      var d := Marshal(t, order);
      d.key == "test" &&
      (d.schedule == [TaskDoc("123", runAt1), TaskDoc("321", runAt2)]
       || d.schedule == [TaskDoc("321", runAt2), TaskDoc("123", runAt1)])
  {
    var t := Timetable("test", map[runAt1 := Task("123", runAt1), runAt2 := Task("321", runAt2)]);
    EnumerationLength(order, t.schedule.Keys);
    assert order == [runAt1, runAt2] || order == [runAt2, runAt1] by {
      assert |order| == 2 && order[0] != order[1];
      assert order[0] in {runAt1, runAt2} && order[1] in {runAt1, runAt2};
    }
    var d := Marshal(t, order);
    assert |d.schedule| == 2;
    assert Wire(t.schedule[order[0]]) in d.schedule && Wire(t.schedule[order[1]]) in d.schedule;
  }

  /** The unmarshal test: one element gives that key and that single task. */
  lemma TimetableUnmarshalTest(runAt: string)
    ensures var t := Unmarshal(Doc("test", [TaskDoc("123", runAt)]));
      t.key == "test" && t.schedule == map[runAt := Task("123", runAt)]
  {
    var d := Doc("test", [TaskDoc("123", runAt)]);
    assert LastAt(d.schedule, 0);
    var t := Unmarshal(d);
    forall k | k in t.schedule ensures k == runAt {
      assert Mentions(d.schedule, k);
    }
  }

  /** The service's delay test: insert a task about five minutes ahead into a new key, then ask. */
  lemma ApiDelayTest(k: string, now: int)
    requires Parse(k).Some? && 4 * Minute < Parse(k).value.instant - now < 5 * Minute
    ensures var r := Api.Insert(map[], Api.InsertParams(Some("delay"), Some("abc123"), Some(k)), Api.Saved);
      && r.result == Some(Api.Number(0)) && r.error.None?
      && "delay" in r.registry && r.registry["delay"].schedule.Keys == {k}
      && Api.Delay(r.registry, Api.KeyParams(Some("delay")), [k], now).result == Some(Api.Number(5))
  {
    var r := Api.Insert(map[], Api.InsertParams(Some("delay"), Some("abc123"), Some(k)), Api.Saved);
    var t := r.registry["delay"];
    assert t.schedule == map[k := Task("abc123", k)];
    DelayFiveAhead(t, k, now);
  }

  /** `delay` on a timetable whose one key does not parse reports that key's parse error with -32099. */
  lemma DelayUnparsable(reg: Api.Registry, key: string, k: string, now: int)
    requires key in reg && reg[key].schedule.Keys == {k} && Parse(k).None?
    ensures Api.Delay(reg, Api.KeyParams(Some(key)), [k], now).error == Some(Api.ServerError(ErrorText(TimeParse(k))))
  {
    DelaySingle(reg[key], k, now);
  }

  /**
   A task inserted at a date that does not exist, such as 2024-02-30 (see
   `ParseErrors.February30`), makes `delay` fail with Go's range message as
   the -32099 error data, not a layout mismatch.
   */
  lemma ApiDelayDayOutOfRange(k: string, now: int)
    requires ParseErrors.Diagnose(k) == Some(ParseErrors.OutOfRange(ParseErrors.Day))
    ensures var r := Api.Insert(map[], Api.InsertParams(Some("delay"), Some("abc123"), Some(k)), Api.Saved);
      && r.error.None? && "delay" in r.registry && r.registry["delay"].schedule.Keys == {k}
      && Api.Delay(r.registry, Api.KeyParams(Some("delay")), [k], now).error
        == Some(Api.ServerError(ParseErrors.Quoted(k) + ": day out of range"))
  {
    var r := Api.Insert(map[], Api.InsertParams(Some("delay"), Some("abc123"), Some(k)), Api.Saved);
    InsertedAlone("delay", k, r);
    DelayDayError(r.registry, "delay", k, now);
  }

  /** A timetable whose only run-at text has a bad day answers `delay` with the day's range message. */
  lemma DelayDayError(reg: Api.Registry, key: string, k: string, now: int)
    requires key in reg && reg[key].schedule.Keys == {k}
    requires ParseErrors.Diagnose(k) == Some(ParseErrors.OutOfRange(ParseErrors.Day))
    ensures Api.Delay(reg, Api.KeyParams(Some(key)), [k], now).error
      == Some(Api.ServerError(ParseErrors.Quoted(k) + ": day out of range"))
  {
    DayErrorText(k);
    DelayUnparsable(reg, key, k, now);
  }

  /** A run-at text whose only fault is its day is rejected, and its error text names the day. */
  lemma DayErrorText(k: string)
    requires ParseErrors.Diagnose(k) == Some(ParseErrors.OutOfRange(ParseErrors.Day))
    ensures Parse(k).None? && ErrorText(TimeParse(k)) == ParseErrors.Quoted(k) + ": day out of range"
  {
    ParseErrors.DiagnosedExactlyWhenRejected(k);
    ParseErrors.DayMessage(k);
  }

  /** One insert into an empty registry registers a timetable holding just that run-at text. */
  lemma InsertedAlone(key: string, k: string, r: Api.Reply)
    requires r == Api.Insert(map[], Api.InsertParams(Some(key), Some("abc123"), Some(k)), Api.Saved)
    ensures r.error.None? && key in r.registry && r.registry[key].schedule.Keys == {k}
  {
    assert r.registry[key].schedule == map[k := Task("abc123", k)];
  }

  /** The service's insert and get tests: inserting into a new key answers 0, and `get` returns that key's timetable. */
  lemma ApiGetTest(runAt: string)
    ensures var r := Api.Insert(map[], Api.InsertParams(Some("get"), Some("abc123"), Some(runAt)), Api.Saved);
      && r.result == Some(Api.Number(0)) && r.error.None?
      && var g := Api.Get(r.registry, Api.KeyParams(Some("get")));
        g.error.None? && g.result.Some? && g.result.value.One? && g.result.value.table.key == "get"
  {
  }

  /** The timetable the service's next test builds under "k3". */
  function Two(a: string, b: string): Timetable {
    Timetable("k3", map[a := Task("abc123", a), b := Task("abc123", b)])
  }

  /** Two inserts into "k3" register exactly the timetable `Two(a, b)`. */
  lemma TwoInserts(a: string, b: string)
    requires a != b
    ensures var r1 := Api.Insert(map[], Api.InsertParams(Some("k3"), Some("abc123"), Some(a)), Api.Saved);
      var r2 := Api.Insert(r1.registry, Api.InsertParams(Some("k3"), Some("abc123"), Some(b)), Api.Saved);
      r2.error.None? && "k3" in r2.registry && r2.registry["k3"] == Two(a, b)
  {
    var r1 := Api.Insert(map[], Api.InsertParams(Some("k3"), Some("abc123"), Some(a)), Api.Saved);
    var r2 := Api.Insert(r1.registry, Api.InsertParams(Some("k3"), Some("abc123"), Some(b)), Api.Saved);
    assert r1.registry["k3"].schedule == map[a := Task("abc123", a)];
    assert r2.registry["k3"].schedule == Two(a, b).schedule;
  }

  lemma TwoTasks(a: string, b: string, order: seq<string>)
    requires a != b && Enumerates(order, {a, b})
    ensures Enumerates(order, Two(a, b).schedule.Keys) && WellFormed(Two(a, b))
    ensures a in Two(a, b).schedule && Two(a, b).schedule[a] == Task("abc123", a)
  {
  }

  lemma TwoCanonical(a: string, b: string)
    requires forall k | k in {a, b} :: Canonical(k)
    ensures forall k | k in Two(a, b).schedule :: Canonical(k)
  {
  }

  lemma TwoEarliest(a: string, b: string)
    requires At(a) < At(b)
    ensures forall k | k in Two(a, b).schedule && k != a :: At(a) < At(k)
  {
  }

  /** With canonical keys, `Next` on `Two(a, b)` returns the task at the earlier one. */
  lemma NextOfTwo(a: string, b: string, order: seq<string>)
    requires forall k | k in {a, b} :: Canonical(k)
    requires At(a) < At(b)
    requires Enumerates(order, {a, b})
    ensures Enumerates(order, Two(a, b).schedule.Keys)
    ensures Next(Two(a, b), order) == Some(Task("abc123", a))
  {
    TwoTasks(a, b, order);
    TwoCanonical(a, b);
    TwoEarliest(a, b);
    NextUnique(Two(a, b), order, a);
  }

  /**
   The service's next test: tasks now and five minutes ahead under "k3";
   `next` returns the one now, whatever order the map yields.
   */
  lemma ApiNextTest(a: string, b: string, order: seq<string>)
    requires forall k | k in {a, b} :: Canonical(k)
    requires At(a) < At(b)
    requires Enumerates(order, {a, b})
    ensures var r1 := Api.Insert(map[], Api.InsertParams(Some("k3"), Some("abc123"), Some(a)), Api.Saved);
      var r2 := Api.Insert(r1.registry, Api.InsertParams(Some("k3"), Some("abc123"), Some(b)), Api.Saved);
      && r2.error.None? && "k3" in r2.registry
      && Timetables.Enumerates(order, r2.registry["k3"].schedule.Keys)
      && Api.Next(r2.registry, Api.InsertParams(Some("k3"), None, None), order).result
        == Some(Api.NextTask(Some(Task("abc123", a))))
  {
    TwoInserts(a, b);
    NextOfTwo(a, b, order);
  }

  /**
   The service's remove test passes the task id where `runAt` belongs, so
   the request has no `runAt` and is rejected as invalid, where the test
   expects -1 and then 0.
   */
  lemma ApiRemoveTest(reg: Api.Registry, save: Api.SaveOutcome)
    ensures Api.Remove(reg, Api.RemoveParams(Some("test1"), None), save)
      == Api.Reject(reg, Api.InvalidParams("task runAt is required"))
  {
  }

  /** A valid registry holding just "k1" and "k2" lists two timetables with those keys. */
  lemma TwoTimetables(reg: Api.Registry, order: seq<string>)
    requires Api.Valid(reg) && forall k :: k in reg <==> k == "k1" || k == "k2"
    ensures reg.Keys == {"k1", "k2"}
    ensures Api.Enumerates(order, reg) ==>
      var all := Api.GetAll(reg, order).result.value.tables;
      |all| == 2 && forall i | 0 <= i < 2 :: all[i].key == "k1" || all[i].key == "k2"
  {
    assert reg.Keys == {"k1", "k2"};
    if Api.Enumerates(order, reg) {
      Api.GetAllRegistered(reg, order);
    }
  }

  /** The service's get-all test: two inserts into new keys, and both timetables are listed. */
  lemma ApiGetAllTest(runAt1: string, runAt2: string, order: seq<string>)
    ensures var r1 := Api.Insert(map[], Api.InsertParams(Some("k1"), Some("abc123"), Some(runAt1)), Api.Saved);
      var r2 := Api.Insert(r1.registry, Api.InsertParams(Some("k2"), Some("abc123"), Some(runAt2)), Api.Saved);
      && r2.registry.Keys == {"k1", "k2"}
      && (Api.Enumerates(order, r2.registry) ==>
        var all := Api.GetAll(r2.registry, order).result.value.tables;
        |all| == 2 && forall i | 0 <= i < 2 :: all[i].key == "k1" || all[i].key == "k2")
  {
    var r1 := Api.Insert(map[], Api.InsertParams(Some("k1"), Some("abc123"), Some(runAt1)), Api.Saved);
    var r2 := Api.Insert(r1.registry, Api.InsertParams(Some("k2"), Some("abc123"), Some(runAt2)), Api.Saved);
    TwoTimetables(r2.registry, order);
  }
}
