/**
 The stored form of a timetable: a document with the timetable's key under
 `_key` and its tasks as the array `schedule`, each task written as
 `{"_key": id, "runAt": runAt}`. The document is modelled as a structured
 value rather than as JSON text.
 */
module TimetableJson {
  import opened Timetables

  /** One array element: `_key` holds the task id. */
  datatype TaskDoc = TaskDoc(key: string, runAt: string)

  /** The whole document. */
  datatype Doc = Doc(key: string, schedule: seq<TaskDoc>)

  /** How one task is written out. */
  function Wire(task: Task): TaskDoc {
    TaskDoc(task.id, task.runAt)
  }

  /** How one array element is read back. */
  function Read(e: TaskDoc): Task {
    Task(e.key, e.runAt)
  }

  lemma ReadWire(task: Task)
    ensures Read(Wire(task)) == task
  {
  }

  /** The serialiser, writing tasks in map iteration order `order`. */
  function Marshal(t: Timetable, order: seq<string>): (d: Doc)
    requires Enumerates(order, t.schedule.Keys)
    ensures d.key == t.key
    ensures |d.schedule| == |t.schedule|
    ensures forall task :: Wire(task) in d.schedule <==> task in t.schedule.Values
    ensures |d.schedule| == |order|
    ensures forall i | 0 <= i < |order| :: d.schedule[i] == Wire(t.schedule[order[i]])
  {
    EnumerationLength(order, t.schedule.Keys);
    var entries := seq(|order|, i requires 0 <= i < |order| => Wire(t.schedule[order[i]]));
    assert forall task | task in t.schedule.Values :: Wire(task) in entries by {
      forall task | task in t.schedule.Values ensures Wire(task) in entries {
        var k :| k in t.schedule && t.schedule[k] == task;
        var i :| 0 <= i < |order| && order[i] == k;
        assert entries[i] == Wire(task);
      }
    }
    Doc(t.key, entries)
  }

  /** Some element of `entries` is scheduled at `k`. */
  predicate Mentions(entries: seq<TaskDoc>, k: string) {
    exists i | 0 <= i < |entries| :: entries[i].runAt == k
  }

  /** No element after position `i` is scheduled at the same text as element `i`. */
  predicate LastAt(entries: seq<TaskDoc>, i: int)
    requires 0 <= i < |entries|
  {
    forall j | i < j < |entries| :: entries[j].runAt != entries[i].runAt
  }

  /** What the tail of an array mentions, the whole array mentions. */
  lemma MentionsTail(entries: seq<TaskDoc>, k: string)
    requires |entries| > 0 && Mentions(entries[1..], k)
    ensures Mentions(entries, k)
  {
    var i :| 0 <= i < |entries| - 1 && entries[1..][i].runAt == k;
    assert entries[i + 1].runAt == k;
  }

  /**
   The deserialiser's loop: each element is stored under its `runAt`, in array
   order, on top of whatever `schedule` already held.
   */
  function Index(schedule: map<string, Task>, entries: seq<TaskDoc>): (m: map<string, Task>)
    ensures forall k | k in schedule :: k in m
    ensures forall k | k in m :: k in schedule || Mentions(entries, k)
    decreases |entries|
  {
    if |entries| == 0 then schedule
    else
      var rest := entries[1..];
      var m := Index(schedule[entries[0].runAt := Read(entries[0])], rest);
      forall k | Mentions(rest, k) ensures Mentions(entries, k) {
        MentionsTail(entries, k);
      }
      m
  }

  /** Keys the array never mentions keep their old task. */
  lemma {:induction false} IndexKeeps(schedule: map<string, Task>, entries: seq<TaskDoc>, k: string)
    requires k in schedule && !Mentions(entries, k)
    ensures Index(schedule, entries)[k] == schedule[k]
    decreases |entries|
  {
    if |entries| > 0 {
      var rest := entries[1..];
      assert entries[0].runAt != k;
      if Mentions(rest, k) {
        MentionsTail(entries, k);
      }
      IndexKeeps(schedule[entries[0].runAt := Read(entries[0])], rest, k);
    }
  }

  /** The last element at a given text is the one stored under it. */
  lemma {:induction false} IndexLastWins(schedule: map<string, Task>, entries: seq<TaskDoc>, i: int)
    requires 0 <= i < |entries| && LastAt(entries, i)
    ensures entries[i].runAt in Index(schedule, entries)
    ensures Index(schedule, entries)[entries[i].runAt] == Read(entries[i])
    decreases |entries|
  {
    var rest := entries[1..];
    var next := schedule[entries[0].runAt := Read(entries[0])];
    if i == 0 {
      forall j | 0 <= j < |rest| ensures rest[j].runAt != entries[0].runAt {
        assert rest[j] == entries[j + 1];
      }
      IndexKeeps(next, rest, entries[0].runAt);
    } else {
      assert LastAt(rest, i - 1) by {
        forall j | i - 1 < j < |rest| ensures rest[j].runAt != rest[i - 1].runAt {
          assert rest[j] == entries[j + 1];
        }
      }
      IndexLastWins(next, rest, i - 1);
    }
  }

  /** Storing every element under its own `runAt` keeps a schedule well formed. */
  lemma {:induction false} IndexWellFormed(schedule: map<string, Task>, entries: seq<TaskDoc>)
    ensures (forall k | k in schedule :: schedule[k].runAt == k) ==>
      forall k | k in Index(schedule, entries) :: Index(schedule, entries)[k].runAt == k
    decreases |entries|
  {
    if |entries| > 0 {
      IndexWellFormed(schedule[entries[0].runAt := Read(entries[0])], entries[1..]);
    }
  }

  /**
   Go's `UnmarshalJSON` into an existing timetable: the key is replaced and
   the elements are merged into the schedule it already has.
   */
  function UnmarshalInto(t: Timetable, d: Doc): (r: Timetable)
    ensures r.key == d.key
    ensures WellFormed(t) ==> WellFormed(r)
  {
    IndexWellFormed(t.schedule, d.schedule);
    Timetable(d.key, Index(t.schedule, d.schedule))
  }

  /** Decoding into a fresh timetable, whose schedule starts empty. */
  function Unmarshal(d: Doc): (r: Timetable)
    ensures r.key == d.key && WellFormed(r)
    ensures forall k | k in r.schedule :: Mentions(d.schedule, k)
    ensures forall i | 0 <= i < |d.schedule| && LastAt(d.schedule, i) ::
      d.schedule[i].runAt in r.schedule && r.schedule[d.schedule[i].runAt] == Read(d.schedule[i])
  {
    forall i | 0 <= i < |d.schedule| && LastAt(d.schedule, i)
      ensures d.schedule[i].runAt in Index(map[], d.schedule)
      ensures Index(map[], d.schedule)[d.schedule[i].runAt] == Read(d.schedule[i])
    {
      IndexLastWins(map[], d.schedule, i);
    }
    UnmarshalInto(Timetable("", map[]), d)
  }

  /** Elements written in an iteration order of a well-formed schedule each sit at a distinct text. */
  lemma WrittenOnce(t: Timetable, order: seq<string>, entries: seq<TaskDoc>)
    requires Enumerates(order, t.schedule.Keys) && WellFormed(t)
    requires |entries| == |order|
    requires forall i | 0 <= i < |order| :: entries[i] == Wire(t.schedule[order[i]])
    ensures forall i | 0 <= i < |entries| :: entries[i].runAt == order[i] && LastAt(entries, i)
  {
    forall i | 0 <= i < |entries| ensures entries[i].runAt == order[i] && LastAt(entries, i) {
      forall j | i < j < |entries| ensures entries[j].runAt != entries[i].runAt {
        assert entries[j].runAt == order[j];
      }
    }
  }

  /** A schedule that holds each element at its own text and nothing more is the one written. */
  lemma ReadBack(t: Timetable, order: seq<string>, entries: seq<TaskDoc>, m: map<string, Task>)
    requires Enumerates(order, t.schedule.Keys) && WellFormed(t)
    requires |entries| == |order|
    requires forall i | 0 <= i < |order| :: entries[i] == Wire(t.schedule[order[i]])
    requires forall i | 0 <= i < |entries| :: entries[i].runAt == order[i] && LastAt(entries, i)
    requires forall k | k in m :: Mentions(entries, k)
    requires forall i | 0 <= i < |entries| && LastAt(entries, i) ::
      entries[i].runAt in m && m[entries[i].runAt] == Read(entries[i])
    ensures m == t.schedule
  {
    forall k | k in t.schedule ensures k in m && m[k] == t.schedule[k] {
      var i :| 0 <= i < |order| && order[i] == k;
      ReadWire(t.schedule[k]);
    }
    forall k | k in m ensures k in t.schedule {
      var i :| 0 <= i < |entries| && entries[i].runAt == k;
    }
  }

  /**
   Decoding what the serialiser wrote gives back the same timetable, whatever
   order the tasks were written in.
   */
  lemma UnmarshalMarshal(t: Timetable, order: seq<string>)
    requires Enumerates(order, t.schedule.Keys) && WellFormed(t)
    ensures Unmarshal(Marshal(t, order)) == t
  {
    EnumerationLength(order, t.schedule.Keys);
    var d := Marshal(t, order);
    WrittenOnce(t, order, d.schedule);
    ReadBack(t, order, d.schedule, Unmarshal(d).schedule);
  }

  /** An empty array gives an empty timetable. */
  lemma UnmarshalEmptyArray(key: string)
    ensures Unmarshal(Doc(key, [])) == NewTimetable(key)
  {
  }

  /** Of two elements at the same text, the later one is kept. */
  lemma LaterDuplicateWins(key: string, first: TaskDoc, second: TaskDoc)
    requires first.runAt == second.runAt
    ensures Unmarshal(Doc(key, [first, second])).schedule == map[second.runAt := Read(second)]
  {
    var d := Doc(key, [first, second]);
    var r := Unmarshal(d);
    assert LastAt(d.schedule, 1);
    forall k | k in r.schedule ensures k == second.runAt {
      var i :| 0 <= i < 2 && d.schedule[i].runAt == k;
    }
  }
}
