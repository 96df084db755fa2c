/**
 Version 1 of the JSON-RPC interface: a registry of timetables by resource
 key and the six methods `delay`, `get`, `getAll`, `insert`, `next` and
 `remove`.

 Each method is a function from the registry and the request to a `Reply`
 holding the registry afterwards, the result, the error object and the
 timetable handed to the database, if any. Request parameters are records of
 optional fields; the database's answer to a save is the parameter `save`.
 */
module Api {
  import opened Wrappers
  import Timetables

  type Timetable = Timetables.Timetable
  type Task = Timetables.Task

  /** The timetables the service knows, by resource key. */
  type Registry = map<string, Timetable>

  /** Every timetable is registered under its own key and is well formed. */
  predicate Valid(reg: Registry) {
    forall k | k in reg :: reg[k].key == k && Timetables.WellFormed(reg[k])
  }

  /** `order` is one possible iteration order of the registry. */
  predicate Enumerates(order: seq<string>, reg: Registry) {
    Timetables.Enumerates(order, reg.Keys)
  }

  // ---------------------------------------------------------------------------
  // Errors, results and replies
  // ---------------------------------------------------------------------------

  /** JSON-RPC 2.0 "Invalid params". */
  const InvalidParamsCode: int := -32602
  /** The service's own code for an unknown timetable key. */
  const TimetableNotFoundCode: int := -32002
  /** The server-error code the service uses for timetable and database errors. */
  const ServerErrorCode: int := -32099

  const TimetableNotFoundText: string := "Timetable not found"

  /** The standard message each error object carries with its code. */
  datatype Message = InvalidParamsMsg | TimetableNotFoundMsg | ServerErrorMsg

  datatype RpcError = RpcError(code: int, message: Message, data: Option<string>)

  function InvalidParams(data: string): RpcError {
    RpcError(InvalidParamsCode, InvalidParamsMsg, Some(data))
  }

  const TimetableNotFound: RpcError := RpcError(TimetableNotFoundCode, TimetableNotFoundMsg, None)

  function ServerError(data: string): RpcError {
    RpcError(ServerErrorCode, ServerErrorMsg, Some(data))
  }

  /** The results the methods return. */
  datatype Value =
    | Number(n: int)
    | One(table: Timetable)
    | All(tables: seq<Timetable>)
    | NextTask(task: Option<Task>)

  /** What the database said to a save. */
  datatype SaveOutcome = Saved | SaveFailed(reason: string)

  datatype Reply = Reply(registry: Registry, result: Option<Value>, error: Option<RpcError>, saved: Option<Timetable>)

  /** A reply that reports an error, touches nothing and saves nothing. */
  function Reject(reg: Registry, e: RpcError): Reply {
    Reply(reg, None, Some(e), None)
  }

  /** A reply that returns a value, touches nothing and saves nothing. */
  function Answer(reg: Registry, v: Value): Reply {
    Reply(reg, Some(v), None, None)
  }

  // ---------------------------------------------------------------------------
  // Requests
  // ---------------------------------------------------------------------------

  /** Parameters of `delay` and `get`. */
  datatype KeyParams = KeyParams(key: Option<string>)

  /** Parameters of `insert`; `next` reads the same record and uses only `key`. */
  datatype InsertParams = InsertParams(key: Option<string>, id: Option<string>, runAt: Option<string>)

  /** Parameters of `remove`. */
  datatype RemoveParams = RemoveParams(key: Option<string>, runAt: Option<string>)

  // ---------------------------------------------------------------------------
  // Start-up
  // ---------------------------------------------------------------------------

  /** Registers each fetched timetable under its key, in order, so a later one with the same key wins. */
  function Load(tables: seq<Timetable>): (reg: Registry)
    ensures forall k :: k in reg <==> exists i | 0 <= i < |tables| :: tables[i].key == k
    ensures forall k | k in reg :: reg[k].key == k
    ensures (forall i | 0 <= i < |tables| :: Timetables.WellFormed(tables[i])) ==> Valid(reg)
    decreases |tables|
  {
    if |tables| == 0 then map[]
    else
      var n := |tables| - 1;
      var reg := Load(tables[..n]);
      assert forall i | 0 <= i < n :: tables[..n][i] == tables[i];
      reg[tables[n].key := tables[n]]
  }

  /** Loading one more timetable registers it and leaves every other key as it was. */
  lemma LoadLast(tables: seq<Timetable>, prev: Registry, last: Timetable)
    requires |tables| > 0 && last == tables[|tables| - 1] && prev == Load(tables[..|tables| - 1])
    ensures last.key in Load(tables) && Load(tables)[last.key] == last
    ensures forall k | k in prev && k != last.key :: k in Load(tables) && Load(tables)[k] == prev[k]
  {
  }

  /** The timetable registered under `tables[i].key` is the last one fetched with that key. */
  lemma {:induction false} LoadLastWins(tables: seq<Timetable>, i: int)
    requires 0 <= i < |tables|
    requires forall j | i < j < |tables| :: tables[j].key != tables[i].key
    ensures tables[i].key in Load(tables) && Load(tables)[tables[i].key] == tables[i]
    decreases |tables|
  {
    var n := |tables| - 1;
    var prefix := tables[..n];
    LoadLast(tables, Load(prefix), tables[n]);
    if i < n {
      assert prefix[i] == tables[i];
      assert forall j | i < j < n :: prefix[j] == tables[j];
      LoadLastWins(prefix, i);
    }
  }

  /** Every registered timetable is one of those fetched. */
  lemma {:induction false} LoadFetched(tables: seq<Timetable>, k: string)
    requires k in Load(tables)
    ensures Load(tables)[k] in tables
    decreases |tables|
  {
    var n := |tables| - 1;
    var prefix := tables[..n];
    LoadLast(tables, Load(prefix), tables[n]);
    if k != tables[n].key {
      LoadFetched(prefix, k);
    }
  }

  /**
   Building the service: the fetched timetables are loaded, and a failed fetch
   ends the process, modelled as no registry.
   */
  function Start(fetched: Result<seq<Timetable>, string>): (r: Option<Registry>)
    ensures r.None? <==> fetched.Failure?
    ensures r.Some? ==> forall k :: k in r.value <==> exists i | 0 <= i < |fetched.value| :: fetched.value[i].key == k
  {
    match fetched
    case Failure(_) => None
    case Success(tables) => Some(Load(tables))
  }

  // ---------------------------------------------------------------------------
  // Read-only methods
  // ---------------------------------------------------------------------------

  /** `delay`: minutes until the next task of the timetable under `key`. */
  function Delay(reg: Registry, p: KeyParams, order: seq<string>, now: int): (r: Reply)
    requires p.key.Some? && p.key.value in reg ==> Timetables.Enumerates(order, reg[p.key.value].schedule.Keys)
    ensures r.registry == reg && r.saved.None?
    ensures r.error.None? <==> r.result.Some?
    ensures p.key.None? ==> r.error == Some(InvalidParams("timetable key is required"))
    ensures p.key.Some? && p.key.value !in reg ==> r.error == Some(TimetableNotFound)
    ensures p.key.Some? && p.key.value in reg ==>
      var d := Timetables.Delay(reg[p.key.value], order, now);
      && (d.Success? ==> r.result == Some(Number(d.value)))
      && (d.Failure? ==> r.error == Some(ServerError(Timetables.ErrorText(d.error))))
  {
    match p.key
    case None => Reject(reg, InvalidParams("timetable key is required"))
    case Some(key) =>
      if key !in reg then Reject(reg, TimetableNotFound)
      else
        match Timetables.Delay(reg[key], order, now)
        case Failure(e) => Reject(reg, ServerError(Timetables.ErrorText(e)))
        case Success(minutes) => Answer(reg, Number(minutes))
  }

  /** `get`: the timetable under `key`. */
  function Get(reg: Registry, p: KeyParams): (r: Reply)
    ensures r.registry == reg && r.saved.None?
    ensures r.error.None? <==> p.key.Some? && p.key.value in reg
    ensures r.error.None? ==> r.result == Some(One(reg[p.key.value]))
    ensures p.key.None? ==> r.error == Some(InvalidParams("timetable key is required"))
    ensures p.key.Some? && p.key.value !in reg ==> r.error == Some(TimetableNotFound)
  {
    match p.key
    case None => Reject(reg, InvalidParams("timetable key is required"))
    case Some(key) =>
      if key !in reg then Reject(reg, TimetableNotFound)
      else Answer(reg, One(reg[key]))
  }

  /** `getAll`: every registered timetable, in registry iteration order `order`. */
  function GetAll(reg: Registry, order: seq<string>): (r: Reply)
    requires Enumerates(order, reg)
    ensures r.registry == reg && r.saved.None? && r.error.None?
    ensures r.result.Some? && r.result.value.All?
    ensures |r.result.value.tables| == |reg|
    ensures forall t :: t in r.result.value.tables <==> t in reg.Values
  {
    Timetables.EnumerationLength(order, reg.Keys);
    var tables := seq(|order|, i requires 0 <= i < |order| => reg[order[i]]);
    assert forall t | t in reg.Values :: t in tables by {
      forall t | t in reg.Values ensures t in tables {
        var k :| k in reg && reg[k] == t;
        var i :| 0 <= i < |order| && order[i] == k;
        assert tables[i] == t;
      }
    }
    Answer(reg, All(tables))
  }

  /** In a valid registry every timetable `getAll` returns is the one registered under its own key. */
  lemma GetAllRegistered(reg: Registry, order: seq<string>)
    requires Enumerates(order, reg) && Valid(reg)
    ensures forall t | t in GetAll(reg, order).result.value.tables :: t.key in reg && reg[t.key] == t
  {
    var tables := GetAll(reg, order).result.value.tables;
    forall t | t in tables ensures t.key in reg && reg[t.key] == t {
      var k :| k in reg && reg[k] == t;
    }
  }

  /** `next`: the next task of the timetable under `key`. */
  function Next(reg: Registry, p: InsertParams, order: seq<string>): (r: Reply)
    requires p.key.Some? && p.key.value in reg ==> Timetables.Enumerates(order, reg[p.key.value].schedule.Keys)
    ensures r.registry == reg && r.saved.None?
    ensures r.error.None? <==> p.key.Some? && p.key.value in reg
    ensures r.error.None? ==> r.result == Some(NextTask(Timetables.Next(reg[p.key.value], order)))
    ensures p.key.None? ==> r.error == Some(InvalidParams("task key is required"))
    ensures p.key.Some? && p.key.value !in reg ==> r.error == Some(TimetableNotFound)
  {
    match p.key
    case None => Reject(reg, InvalidParams("task key is required"))
    case Some(key) =>
      if key !in reg then Reject(reg, TimetableNotFound)
      else Answer(reg, NextTask(Timetables.Next(reg[key], order)))
  }

  // ---------------------------------------------------------------------------
  // Mutating methods
  // ---------------------------------------------------------------------------

  /** The timetable `insert` works on: the registered one, or a new empty one. */
  function Current(reg: Registry, key: string): (t: Timetable)
    ensures Valid(reg) ==> t.key == key && Timetables.WellFormed(t)
  {
    if key in reg then reg[key] else Timetables.NewTimetable(key)
  }

  /** The registry with `t` stored under `key` and every other entry as it was. */
  function Register(reg: Registry, key: string, t: Timetable): (r: Registry)
    ensures forall k :: k in r <==> k in reg || k == key
    ensures r[key] == t
    ensures forall k | k in reg && k != key :: r[k] == reg[k]
    ensures Valid(reg) && t.key == key && Timetables.WellFormed(t) ==> Valid(r)
  {
    reg[key := t]
  }

  /**
   The reply once a timetable has changed and been handed to the database:
   0 when it is stored, otherwise the error and `onFailure` as the result.
   */
  function Saving(reg: Registry, t: Timetable, save: SaveOutcome, onFailure: Option<Value>): (r: Reply)
    ensures r.registry == reg && r.saved == Some(t)
    ensures save == Saved ==> r.result == Some(Number(0)) && r.error.None?
    ensures save.SaveFailed? ==> r.result == onFailure && r.error == Some(ServerError(save.reason))
  {
    match save
    case Saved => Reply(reg, Some(Number(0)), None, Some(t))
    case SaveFailed(reason) => Reply(reg, onFailure, Some(ServerError(reason)), Some(t))
  }

  /**
   `insert`: checks `key`, `id` and `runAt` in that order, registers an empty
   timetable for an unseen key, schedules the task and saves the timetable.
   A failed save is reported, but the task stays scheduled in memory.
   */
  function Insert(reg: Registry, p: InsertParams, save: SaveOutcome): (r: Reply)
    ensures p.key.None? ==> r == Reject(reg, InvalidParams("task key is required"))
    ensures p.key.Some? && p.id.None? ==> r == Reject(reg, InvalidParams("task id is required"))
    ensures p.key.Some? && p.id.Some? && p.runAt.None? ==> r == Reject(reg, InvalidParams("task runAt is required"))
    ensures p.key.Some? && p.id.Some? && p.runAt.Some? ==>
      r == InsertTask(reg, p.key.value, p.id.value, p.runAt.value, save)
    ensures Valid(reg) ==> Valid(r.registry)
  {
    if p.key.None? then Reject(reg, InvalidParams("task key is required"))
    else if p.id.None? then Reject(reg, InvalidParams("task id is required"))
    else if p.runAt.None? then Reject(reg, InvalidParams("task runAt is required"))
    else InsertTask(reg, p.key.value, p.id.value, p.runAt.value, save)
  }

  /** `insert` once all three parameters are present. */
  function InsertTask(reg: Registry, key: string, id: string, runAt: string, save: SaveOutcome): (r: Reply)
    ensures forall k :: k in r.registry <==> k in reg || k == key
    ensures forall k | k in reg && k != key :: r.registry[k] == reg[k]
    ensures runAt in Current(reg, key).schedule <==> r.saved.None?
    ensures runAt in Current(reg, key).schedule ==>
      r.registry[key] == Current(reg, key) && r.result.None? && r.error == Some(ServerError("schedule conflict"))
    ensures runAt !in Current(reg, key).schedule ==>
      && r.registry[key].key == Current(reg, key).key
      && r.registry[key].schedule == Current(reg, key).schedule[runAt := Timetables.Task(id, runAt)]
      && r.saved == Some(r.registry[key])
      && (r.result == Some(Number(0)) <==> save == Saved)
      && (save.SaveFailed? ==> r.error == Some(ServerError(save.reason)))
    ensures Valid(reg) ==> Valid(r.registry)
  {
    var before := Current(reg, key);
    var step := Timetables.Insert(before, Timetables.Task(id, runAt));
    var after := Register(reg, key, step.table);
    if step.error.Some? then
      Reply(after, None, Some(ServerError(Timetables.ErrorText(step.error.value))), None)
    else
      Saving(after, step.table, save, None)
  }

  /**
   `remove`: checks `key` and `runAt`, then deletes the task and saves the
   timetable. A task that is not there is answered with -1 and no error, and
   nothing is saved. A failed save answers -1 with an error, but the task
   stays deleted in memory.
   */
  function Remove(reg: Registry, p: RemoveParams, save: SaveOutcome): (r: Reply)
    ensures p.key.None? ==> r == Reject(reg, InvalidParams("task key is required"))
    ensures p.key.Some? && p.runAt.None? ==> r == Reject(reg, InvalidParams("task runAt is required"))
    ensures p.key.Some? && p.runAt.Some? && p.key.value !in reg ==> r == Reject(reg, TimetableNotFound)
    ensures p.key.Some? && p.runAt.Some? && p.key.value in reg ==>
      r == RemoveTask(reg, p.key.value, p.runAt.value, save)
    ensures Valid(reg) ==> Valid(r.registry)
  {
    if p.key.None? then Reject(reg, InvalidParams("task key is required"))
    else if p.runAt.None? then Reject(reg, InvalidParams("task runAt is required"))
    else if p.key.value !in reg then Reject(reg, TimetableNotFound)
    else RemoveTask(reg, p.key.value, p.runAt.value, save)
  }

  /** `remove` once both parameters are present and the timetable exists. */
  function RemoveTask(reg: Registry, key: string, runAt: string, save: SaveOutcome): (r: Reply)
    requires key in reg
    ensures forall k :: k in r.registry <==> k in reg
    ensures forall k | k in reg && k != key :: r.registry[k] == reg[k]
    ensures runAt !in reg[key].schedule ==> r == Answer(reg, Number(-1))
    ensures runAt in reg[key].schedule ==>
      && r.registry[key].key == reg[key].key
      && r.registry[key].schedule == reg[key].schedule - {runAt}
      && r.saved == Some(r.registry[key])
      && (save == Saved ==> r.result == Some(Number(0)) && r.error.None?)
      && (save.SaveFailed? ==> r.result == Some(Number(-1)) && r.error == Some(ServerError(save.reason)))
    ensures Valid(reg) ==> Valid(r.registry)
  {
    var step := Timetables.Remove(reg[key], runAt);
    if step.error.Some? then Answer(reg, Number(-1))
    else Saving(Register(reg, key, step.table), step.table, save, Some(Number(-1)))
  }

  /** After `insert` schedules a task, `get` on that key returns a timetable holding it. */
  lemma InsertThenGet(reg: Registry, key: string, id: string, runAt: string, save: SaveOutcome)
    requires runAt !in Current(reg, key).schedule
    ensures var after := Insert(reg, InsertParams(Some(key), Some(id), Some(runAt)), save).registry;
      var g := Get(after, KeyParams(Some(key)));
      && g.error.None? && g.result.Some? && g.result.value.One?
      && runAt in g.result.value.table.schedule
      && g.result.value.table.schedule[runAt] == Timetables.Task(id, runAt)
  {
  }

  /**
   Removing a task just inserted restores the registry, except that a
   timetable created for an unseen key stays registered, now empty.
   */
  lemma InsertThenRemove(reg: Registry, key: string, id: string, runAt: string, save: SaveOutcome, save': SaveOutcome)
    requires Insert(reg, InsertParams(Some(key), Some(id), Some(runAt)), save).saved.Some?
    ensures var mid := Insert(reg, InsertParams(Some(key), Some(id), Some(runAt)), save).registry;
      Remove(mid, RemoveParams(Some(key), Some(runAt)), save').registry
        == if key in reg then reg else reg[key := Timetables.NewTimetable(key)]
  {
    var mid := InsertTask(reg, key, id, runAt, save).registry;
    TaskRoundTrip(reg, key, id, runAt, save, save');
    var after := RemoveTask(mid, key, runAt, save').registry;
    Restored(reg, key, after);
  }

  /** A registry that differs from `reg` at most by what `insert` registers under `key`. */
  lemma Restored(reg: Registry, key: string, after: Registry)
    requires forall k :: k in after <==> k in reg || k == key
    requires forall k | k in reg && k != key :: after[k] == reg[k]
    requires key in after && after[key] == Current(reg, key)
    ensures after == if key in reg then reg else reg[key := Timetables.NewTimetable(key)]
  {
    var expected := if key in reg then reg else reg[key := Timetables.NewTimetable(key)];
    assert forall k :: k in after <==> k in expected;
    assert forall k | k in after :: after[k] == expected[k];
  }

  lemma TaskRoundTrip(reg: Registry, key: string, id: string, runAt: string, save: SaveOutcome, save': SaveOutcome)
    requires InsertTask(reg, key, id, runAt, save).saved.Some?
    ensures var mid := InsertTask(reg, key, id, runAt, save).registry;
      key in mid && RemoveTask(mid, key, runAt, save').registry[key] == Current(reg, key)
  {
    var before := Current(reg, key);
    var mid := InsertTask(reg, key, id, runAt, save).registry;
    assert mid[key].schedule == before.schedule[runAt := Timetables.Task(id, runAt)];
    var after := RemoveTask(mid, key, runAt, save').registry;
    assert after[key].schedule == before.schedule;
  }
}
