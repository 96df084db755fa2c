# cc-timetable in Dafny

A model of the scheduling core of cc-timetable, a small JSON-RPC service
that keeps one timetable of tasks per resource key.

- **Timetable.** A timetable maps the literal RFC 3339 run-at text of each
  task to the task. The Go type offers `Insert`, `Remove`, `List`, `Next`,
  `Delay` and a JSON serialiser and deserialiser.
- **Registry.** The service (`ApiV1`) holds a registry of timetables by key.
  It answers `delay`, `get`, `getAll`, `insert`, `next` and `remove`.

The model is functional. Each timetable operation is a pure function that
returns the new timetable and the error, if any. Each RPC method is a
function from the registry and a request of optional fields to a `Reply`
holding:

- the registry afterwards;
- the result;
- the JSON-RPC error object;
- the timetable handed to the database, if any.

The database's answer to a save is a parameter (`SaveOutcome`), and so is
the timetable list fetched at start-up. The wall clock is a parameter `now`:
an integer count of nanoseconds on the same scale as parsed instants. Go's
map iteration order is unspecified. Every result that depends on it takes the
order as an explicit parameter `order`, which lists each key exactly once.

Modules:

- `Timetables` (timetables.dfy): the timetable and its operations.
- `TimetableJson` (timetable_json.dfy): the stored document and the
  serialiser and deserialiser.
- `Api` (api.dfy): the registry, the start-up load and the six methods.
- `Rfc3339` (rfc3339.dfy): Go's `time.Parse` and `Time.Format` with the
  layout `time.RFC3339`. This is a concrete parser and formatter for the
  `YYYY-MM-DDTHH:MM:SS[.fraction](Z|+hh:mm|-hh:mm)` form of section 5.6 of
  RFC 3339, with the formatter's round trip proved.
- `Calendar`, `Decimal` and `IntDiv` (calendar.dfy, decimal.dfy, intdiv.dfy):
  proleptic Gregorian day numbers, zero-padded decimal fields and division
  that truncates toward zero.
- `ParseErrors` (parse_errors.dfy): the error `time.Parse` returns for text
  the strict reading rejects, from Go's general layout walk. It reports the
  first of a syntax error, a field out of range, or extra text, and checks the
  day against its month last.
- `Durations` (durations.dfy): Go's saturating `Time.Sub` and the minute
  rounding `Delay` applies.
- `Lexicographic` (lexicographic.dfy): the byte order `sort.Strings` uses.
- `Wrappers` (wrappers.dfy): `Option` and `Result`.
- `Scenarios` (scenarios.dfy): the repository's own tests, restated as
  lemmas about the model.

Where the described behaviour and the code differ, the model follows the code:

- **Delay sorts text.** It reports on the lexicographically smallest key,
  not the earliest instant. A task exactly four minutes ahead reports 5,
  because any positive whole-minute count is bumped by one.
- **Wire names.** The stored document names the timetable key and the task
  id `_key`.
- **No validation.** `runAt` is never checked to be a timestamp when a task
  is inserted.
- **The remove tests.** Removal goes by run-at text, so the repository's
  remove tests (which pass a task id) expect outcomes that the code does not
  produce. `Scenarios.TimetableRemoveTest` and `Scenarios.ApiRemoveTest`
  state what the code does instead.

## Model

| member | source | states |
|---|---|---|
| Timetables.NewTimetable | timetable.go:144-147 | A new timetable carries the given key, has nothing scheduled and is well formed. |
| Timetables.Insert | timetable.go:51-59 | A conflict is reported exactly when the run-at text is already a key, and the timetable is then unchanged. Otherwise the key is kept, the keys grow by exactly the run-at text, the task is stored there, every old entry is untouched and the size grows by one. Well-formedness is preserved. |
| Timetables.Remove | timetable.go:86-94 | "not found" is reported exactly when the text is not a key, and the timetable is then unchanged. Otherwise exactly that key is gone, the other entries are untouched and the size shrinks by one. |
| Timetables.InsertThenRemove | timetable.go:51-94 | Removing the run-at text of a task just inserted gives back the original timetable. |
| Timetables.RemoveThenInsert | timetable.go:51-94 | Re-inserting the task just removed from a well-formed timetable gives back the original timetable. |
| Timetables.EnumerationLength | timetable.go:34-37 | Any iteration order of a map lists exactly as many keys as the map holds. |
| Timetables.List | timetable.go:61-68 | The list has one entry per scheduled task, and a task is listed exactly when it is scheduled. In a well-formed timetable no two listed tasks share a run-at text. |
| Timetables.EarliestFrom | timetable.go:73-82 | The scan, which replaces its candidate only on a strictly earlier instant, ends on the first position holding the smallest instant. |
| Timetables.Earliest | timetable.go:72-82 | Over a non-empty key list, the chosen position holds an instant no later than any other, and every earlier position is strictly later. |
| Timetables.Next | timetable.go:70-84 | An empty schedule gives nothing. A task is returned only if it is scheduled. A task is found only when the earliest key's time, formatted back, is itself a key. So a task whose run-at text is written another way than `Format` writes it can be missed although it is scheduled (see `NextMissesZeroOffsetKey`). |
| Timetables.NextAsWritten | timetable.go:71-83 | The Go code as written: it dereferences nil exactly when the schedule is empty, and otherwise agrees with `Next`. |
| Timetables.NextOnEmptyDereferencesNil | timetable.go:72-83 | On a new timetable the code as written dereferences nil, while the corrected `Next` returns nothing. |
| Timetables.ScanFindsEarliest | timetable.go:73-82 | The key the scan settles on is scheduled, and no scheduled key parses to an earlier instant. |
| Timetables.NextFindsKey | timetable.go:83 | When the chosen key formats back to itself, `Next` returns exactly that key's task. |
| Timetables.NextEarliest | timetable.go:70-84 | On a non-empty well-formed timetable whose keys are all canonical, `Next` finds a task, and that task runs at the earliest scheduled instant. |
| Timetables.NextUnique | timetable.go:70-84 | With canonical keys and one strictly earliest key, `Next` returns that key's task. |
| Timetables.NextSingleKey | timetable.go:74-83 | With one key, `Next` finds its task exactly when the key is the text its own parsed time formats to. |
| Timetables.NextSingleCanonical | timetable.go:74-83 | A single canonical key is always found. |
| Timetables.ZeroOffsetKeyText | timetable.go:74-83 | A key ending in "+00:00" or "-00:00" is never the text its own parsed time formats to. |
| Timetables.NextMissesZeroOffsetKey | timetable.go:74-83 | A timetable whose only key is written with offset "+00:00" or "-00:00" gets nothing from `Next`, although a task is scheduled. |
| Timetables.Delay | timetable.go:28-49 | "empty schedule" is reported exactly when nothing is scheduled. For the lexicographically least key, a parse failure is reported exactly when the key does not parse. Otherwise the result is the reported delay of the saturated difference between the key's instant and `now`. The result is never 1. |
| Timetables.DelayOrderIndependent | timetable.go:34-40 | `Delay` gives the same answer for every iteration order of the schedule. |
| Timetables.DelayCountsDown | timetable.go:38-47 | As `now` advances, the delay a timetable reports never grows, and whether a delay is reported does not change. |
| Timetables.DelaySingle | timetable.go:38-48 | With one key, `Delay` reports the parse failure of that key or the reported delay until its instant. |
| Timetables.NewTimetableIsEmpty | timetable.go:144-147 | A new timetable fails `Delay` with "empty schedule", gets nothing from `Next` and lists nothing. |
| Lexicographic.Total | timetable.go:38 | The order `sort.Strings` sorts by relates every pair of strings one way or the other. |
| Lexicographic.Transitive | timetable.go:38 | The sort order is transitive. |
| Lexicographic.Antisymmetric | timetable.go:38 | Two strings that are each at most the other are equal. |
| Lexicographic.Least | timetable.go:34-40 | The first element after sorting is in the list and is at most every element. |
| Lexicographic.LeastUnique | timetable.go:38-40 | Two lists holding the same strings have the same least element, so the key `Delay` parses does not depend on iteration order. |
| IntDiv.Quot | timetable.go:44 | Division truncates toward zero: the remainder has the sign of the dividend and is smaller than the divisor in magnitude. |
| IntDiv.QuotMonotonic | timetable.go:44 | Truncating division by a positive number preserves order. |
| Durations.Sub | timetable.go:44 | The difference of two instants is exact when it fits a signed 64-bit nanosecond count, and is otherwise clamped to the nearer bound. |
| Durations.ReportedDelay | timetable.go:44-47 | A positive report r, always at least 2, covers durations in [r-1, r) minutes. Zero covers exactly the open minute on either side of now. A negative report r covers (r-1, r] minutes. |
| Durations.ReportedDelayMonotonic | timetable.go:44-47 | A later task never reports a shorter delay. |
| Durations.SubMonotonic | timetable.go:44 | The saturating difference never shrinks when the later instant moves later or the earlier one moves earlier. |
| Calendar.FindYear | timetable.go:83 | The search for the year of a day within a 400-year cycle ends on the year whose span holds that day. |
| Calendar.YearOfDay | timetable.go:83 | Every day number falls in a year, at an offset within that year's length. |
| Calendar.CivilFromDays | timetable.go:83 | The date written for a day number is a valid calendar date whose day number is the given one. |
| Calendar.CycleDaysClosedForm | timetable.go:83 | The days before year k of a 400-year cycle are 365 per year plus one per leap year. |
| Rfc3339.FieldPadded | timetable.go:40 | A fixed-width field reads the number n exactly when its text is n zero-padded to the field's width and n lies in range, so reading a field inverts zero-padding. |
| Rfc3339.ParseClock | timetable.go:40 | An accepted date and time is a valid calendar date and time of day with a four-digit year. |
| Rfc3339.ParseZone | timetable.go:40 | An accepted zone is "Z" or a signed "hh:mm", and gives a whole-minute offset under a day. A zero offset written with a sign is "+00:00" or "-00:00". |
| Rfc3339.Parse | timetable.go:40 | Every accepted timestamp has a whole-minute offset strictly within one day. |
| Rfc3339.WallClock | timetable.go:83 | The date and time of day `Format` writes are always valid. |
| ParseErrors.Diagnose | timetable.go:40-42 | Reported extra text is never empty and is shorter than the whole text. |
| ParseErrors.HeadFault | timetable.go:40-42 | Up to the seconds, the walk stops only on a syntax error or on a month, hour, minute or second out of range, never on the day. |
| ParseErrors.AfterSeconds | timetable.go:40-42 | After the seconds, the only range error is the day's, and reported extra text is never empty and is shorter than what follows the seconds. |
| ParseErrors.DiagnosedExactlyWhenRejected | timetable.go:40-42 | `Delay` takes its error path exactly when the strict reading rejects the text: the general walk finds a fault exactly when `Rfc3339.Parse` gives nothing. |
| ParseErrors.ClockChecks | timetable.go:40 | The strict reading accepts the first 19 characters exactly when the walk reads every field of the date and time in range, the day included. |
| ParseErrors.RangeErrorStopsTheWalk | timetable.go:40-42 | A month, hour, minute or second out of range is the error, whatever text follows that field. |
| ParseErrors.DayCheckedLast | timetable.go:40-42 | A text rejected for its day parses once its day is written 01, so the day was the only thing wrong with it. |
| ParseErrors.ExtraTextFollowsTimestamp | timetable.go:40-42 | Cutting the reported extra text off leaves a text that parses, or that fails only on its day. |
| ParseErrors.DayMessage | timetable.go:40-42 | A day error's text is the quoted input followed by ": day out of range", with no layout. |
| ParseErrors.February30 | timetable.go:40-42 | "2024-02-30T00:00:00Z" is rejected for its day, with the text `parsing time "2024-02-30T00:00:00Z": day out of range`. |
| Rfc3339.ParseFormat | timetable.go:74-83 | Parsing what `Format` writes for a whole-second time in years 0 to 9999 gives back the same instant and offset. |
| Rfc3339.FormatIsCanonical | timetable.go:83 | What `Format` writes for such a time is canonical. |
| Rfc3339.FormatZoneSuffix | timetable.go:83 | `Format` ends its text with 'Z' exactly for times in offset zero. |
| Rfc3339.ZeroOffsetNotCanonical | timetable.go:74-83 | Text written with offset "+00:00" or "-00:00" is never canonical. |
| TimetableJson.Marshal | timetable.go:101-122 | The document carries the timetable's key and one element per task. Element i is the task under the i-th key of the iteration order, and a task is written exactly when it is scheduled. |
| TimetableJson.Index | timetable.go:133-140 | Storing the elements keeps every existing key, and adds only keys that some element mentions. |
| TimetableJson.IndexKeeps | timetable.go:133-140 | A key that no element mentions keeps its old task. |
| TimetableJson.IndexLastWins | timetable.go:133-140 | The last element at a given run-at text is the one stored under it. |
| TimetableJson.UnmarshalInto | timetable.go:124-142 | Decoding into an existing timetable replaces its key and keeps it well formed. |
| TimetableJson.Unmarshal | timetable.go:124-142 | Decoding into a fresh timetable gives the document's key and a well-formed schedule. Every key comes from some element, and the last element at each text is the task stored there. |
| TimetableJson.UnmarshalMarshal | timetable.go:101-142 | Decoding what the serialiser wrote gives back the same well-formed timetable, whatever iteration order it was written in. |
| TimetableJson.UnmarshalEmptyArray | timetable.go:127-133 | An empty schedule array gives a new empty timetable. |
| TimetableJson.LaterDuplicateWins | timetable.go:133-140 | Of two elements at the same run-at text, only the later one is kept. |
| Api.Load | api.go:315-318 | A key is registered exactly when some fetched timetable has it, and each registered timetable carries its own key. Well-formed input gives a valid registry. |
| Api.LoadLastWins | api.go:315-318 | The timetable registered under a key is the last one fetched with that key. |
| Api.LoadFetched | api.go:315-318 | Every registered timetable is one of those fetched. |
| Api.Start | api.go:308-318 | A failed fetch gives no service. Otherwise the registry holds exactly the fetched keys. |
| Api.Delay | api.go:44-73 | The registry is never changed and nothing is saved. A result comes exactly when there is no error. A missing key gives "Invalid params" and an unknown key gives -32002. Otherwise the timetable's delay is the result, or its error text (for a parse failure, Go's `ParseError` message) is reported with -32099. |
| Api.Get | api.go:92-114 | The registry is never changed. The timetable is returned exactly when the key is present and registered. Otherwise the error is "Invalid params" (missing key) or -32002 (unknown key). |
| Api.GetAll | api.go:116-123 | The registry is never changed and there is no error. The result lists one timetable per key, and a timetable is listed exactly when it is registered. |
| Api.GetAllRegistered | api.go:116-123 | In a valid registry every listed timetable is the one registered under its own key. |
| Api.Next | api.go:228-249 | The registry is never changed. A missing key gives "Invalid params" ("task key is required") and an unknown key gives -32002. Otherwise the result is the timetable's next task. |
| Api.Current | api.go:178-184 | `insert` works on the registered timetable, or on a new empty one for an unseen key. In a valid registry either carries the requested key and is well formed. |
| Api.Insert | api.go:150-202 | Key, id and runAt are checked in that order. The first missing one is rejected with "Invalid params" and its own message, and the registry is unchanged. Otherwise the request is handled as `InsertTask`. A valid registry stays valid. |
| Api.InsertTask | api.go:178-201 | The key is registered and every other entry is unchanged. A conflict leaves the timetable as it was and saves nothing, with error -32099 "schedule conflict". Otherwise the task is stored at its run-at text and the timetable is saved. The result is 0 exactly when the save succeeds, and a failed save reports -32099 with the task still scheduled. |
| Api.InsertThenGet | api.go:178-201 | After `insert` schedules a task, `get` on that key returns a timetable holding the task at its run-at text. |
| Api.Remove | api.go:265-306 | A missing key or runAt is rejected with "Invalid params", and an unknown key with -32002, in that order and with nothing changed. Otherwise the request is handled as `RemoveTask`. A valid registry stays valid. |
| Api.RemoveTask | api.go:294-305 | An absent run-at text answers -1 with no error, no change and no save. Otherwise exactly that task is deleted and the timetable saved. The result is 0 on success, or -1 with -32099 when the save fails, and the task stays deleted. Other keys are unchanged. |
| Api.InsertThenRemove | api.go:150-306 | Removing a task just inserted restores the registry, except that a timetable created for an unseen key stays registered, now empty. |
| Api.TaskRoundTrip | api.go:178-305 | After inserting and then removing the same run-at text, the timetable under the key is the one `insert` started from. |
| Scenarios.DelayWholeMinutes | timetable.go:44-47 | Exactly four minutes ahead reports 5 and exactly five reports 6. Under a minute either way reports 0, and exactly a minute behind reports -1. |
| Scenarios.TimetableDelayTest | timetable_test.go:10-34 | An empty timetable fails, the key "test" fails to parse, and after removing it, a task a little under five minutes ahead reports 5. |
| Scenarios.TimetableRemoveTest | timetable_test.go:36-50 | Removing "abc123" from a new timetable fails. After inserting a task with id "abc123" and empty run-at text, removing "abc123" still fails, where the test expects success. |
| Scenarios.TimetableInsertTest | timetable_test.go:52-64 | The same run-at text inserted twice is a conflict, and the first task is listed. |
| Scenarios.TimetableListTest | timetable_test.go:66-80 | Two distinct run-at texts list two tasks in any iteration order. |
| Scenarios.TimetableNextTest | timetable_test.go:82-102 | For three canonical keys with the middle one earliest, `Next` returns its task in every iteration order. |
| Scenarios.TimetableMarshalTest | timetable_test.go:118-133 | A two-task timetable is written in one of the two possible orders. |
| Scenarios.TimetableUnmarshalTest | timetable_test.go:135-148 | A one-element document gives that key and exactly that one task. |
| Scenarios.ApiDelayTest | api_test.go:12-26 | Inserting a task about five minutes ahead under a new key answers 0, and `delay` then answers 5. |
| Scenarios.ApiGetTest | api_test.go:28-53 | Inserting into a new key answers 0 with no error, and `get` then returns a timetable carrying that key. |
| Scenarios.ApiNextTest | api_test.go:100-119 | After two inserts under "k3" at canonical texts, `next` returns the task at the earlier one, whatever order the map yields. |
| Scenarios.ApiDelayDayOutOfRange | api.go:44-73 | After a task is inserted at a run-at text whose only fault is its day, `delay` fails with -32099 and the data `parsing time "<text>": day out of range`. |
| Scenarios.ApiGetAllTest | api_test.go:55-86 | Two inserts under new keys register exactly those keys, and `getAll` lists two timetables with those keys. |
| Scenarios.ApiRemoveTest | api_test.go:121-150 | A remove request that carries the task id where runAt belongs is rejected as "task runAt is required", where the test expects -1 and then 0. |

## Left out

- **JSON-RPC plumbing.** `jrpc2.ParseParams`, the `FromPositional` helpers and method registration are out of scope. Requests are records of optional strings, and malformed parameter JSON is not modelled. The library's standard message strings are an enumeration (`Message`).
- **Database and start-up.** `database.go`, `main.go` and `Timetable.Save` (timetable.go:96-99) are not part of this model. A save is the `SaveOutcome` parameter, and the fetched list is the argument of `Api.Start`. `log.Fatal` on a failed fetch is modelled as no registry.
- **Logging and concurrency.** `log` calls and unsynchronised sharing of the maps are out of scope; the model is single-threaded.
- **Wall clock.** `time.Now()` is the parameter `now`.
- Durations.ReportedDelay: `Duration.Minutes()` is modelled as exact division of nanoseconds, truncated toward zero. Go computes it in float64 as `float64(min) + float64(nsec)/6e10` and then truncates with `int(...)`. When the remainder is within half a float64 ulp of the next whole minute, the sum rounds up to that minute. No whole-nanosecond remainder falls in that window below 2^18 minutes (about six months). Past that the window reaches about a nanosecond, growing to just under a microsecond near the int64 limit. Negative durations behave the same way. Inside the window Go reports one minute further from zero than the model.
- **JSON text.** The document is a structured value rather than bytes. The missing string escaping in `MarshalJSON` and the panics of `UnmarshalJSON` on a document of the wrong shape are not modelled.
- **Lenient time parsing.** Go's `time.Parse` also has a slow path, which accepts, for example, a ',' before the fraction. Only the strict `YYYY-MM-DDTHH:MM:SS[.fraction](Z|±hh:mm)` form is modelled; other text is treated as not parsing. Years outside 0 to 9999 in formatted text are not read back.
- Timetables.ErrorText: for a syntax error the text stops after the layout, where Go goes on with `: cannot parse "<text>" as "<element>"`. Range errors, extra text and the day check are given in full (see `ParseErrors`). Go's `quote` escaping of unprintable characters is not applied. Text that Go's general parser reads leniently is diagnosed as a syntax error. This covers a one-digit hour, a ',' before the fraction, and a zone offset with hour 24 or minute 60, all of which Go accepts. It also covers offsets past those, which Go reports as "time zone offset hour out of range" or "time zone offset minute out of range".
- Api.Next: on a registered but empty timetable it answers with no task, using the corrected `Timetables.Next`. The Go service would dereference nil there (see Findings).
- Rfc3339.ParseFormat: proved for whole-second times only. `Format` drops sub-second digits, so other times do not round-trip, as in Go.

## Findings

| source | as written | input that shows it | evidently intended | confidence | as-written member | corrected member |
|---|---|---|---|---|---|---|
| timetable.go:72-83 | `Next` formats its candidate time, which is still nil when the schedule is empty | a new timetable with nothing scheduled | return nil, as timetable_test.go:90 expects | not executed | Timetables.NextAsWritten (shown by Timetables.NextOnEmptyDereferencesNil) | Timetables.Next |
