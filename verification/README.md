# Astronaut schedule manager and weather station, modelled in Dafny

This project models two parts of a small Java repository.

- The schedule manager in `ScheduleManager.java`. A `Task` record holds a
  description, a start time, an end time and a priority. A `TaskManager`
  keeps an ordered list of tasks and offers four operations. `addTask` is
  all-or-nothing. `removeTask` removes every task with the given
  description. `updateTask` edits only the first such task, field by field.
  `viewTasks` prints a numbered listing.
- The observer list of `WeatherStation` in `Main.java`. Observers are
  appended, the first occurrence is removed, and every entry is notified in
  list order.

The model is functional. The task list is a `seq<Task>` and the station is
an immutable `Station` value. Each operation returns the new state together
with what the Java code would print or call:
- `AddOutcome` for add: `Added` or `InvalidDate`.
- `UpdateOutcome` for update: `NotFound`, or `Updated` with one flag per
  rejected date.
- The sequence of strings passed to `println` for view.
- A trace of `Update(observer, temperature)` events for notification.

The date parser and formatter (`SimpleDateFormat` with pattern
`yyyy-MM-dd HH:mm`) are function parameters, `Parser` and `Formatter`.
Nothing is assumed about them. `None` from the parser stands for a
`ParseException`.

Files:
- `wrappers.dfy`: `Option`.
- `decimal.dfy`: Java's decimal printing of the listing number.
- `task.dfy`: `Task` and `toString`.
- `task_manager.dfy`: the four `TaskManager` operations.
- `weather_station.dfy`: `WeatherStation`.

The prompts and the error message (ScheduleManager.java:72, 144, 146) ask
for `YYYY-MM-DD HH:MM`. The parser, however, is a default
`SimpleDateFormat`, which is lenient and accepts trailing text. The model
follows the parser: which texts parse is left to the `Parser` argument.

## Model

| member | source | states |
|---|---|---|
| Decimal.NatToString | ScheduleManager.java:85 | the listing number is printed as at least one decimal digit, with no leading zero when it is positive |
| Decimal.NatToStringRoundTrip | ScheduleManager.java:85 | reading the printed digits back gives the number that was printed |
| Tasks.Render | ScheduleManager.java:53-58 | `toString` opens with `Description: ` and the description verbatim, and closes with `Priority: ` and the priority verbatim |
| Tasks.RenderLines | ScheduleManager.java:53-58 | if no field contains a newline, `toString` shows exactly four lines: description, formatted start, formatted end, priority, each after its label and recoverable verbatim |
| TaskManager.AddTask | ScheduleManager.java:65-74 | the add succeeds exactly when both time texts parse; on success one task is appended with the description and priority verbatim and the parsed times, and the earlier tasks are unchanged; on failure the list is unchanged |
| TaskManager.AddAcceptsReversedInterval | ScheduleManager.java:65-70 | a task whose end parses to an instant before its start is still added: there is no chronological check |
| TaskManager.AddThenList | ScheduleManager.java:65-89 | after a successful add, the listing keeps the old entries as a prefix and ends with heading `Task n+1:`, the new task's rendering and the separator |
| TaskManager.RemoveTask | ScheduleManager.java:76-78 | every task with the given description (exact match) is gone; every other task keeps its multiplicity |
| TaskManager.RemoveTaskAppend | ScheduleManager.java:76-78 | removal from a concatenation is the concatenation of the removals, so the survivors keep their relative order |
| TaskManager.RemoveTaskUnchanged | ScheduleManager.java:76-78 | removal leaves the list unchanged if and only if no task has that description |
| TaskManager.RemoveTaskIdempotent | ScheduleManager.java:76-78 | removing the same description twice is the same as removing it once |
| TaskManager.RemoveAfterAdd | ScheduleManager.java:65-78 | removing by the description of a task just added gives the same list as removing from the list before the add |
| TaskManager.ApplyEdits | ScheduleManager.java:95-116 | an empty new value leaves its field unchanged; a non-empty description or priority replaces the old one verbatim; a time text that parses replaces its time; one that does not parse leaves that time unchanged and is reported |
| TaskManager.ApplyEditsBlank | ScheduleManager.java:95-116 | all-empty new values change nothing and report nothing |
| TaskManager.ApplyEditsBadStartIsolated | ScheduleManager.java:98-105 | an unparseable start text affects the task exactly as a blank one would, so the description, end and priority edits still apply |
| TaskManager.ApplyEditsBadEndIsolated | ScheduleManager.java:106-113 | an unparseable end text affects the task exactly as a blank one would, so the other edits still apply |
| TaskManager.FirstMatch | ScheduleManager.java:93-94 | there is no result if and only if no task matches; otherwise the result is the lowest index whose description matches |
| TaskManager.UpdateTask | ScheduleManager.java:92-121 | not-found is reported if and only if no task matches, and then the list is unchanged; otherwise the length is kept, the task at the first matching index receives the edits with their reports, and every other task is unchanged, later duplicates included |
| TaskManager.UpdateTaskScan | ScheduleManager.java:92-121 | the scanning loop with early return computes the same list and outcome as the first-match definition |
| TaskManager.UpdateBlankIsNoOp | ScheduleManager.java:92-121 | an update with all-empty new values leaves the list unchanged, whether or not a task matches |
| TaskManager.HeadersDistinct | ScheduleManager.java:85 | different task numbers get different headings |
| TaskManager.Entries | ScheduleManager.java:84-88 | for the first n tasks the loop prints 3n strings: for each i, the heading `Task i+1:`, the rendering of task i and the separator |
| TaskManager.Listing | ScheduleManager.java:80-89 | an empty list prints only `No tasks available.`; otherwise 3 strings per task in list order, numbered from 1 |
| TaskManager.ViewTasks | ScheduleManager.java:80-89 | the printing loop produces exactly the listing described above |
| TaskManager.SpacewalkSession | ScheduleManager.java:65-121 | add 09:00 to 11:00, then update the start only to 10:00, changes only the start; removing the task then lists no tasks |
| WeatherStation.NewStation | Main.java:9-10 | a new station has no observers and temperature 0, the default of its `int` field |
| WeatherStation.NewStationNotifiesNobody | Main.java:9-24 | notifying from a fresh station emits no events |
| WeatherStation.AddObserver | Main.java:12-14 | the observer is appended: earlier entries keep their order, the multiset of entries gains exactly one copy of it (duplicates allowed), and the temperature is unchanged |
| WeatherStation.RemoveObserver | Main.java:16-18 | an absent observer leaves the station unchanged; otherwise only the first occurrence is cut out, the rest keep their order, the multiset of entries loses exactly one copy, and the temperature is unchanged |
| WeatherStation.RemoveAfterAdd | Main.java:12-18 | adding an observer that was not registered and then removing it restores the station |
| WeatherStation.Broadcast | Main.java:20-24 | notification produces one event per list entry, in list order, each carrying the given temperature |
| WeatherStation.BroadcastMultiplicity | Main.java:20-24 | an observer that occurs k times in the list (its multiset count) receives exactly k events |
| WeatherStation.AddThenBroadcast | Main.java:12-24 | a newly added observer is notified after all earlier ones |
| WeatherStation.NotifyObservers | Main.java:20-24 | the notification loop leaves the station unchanged and emits the broadcast for the stored temperature |
| WeatherStation.SetTemperature | Main.java:26-29 | the stored temperature becomes t, the observers are unchanged, and every event of the call carries t and goes to the list entry at the same position |

## Left out

- The interactive shell (`ScheduleManager.main`, ScheduleManager.java:124-186) is console I/O. It reads a line, and choices "1" to "5" call add, remove, view, update and exit; any other input prints an invalid-choice message.
- `SimpleDateFormat` internals are not modelled: leniency, time zone, locale and the `Date` value. Parsing and formatting are parameters, so no parse/format round trip is claimed.
- The Java code does not parse the end text when the start text has already failed. The parser here is a pure function, so this has no observable effect and is not modelled.
- `TemperatureDisplay.update` (Main.java:32-37) only prints. Each call to it appears as an `Update` event in the trace.
- `Main.main` (Main.java:40-51) is a demo driver and is not modelled.
- WeatherStation.NotifyObservers: assumes that every observer is non-null, that every `update` call returns normally without re-entering the station, and that observers compare by identity. A null entry would throw a NullPointerException partway through the loop. An observer that removes itself during `update` would make the for-each skip an entry or throw ConcurrentModificationException. An observer class that overrides `equals` could make `removeObserver` cut out a different entry. `TemperatureDisplay`, the only observer in the source, meets all three assumptions.
- samples.java is not part of this model. It is not valid Java, and its classes only print or sum.
- The message texts printed for invalid dates and for a missing task are replaced by the outcome values `InvalidDate`, `Updated(startRejected, endRejected)` and `NotFound`.
