/** `TaskManager`: an ordered, in-memory list of tasks with add, remove,
    update and view. Console messages become returned outcomes; the date
    parser and formatter are parameters. */
module TaskManager {
  import opened Wrappers
  import opened Tasks
  import Decimal

  // ---------------------------------------------------------------- add

  datatype AddOutcome = Added | InvalidDate

  datatype AddResult = AddResult(tasks: seq<Task>, outcome: AddOutcome)

  /** `addTask`: all-or-nothing. The task is appended only when both times
      parse; there is no check that the end comes after the start. */
  function AddTask(tasks: seq<Task>, description: string, startText: string,
                   endText: string, priority: string, parse: Parser): (r: AddResult)
    ensures r.outcome == Added <==> parse(startText).Some? && parse(endText).Some?
    ensures r.outcome == Added ==>
      && |r.tasks| == |tasks| + 1
      && r.tasks[..|tasks|] == tasks
      && r.tasks[|tasks|].description == description
      && r.tasks[|tasks|].priority == priority
      && Some(r.tasks[|tasks|].startTime) == parse(startText)
      && Some(r.tasks[|tasks|].endTime) == parse(endText)
    ensures r.outcome == InvalidDate ==> r.tasks == tasks
  {
    match (parse(startText), parse(endText))
    case (Some(start), Some(end)) =>
      AddResult(tasks + [Task(description, start, end, priority)], Added)
    case _ => AddResult(tasks, InvalidDate)
  }

  /** A task whose end precedes its start is accepted like any other. */
  lemma AddAcceptsReversedInterval(tasks: seq<Task>, description: string, startText: string,
                                   endText: string, priority: string, parse: Parser)
    requires parse(startText).Some? && parse(endText).Some?
    requires parse(endText).value < parse(startText).value
    ensures var r := AddTask(tasks, description, startText, endText, priority, parse);
      r.outcome == Added && r.tasks[|tasks|].endTime < r.tasks[|tasks|].startTime
  {
  }

  // ------------------------------------------------------------- remove

  /** `removeTask`: drops every task whose description equals `description`
      exactly; the others stay, with their multiplicity. */
  function RemoveTask(tasks: seq<Task>, description: string): (r: seq<Task>)
    ensures forall t :: multiset(r)[t] == if t.description == description then 0 else multiset(tasks)[t]
    ensures forall t | t in r :: t.description != description
  {
    if |tasks| == 0 then []
    else
      assert tasks == [tasks[0]] + tasks[1..];
      if tasks[0].description == description then RemoveTask(tasks[1..], description)
      else [tasks[0]] + RemoveTask(tasks[1..], description)
  }

  /** Removal works piecewise, so survivors keep their relative order. */
  lemma {:induction false} RemoveTaskAppend(a: seq<Task>, b: seq<Task>, description: string)
    ensures RemoveTask(a + b, description) == RemoveTask(a, description) + RemoveTask(b, description)
  {
    if |a| > 0 {
      assert (a + b)[1..] == a[1..] + b;
      RemoveTaskAppend(a[1..], b, description);
    } else {
      assert a + b == b;
    }
  }

  /** The list is unchanged exactly when no description matches. */
  lemma {:induction false} RemoveTaskUnchanged(tasks: seq<Task>, description: string)
    ensures RemoveTask(tasks, description) == tasks <==>
            forall j | 0 <= j < |tasks| :: tasks[j].description != description
  {
    if forall j | 0 <= j < |tasks| :: tasks[j].description != description {
      if |tasks| > 0 {
        RemoveTaskUnchanged(tasks[1..], description);
        assert tasks == [tasks[0]] + tasks[1..];
      }
    } else {
      var j :| 0 <= j < |tasks| && tasks[j].description == description;
      assert tasks[j] in tasks;
      assert tasks[j] !in RemoveTask(tasks, description);
    }
  }

  /** Removing twice is removing once. */
  lemma RemoveTaskIdempotent(tasks: seq<Task>, description: string)
    ensures RemoveTask(RemoveTask(tasks, description), description) == RemoveTask(tasks, description)
  {
  }

  /** Removing by the description of a freshly added task undoes the add
      (and removes any older namesakes too). */
  lemma RemoveAfterAdd(tasks: seq<Task>, description: string, startText: string,
                       endText: string, priority: string, parse: Parser)
    ensures RemoveTask(AddTask(tasks, description, startText, endText, priority, parse).tasks, description)
            == RemoveTask(tasks, description)
  {
    var r := AddTask(tasks, description, startText, endText, priority, parse);
    if r.outcome == Added {
      var t := r.tasks[|tasks|];
      assert r.tasks == tasks + [t];
      RemoveTaskAppend(tasks, [t], description);
      assert RemoveTask([t], description) == [];
    }
  }

  // ------------------------------------------------------------- update

  /** The four "new value" inputs of `updateTask`; an empty one means "no change". */
  datatype Edits = Edits(description: string, startTime: string, endTime: string, priority: string)

  datatype Edited = Edited(task: Task, startRejected: bool, endRejected: bool)

  datatype UpdateOutcome = NotFound | Updated(startRejected: bool, endRejected: bool)

  datatype UpdateResult = UpdateResult(tasks: seq<Task>, outcome: UpdateOutcome)

  function EditText(current: string, input: string): string {
    if |input| == 0 then current else input
  }

  /** A time field edit: the new instant and whether the text was rejected. */
  function EditTime(current: Time, input: string, parse: Parser): (Time, bool) {
    if |input| == 0 then (current, false)
    else match parse(input)
      case Some(t) => (t, false)
      case None => (current, true)
  }

  /** The body of the matching branch of `updateTask`: each field on its own. */
  function ApplyEdits(t: Task, e: Edits, parse: Parser): (r: Edited)
    ensures |e.description| == 0 ==> r.task.description == t.description
    ensures |e.description| > 0 ==> r.task.description == e.description
    ensures |e.priority| == 0 ==> r.task.priority == t.priority
    ensures |e.priority| > 0 ==> r.task.priority == e.priority
    ensures r.startRejected <==> |e.startTime| > 0 && parse(e.startTime).None?
    ensures r.endRejected <==> |e.endTime| > 0 && parse(e.endTime).None?
    ensures |e.startTime| > 0 && parse(e.startTime).Some? ==> r.task.startTime == parse(e.startTime).value
    ensures |e.startTime| == 0 || parse(e.startTime).None? ==> r.task.startTime == t.startTime
    ensures |e.endTime| > 0 && parse(e.endTime).Some? ==> r.task.endTime == parse(e.endTime).value
    ensures |e.endTime| == 0 || parse(e.endTime).None? ==> r.task.endTime == t.endTime
  {
    var (start, startRejected) := EditTime(t.startTime, e.startTime, parse);
    var (end, endRejected) := EditTime(t.endTime, e.endTime, parse);
    Edited(Task(EditText(t.description, e.description), start, end, EditText(t.priority, e.priority)),
           startRejected, endRejected)
  }

  /** All-empty inputs change nothing and report nothing. */
  lemma ApplyEditsBlank(t: Task, parse: Parser)
    ensures ApplyEdits(t, Edits("", "", "", ""), parse) == Edited(t, false, false)
  {
  }

  /** A start text that fails to parse acts on the task as a blank one would:
      the other three fields are edited as requested; only the report differs. */
  lemma ApplyEditsBadStartIsolated(t: Task, e: Edits, parse: Parser)
    requires parse(e.startTime).None?
    ensures ApplyEdits(t, e, parse).task == ApplyEdits(t, e.(startTime := ""), parse).task
    ensures ApplyEdits(t, e, parse).endRejected == ApplyEdits(t, e.(startTime := ""), parse).endRejected
  {
  }

  /** The same for an end text that fails to parse. */
  lemma ApplyEditsBadEndIsolated(t: Task, e: Edits, parse: Parser)
    requires parse(e.endTime).None?
    ensures ApplyEdits(t, e, parse).task == ApplyEdits(t, e.(endTime := ""), parse).task
    ensures ApplyEdits(t, e, parse).startRejected == ApplyEdits(t, e.(endTime := ""), parse).startRejected
  {
  }

  /** `i` is the lowest index whose description matches. */
  predicate IsFirstMatch(tasks: seq<Task>, description: string, i: int) {
    && 0 <= i < |tasks|
    && tasks[i].description == description
    && forall j | 0 <= j < i :: tasks[j].description != description
  }

  function FirstMatch(tasks: seq<Task>, description: string): (r: Option<nat>)
    ensures r.None? <==> forall j | 0 <= j < |tasks| :: tasks[j].description != description
    ensures r.Some? ==> IsFirstMatch(tasks, description, r.value)
  {
    if |tasks| == 0 then None
    else if tasks[0].description == description then Some(0)
    else match FirstMatch(tasks[1..], description)
      case None => None
      case Some(k) => Some(k + 1)
  }

  /** `updateTask`: edits the first task with the given description and
      nothing else; reports not-found and changes nothing when there is none. */
  function UpdateTask(tasks: seq<Task>, description: string, e: Edits, parse: Parser): (r: UpdateResult)
    ensures r.outcome.NotFound? <==> forall j | 0 <= j < |tasks| :: tasks[j].description != description
    ensures r.outcome.NotFound? ==> r.tasks == tasks
    ensures |r.tasks| == |tasks|
    ensures forall i | IsFirstMatch(tasks, description, i) ::
      var edited := ApplyEdits(tasks[i], e, parse);
      r.tasks[i] == edited.task && r.outcome == Updated(edited.startRejected, edited.endRejected)
    ensures forall j | 0 <= j < |tasks| && !IsFirstMatch(tasks, description, j) :: r.tasks[j] == tasks[j]
  {
    match FirstMatch(tasks, description)
    case None => UpdateResult(tasks, NotFound)
    case Some(i) =>
      var edited := ApplyEdits(tasks[i], e, parse);
      assert forall k | IsFirstMatch(tasks, description, k) :: k == i;
      UpdateResult(tasks[i := edited.task], Updated(edited.startRejected, edited.endRejected))
  }

  /** The Java loop itself: scan in order, edit the first match, return. */
  method UpdateTaskScan(tasks: seq<Task>, description: string, e: Edits, parse: Parser)
    returns (tasks': seq<Task>, outcome: UpdateOutcome)
    ensures UpdateResult(tasks', outcome) == UpdateTask(tasks, description, e, parse)
  {
    var k := 0;
    while k < |tasks|
      invariant 0 <= k <= |tasks|
      invariant forall j | 0 <= j < k :: tasks[j].description != description
    {
      if tasks[k].description == description {
        var edited := ApplyEdits(tasks[k], e, parse);
        assert IsFirstMatch(tasks, description, k);
        return tasks[k := edited.task], Updated(edited.startRejected, edited.endRejected);
      }
      k := k + 1;
    }
    return tasks, NotFound;
  }

  /** All-empty inputs leave the list as it was, whatever matches. */
  lemma UpdateBlankIsNoOp(tasks: seq<Task>, description: string, parse: Parser)
    ensures UpdateTask(tasks, description, Edits("", "", "", ""), parse).tasks == tasks
  {
  }

  // --------------------------------------------------------------- view

  const NoTasksLine := "No tasks available."
  const SeparatorLine := "------------------------------"

  /** The 1-based heading printed before the `n`th task. */
  function Header(n: nat): string {
    "Task " + Decimal.NatToString(n) + ":"
  }

  /** Headings of different tasks differ. */
  lemma HeadersDistinct(m: nat, n: nat)
    requires m != n
    ensures Header(m) != Header(n)
  {
    Decimal.NatToStringInjective(m, n);
    assert Header(m)[5..|Header(m)| - 1] == Decimal.NatToString(m);
    assert Header(n)[5..|Header(n)| - 1] == Decimal.NatToString(n);
  }

  /** What the listing prints for the first `n` tasks: a heading, the
      rendering and a separator for each, in list order. */
  function Entries(tasks: seq<Task>, format: Formatter, n: nat): (r: seq<string>)
    requires n <= |tasks|
    ensures |r| == 3 * n
    ensures forall i | 0 <= i < n ::
      r[3 * i] == Header(i + 1) && r[3 * i + 1] == Render(tasks[i], format) && r[3 * i + 2] == SeparatorLine
  {
    if n == 0 then []
    else Entries(tasks, format, n - 1) + [Header(n), Render(tasks[n - 1], format), SeparatorLine]
  }

  /** `viewTasks`, as the sequence of strings it prints. */
  function Listing(tasks: seq<Task>, format: Formatter): (r: seq<string>)
    ensures |tasks| == 0 ==> r == [NoTasksLine]
    ensures |tasks| > 0 ==> |r| == 3 * |tasks|
    ensures |tasks| > 0 ==> forall i | 0 <= i < |tasks| ::
      r[3 * i] == Header(i + 1) && r[3 * i + 1] == Render(tasks[i], format) && r[3 * i + 2] == SeparatorLine
  {
    if |tasks| == 0 then [NoTasksLine] else Entries(tasks, format, |tasks|)
  }

  /** The printing loop of `viewTasks`. */
  method ViewTasks(tasks: seq<Task>, format: Formatter) returns (lines: seq<string>)
    ensures lines == Listing(tasks, format)
  {
    if |tasks| == 0 {
      return [NoTasksLine];
    }
    lines := [];
    var i := 0;
    while i < |tasks|
      invariant 0 <= i <= |tasks|
      invariant lines == Entries(tasks, format, i)
    {
      lines := lines + [Header(i + 1), Render(tasks[i], format), SeparatorLine];
      i := i + 1;
    }
  }

  /** Entries for a prefix do not look past it. */
  lemma {:induction false} EntriesPrefix(tasks: seq<Task>, more: seq<Task>, format: Formatter, n: nat)
    requires n <= |tasks|
    ensures Entries(tasks + more, format, n) == Entries(tasks, format, n)
  {
    if n > 0 {
      EntriesPrefix(tasks, more, format, n - 1);
      assert (tasks + more)[n - 1] == tasks[n - 1];
    }
  }

  /** After a successful add the listing keeps the old entries and shows the
      new task last, under heading `|tasks| + 1`, with its fields verbatim. */
  lemma AddThenList(tasks: seq<Task>, description: string, startText: string,
                    endText: string, priority: string, parse: Parser, format: Formatter)
    requires parse(startText).Some? && parse(endText).Some?
    ensures var listing := Listing(AddTask(tasks, description, startText, endText, priority, parse).tasks, format);
      && (|tasks| > 0 ==> listing == Listing(tasks, format) + listing[3 * |tasks|..])
      && listing[3 * |tasks|..] ==
         [ Header(|tasks| + 1),
           Render(Task(description, parse(startText).value, parse(endText).value, priority), format),
           SeparatorLine ]
  {
    var t := Task(description, parse(startText).value, parse(endText).value, priority);
    var after := AddTask(tasks, description, startText, endText, priority, parse).tasks;
    assert after == tasks + [t];
    var n := |tasks|;
    EntriesPrefix(tasks, [t], format, n);
    assert after[n] == t;
    assert Listing(after, format) == Entries(tasks, format, n) + [Header(n + 1), Render(t, format), SeparatorLine];
  }

  // ----------------------------------------------------------- scenario

  /** A session: add a task, move its start, remove it; the listing then
      reports that there are no tasks. */
  lemma SpacewalkSession(parse: Parser, format: Formatter)
    requires parse("2025-01-01 09:00") == Some(540)
    requires parse("2025-01-01 10:00") == Some(600)
    requires parse("2025-01-01 11:00") == Some(660)
    ensures var added := AddTask([], "Spacewalk", "2025-01-01 09:00", "2025-01-01 11:00", "High", parse);
      && added.tasks == [Task("Spacewalk", 540, 660, "High")]
      && var updated := UpdateTask(added.tasks, "Spacewalk", Edits("", "2025-01-01 10:00", "", ""), parse);
      && updated.tasks == [Task("Spacewalk", 600, 660, "High")]
      && updated.outcome == Updated(false, false)
      && Listing(RemoveTask(updated.tasks, "Spacewalk"), format) == [NoTasksLine]
  {
  }
}
