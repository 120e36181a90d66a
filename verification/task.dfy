/** The `Task` record of the schedule manager and its text rendering. */
module Tasks {
  import opened Wrappers

  /** An instant with minute resolution. What a date text denotes is decided
      by the parser, not by this model. */
  type Time = int

  /** The manager's date parser for the pattern `yyyy-MM-dd HH:mm`; `None`
      stands for the `ParseException` it throws. */
  type Parser = string -> Option<Time>

  /** The same pattern used to render an instant back to text. */
  type Formatter = Time -> string

  /** One scheduled activity. Nothing relates `startTime` to `endTime`. */
  datatype Task = Task(description: string, startTime: Time, endTime: Time, priority: string)

  /** `Task.toString`: four labelled fields joined by newlines. The text
      opens with the labelled description and closes with the labelled
      priority; `RenderLines` gives the full line structure. */
  function Render(t: Task, format: Formatter): (r: string)
    ensures |r| > |"Description: " + t.description| + |"Priority: " + t.priority|
    ensures r[..|"Description: " + t.description|] == "Description: " + t.description
    ensures r[|r| - |"Priority: " + t.priority|..] == "Priority: " + t.priority
  {
    "Description: " + t.description + "\n" +
    "Start Time: " + format(t.startTime) + "\n" +
    "End Time: " + format(t.endTime) + "\n" +
    "Priority: " + t.priority
  }

  /** The lines a console shows for a text: the pieces between newlines. */
  function SplitLines(s: string): (r: seq<string>)
    ensures |r| >= 1
  {
    if |s| == 0 then [""]
    else
      var rest := SplitLines(s[1..]);
      if s[0] == '\n' then [""] + rest else [[s[0]] + rest[0]] + rest[1..]
  }

  lemma {:induction false} SplitLinesSingle(a: string)
    requires '\n' !in a
    ensures SplitLines(a) == [a]
  {
    if |a| > 0 {
      assert '\n' !in a[1..] by {
        forall k | 0 <= k < |a[1..]| ensures a[1..][k] != '\n' {
          assert a[1..][k] == a[k + 1];
        }
      }
      SplitLinesSingle(a[1..]);
      assert [a[0]] + a[1..] == a;
    }
  }

  lemma {:induction false} SplitLinesJoin(a: string, b: string)
    requires '\n' !in a
    ensures SplitLines(a + "\n" + b) == [a] + SplitLines(b)
  {
    var s := a + "\n" + b;
    if |a| == 0 {
      assert s == "\n" + b;
      assert s[1..] == b;
    } else {
      assert s[1..] == a[1..] + "\n" + b;
      assert '\n' !in a[1..] by {
        forall k | 0 <= k < |a[1..]| ensures a[1..][k] != '\n' {
          assert a[1..][k] == a[k + 1];
        }
      }
      SplitLinesJoin(a[1..], b);
      assert [a[0]] + a[1..] == a;
    }
  }

  /** When no field text contains a newline, the rendering shows exactly
      four lines, one per field, in the order description, start, end,
      priority, each field recoverable verbatim after its label. */
  lemma RenderLines(t: Task, format: Formatter)
    requires '\n' !in t.description && '\n' !in t.priority
    requires '\n' !in format(t.startTime) && '\n' !in format(t.endTime)
    ensures SplitLines(Render(t, format)) ==
      [ "Description: " + t.description,
        "Start Time: " + format(t.startTime),
        "End Time: " + format(t.endTime),
        "Priority: " + t.priority ]
  {
    var a := "Description: " + t.description;
    var b := "Start Time: " + format(t.startTime);
    var c := "End Time: " + format(t.endTime);
    var d := "Priority: " + t.priority;
    assert Render(t, format) == a + "\n" + (b + "\n" + (c + "\n" + d));
    SplitLinesSingle(d);
    SplitLinesJoin(c, d);
    SplitLinesJoin(b, c + "\n" + d);
    SplitLinesJoin(a, b + "\n" + (c + "\n" + d));
  }
}
