/**
 * The task reducer `handleEvent` (src/components/TaskDashboard.tsx): each
 * event rewrites the task whose id matches, following a fixed transition
 * table, and leaves every other task as it is.
 */
module Reducer {
  import opened Wrappers
  import opened Strings
  import opened TaskModel
  import opened Events

  const StartingDescription: string := "Starting task..."

  /** One row of the transition table, applied to a single task record. */
  function ApplyEvent(t: Task, e: Event): (r: Task)
    ensures SameIdentity(r, t) && r.errorMsg == t.errorMsg
    ensures r.progress == t.progress || r.progress in {0, 25, 50, 100}
    ensures ProgressInRange(t) ==> ProgressInRange(r)
    ensures r.status == t.status
         || (r.status == Running && e.RunStarted?)
         || (r.status == Completed && (e.TextMessageEnd? || e.RunFinished?))
    ensures !Recognised(e) ==> r == t
  {
    match e
    case RunStarted(thread, run) =>
      t.(status := Running, runId := Some(run), threadId := Some(thread),
         progress := 0, description := StartingDescription)
    case TextMessageStart(_, _) =>
      t.(message := Some(""), progress := 25, description := "")
    case TextMessageContent(_, delta) =>
      t.(streamingMessage := Some(t.streamingMessage.GetOr("") + delta),
         description := t.description + delta, progress := 50)
    case TextMessageEnd(_) =>
      t.(message := Some(t.streamingMessage.GetOr("")), streamingMessage := None,
         status := Completed, progress := 100)
    case RunFinished(_, _) =>
      t.(status := Completed, progress := 100)
    case Other(_) =>
      t
  }

  /** `handleEvent(event, taskId)`: the new task list after one event. */
  function HandleEvent(tasks: seq<Task>, e: Event, taskId: string): (r: seq<Task>)
    ensures |r| == |tasks|
    ensures forall i :: 0 <= i < |tasks| ==> SameIdentity(r[i], tasks[i])
    ensures AllInRange(tasks) ==> AllInRange(r)
    ensures forall i :: 0 <= i < |tasks| && tasks[i].id == taskId ==> r[i] == ApplyEvent(tasks[i], e)
    ensures forall i :: 0 <= i < |tasks| && tasks[i].id != taskId ==> r[i] == tasks[i]
  {
    UpdateMatching(tasks, taskId, t => ApplyEvent(t, e))
  }

  /** The events applied in order to one task. */
  function ApplyAll(t: Task, events: seq<Event>): (r: Task)
    ensures SameIdentity(r, t) && r.errorMsg == t.errorMsg
  {
    if events == [] then t else ApplyEvent(ApplyAll(t, events[..|events| - 1]), events[|events| - 1])
  }

  /** The events applied in order to the task list, as successive `handleEvent` calls do. */
  function FoldEvents(tasks: seq<Task>, events: seq<Event>, taskId: string): (r: seq<Task>)
    ensures |r| == |tasks|
    ensures forall i :: 0 <= i < |tasks| ==>
      r[i] == if tasks[i].id == taskId then ApplyAll(tasks[i], events) else tasks[i]
  {
    if events == [] then tasks
    else HandleEvent(FoldEvents(tasks, events[..|events| - 1], taskId), events[|events| - 1], taskId)
  }

  /** Folding two batches one after the other is folding their concatenation. */
  lemma {:induction false} FoldEventsAppend(tasks: seq<Task>, a: seq<Event>, b: seq<Event>, taskId: string)
    ensures FoldEvents(tasks, a + b, taskId) == FoldEvents(FoldEvents(tasks, a, taskId), b, taskId)
    decreases |b|
  {
    if b == [] {
      assert a + b == a;
    } else {
      var b' := b[..|b| - 1];
      assert (a + b)[..|a + b| - 1] == a + b';
      assert (a + b)[|a + b| - 1] == b[|b| - 1];
      FoldEventsAppend(tasks, a, b', taskId);
    }
  }

  /** Events never break the progress bound of any task. */
  lemma {:induction false} FoldKeepsRange(tasks: seq<Task>, events: seq<Event>, taskId: string)
    requires AllInRange(tasks)
    ensures AllInRange(FoldEvents(tasks, events, taskId))
  {
    if events != [] {
      FoldKeepsRange(tasks, events[..|events| - 1], taskId);
    }
  }

  /** An event for an id no task carries leaves the whole list unchanged. */
  lemma UnknownTaskNoOp(tasks: seq<Task>, e: Event, taskId: string)
    requires Unknown(tasks, taskId)
    ensures HandleEvent(tasks, e, taskId) == tasks
  {
  }

  /** An event whose tag is none of the five leaves the whole list unchanged. */
  lemma UnrecognisedEventNoOp(tasks: seq<Task>, tag: string, taskId: string)
    ensures HandleEvent(tasks, Other(tag), taskId) == tasks
  {
  }

  /** RUN_STARTED: running, ids taken from the event, progress 0, the starting text; nothing else changes. */
  lemma RunStartedRow(t: Task, thread: string, run: string)
    ensures var r := ApplyEvent(t, RunStarted(thread, run));
      && r.status == Running && r.runId == Some(run) && r.threadId == Some(thread)
      && r.progress == 0 && r.description == "Starting task..."
      && SameIdentity(r, t) && r.message == t.message
      && r.streamingMessage == t.streamingMessage && r.errorMsg == t.errorMsg
  {
  }

  /** TEXT_MESSAGE_START: message and description emptied, progress 25, status and accumulator kept. */
  lemma MessageStartRow(t: Task, messageId: string, role: string)
    ensures var r := ApplyEvent(t, TextMessageStart(messageId, role));
      && r.message == Some("") && r.description == "" && r.progress == 25
      && r.status == t.status && r.streamingMessage == t.streamingMessage
      && SameIdentity(r, t) && r.errorMsg == t.errorMsg
      && r.runId == t.runId && r.threadId == t.threadId
  {
  }

  /** TEXT_MESSAGE_CONTENT: the delta is appended to the accumulator (absent counts as empty) and to the description. */
  lemma MessageContentRow(t: Task, messageId: string, delta: string)
    ensures var r := ApplyEvent(t, TextMessageContent(messageId, delta));
      && r.streamingMessage == Some(t.streamingMessage.GetOr("") + delta)
      && r.description == t.description + delta && r.progress == 50
      && r.status == t.status && r.message == t.message
      && SameIdentity(r, t) && r.errorMsg == t.errorMsg
      && r.runId == t.runId && r.threadId == t.threadId
  {
  }

  /** TEXT_MESSAGE_END: the accumulator becomes the message and is cleared; completed at 100. */
  lemma MessageEndRow(t: Task, messageId: string)
    ensures var r := ApplyEvent(t, TextMessageEnd(messageId));
      && r.message == Some(t.streamingMessage.GetOr("")) && r.streamingMessage.None?
      && r.status == Completed && r.progress == 100
      && r.description == t.description
      && SameIdentity(r, t) && r.errorMsg == t.errorMsg
      && r.runId == t.runId && r.threadId == t.threadId
  {
  }

  /** RUN_FINISHED: only status (completed) and progress (100) change. */
  lemma RunFinishedRow(t: Task, thread: string, run: string)
    ensures ApplyEvent(t, RunFinished(thread, run)) == t.(status := Completed, progress := 100)
  {
  }

  /** The content events carrying the fragments `deltas` of one message. */
  function Deltas(messageId: string, deltas: seq<string>): (r: seq<Event>)
    ensures |r| == |deltas|
    ensures forall i :: 0 <= i < |deltas| ==> r[i] == TextMessageContent(messageId, deltas[i])
  {
    seq(|deltas|, i requires 0 <= i < |deltas| => TextMessageContent(messageId, deltas[i]))
  }

  /**
   * After a message start and any number of deltas, the accumulator holds
   * what it held before followed by every delta, and the description holds
   * the deltas alone.
   */
  lemma {:induction false} StreamAccumulates(t: Task, messageId: string, role: string, deltas: seq<string>)
    ensures var r := ApplyAll(t, [TextMessageStart(messageId, role)] + Deltas(messageId, deltas));
      && r.streamingMessage == (if deltas == [] then t.streamingMessage
                                else Some(t.streamingMessage.GetOr("") + Concat(deltas)))
      && r.description == Concat(deltas)
      && r.message == Some("")
      && r.progress == (if deltas == [] then 25 else 50)
      && r.status == t.status
      && SameIdentity(r, t)
    decreases |deltas|
  {
    var start := TextMessageStart(messageId, role);
    if deltas == [] {
      assert [start] + Deltas(messageId, deltas) == [start];
      assert [start][..0] == [];
    } else {
      var n := |deltas|;
      var front := deltas[..n - 1];
      StreamAccumulates(t, messageId, role, front);
      var es := [start] + Deltas(messageId, deltas);
      assert es[..|es| - 1] == [start] + Deltas(messageId, front);
      assert es[|es| - 1] == TextMessageContent(messageId, deltas[n - 1]);
      assert Concat(deltas) == Concat(front) + deltas[n - 1];
      var head := t.streamingMessage.GetOr("");
      var prev := ApplyAll(t, [start] + Deltas(messageId, front));
      assert ApplyAll(t, es) == ApplyEvent(prev, TextMessageContent(messageId, deltas[n - 1]));
      if front == [] {
        assert Concat(front) == "";
        assert Concat(deltas) == deltas[n - 1];
        assert prev.streamingMessage == t.streamingMessage;
      } else {
        assert (head + Concat(front)) + deltas[n - 1] == head + Concat(deltas);
      }
    }
  }

  /**
   * A whole message, start, deltas and end: the message is the accumulated
   * text, the accumulator is cleared, and the task is completed at 100.
   */
  lemma MessageCompletes(t: Task, messageId: string, role: string, deltas: seq<string>)
    ensures var r := ApplyAll(t, [TextMessageStart(messageId, role)] + Deltas(messageId, deltas) + [TextMessageEnd(messageId)]);
      && r.message == Some(t.streamingMessage.GetOr("") + Concat(deltas))
      && r.streamingMessage.None?
      && r.status == Completed && r.progress == 100
      && r.description == Concat(deltas)
  {
    var body := [TextMessageStart(messageId, role)] + Deltas(messageId, deltas);
    var es := body + [TextMessageEnd(messageId)];
    assert es[..|es| - 1] == body;
    StreamAccumulates(t, messageId, role, deltas);
    var prev := ApplyAll(t, body);
    assert ApplyAll(t, es) == ApplyEvent(prev, TextMessageEnd(messageId));
    if deltas == [] {
      assert Concat(deltas) == "";
      assert t.streamingMessage.GetOr("") + "" == t.streamingMessage.GetOr("");
    }
  }

  /** START, "hi", " there", END on a task with no open message: completed, 100, message "hi there". */
  lemma HiThereScenario(t: Task)
    requires t.streamingMessage.GetOr("") == ""
    ensures var r := ApplyAll(t, [TextMessageStart("m", "assistant"), TextMessageContent("m", "hi"),
                                  TextMessageContent("m", " there"), TextMessageEnd("m")]);
      && r.status == Completed && r.progress == 100
      && r.message == Some("hi there") && r.streamingMessage.None?
  {
    MessageCompletes(t, "m", "assistant", ["hi", " there"]);
    var d := Deltas("m", ["hi", " there"]);
    assert d == [TextMessageContent("m", "hi"), TextMessageContent("m", " there")];
    assert [TextMessageStart("m", "assistant")] + d + [TextMessageEnd("m")]
        == [TextMessageStart("m", "assistant"), TextMessageContent("m", "hi"),
            TextMessageContent("m", " there"), TextMessageEnd("m")];
    assert Concat(["hi", " there"]) == "hi there" by {
      assert ["hi", " there"][..1] == ["hi"];
      assert ["hi"][..0] == [];
      assert Concat(["hi"]) == "hi";
    }
    assert t.streamingMessage.GetOr("") + "hi there" == "hi there";
  }
}
