/**
 * The dashboard's own state (src/components/TaskDashboard.tsx): the task
 * list, the submission of a task with its read loop over the response
 * stream, the error path, and the manual status override the cards use.
 */
module Dashboard {
  import opened Wrappers
  import opened Strings
  import opened TaskModel
  import opened Events
  import opened FrameParser
  import Reducer
  import opened ReadLoop
  import opened TaskGrid
  import opened TaskCard

  const AgentName: string := "TJ's Agent"
  const InitialDescription: string := "Initializing task..."

  /** The record `addTask` creates: running at 0, none of the message fields yet. */
  function NewTask(id: string, name: string, runId: string, threadId: string, startTime: int): (r: Task)
    ensures ProgressInRange(r)
    ensures r.message.None? && r.streamingMessage.None? && r.errorMsg.None?
  {
    Task(id, name, AgentName, Running, 0, startTime, InitialDescription,
         None, None, None, Some(runId), Some(threadId))
  }

  /** How the response stream ended: `done`, or an exception carrying its text. */
  datatype Outcome = EndOfStream | Failure(msg: string)

  /** The `catch` branch: the submitted task becomes an error carrying the message; nothing else changes. */
  function MarkFailed(tasks: seq<Task>, id: string, msg: string): (r: seq<Task>)
    ensures |r| == |tasks|
    ensures forall i :: 0 <= i < |tasks| && tasks[i].id == id ==>
      r[i].status == Error && r[i].errorMsg == Some(msg) && r[i] == tasks[i].(status := r[i].status, errorMsg := r[i].errorMsg)
    ensures forall i :: 0 <= i < |tasks| && tasks[i].id != id ==> r[i] == tasks[i]
    ensures AllInRange(tasks) ==> AllInRange(r)
  {
    UpdateMatching(tasks, id, (t: Task) => t.(status := Error, errorMsg := Some(msg)))
  }

  /** `updateTaskStatus(id, s)`: the matching tasks take status `s`; every other field and task is kept. */
  function SetStatus(tasks: seq<Task>, id: string, s: Status): (r: seq<Task>)
    ensures |r| == |tasks|
    ensures forall i :: 0 <= i < |tasks| && tasks[i].id == id ==>
      r[i].status == s && r[i] == tasks[i].(status := r[i].status)
    ensures forall i :: 0 <= i < |tasks| && tasks[i].id != id ==> r[i] == tasks[i]
    ensures AllInRange(tasks) ==> AllInRange(r)
  {
    UpdateMatching(tasks, id, (t: Task) => t.(status := s))
  }

  /** Setting the same status twice is setting it once. */
  lemma SetStatusIdempotent(tasks: seq<Task>, id: string, s: Status)
    ensures SetStatus(SetStatus(tasks, id, s), id, s) == SetStatus(tasks, id, s)
  {
    var once := SetStatus(tasks, id, s);
    var twice := SetStatus(once, id, s);
    assert forall i :: 0 <= i < |tasks| ==> twice[i] == once[i];
  }

  /** A status override for an id no task carries changes nothing. */
  lemma SetStatusUnknown(tasks: seq<Task>, id: string, s: Status)
    requires Unknown(tasks, id)
    ensures SetStatus(tasks, id, s) == tasks
  {
    UpdateUnknown(tasks, id, (t: Task) => t.(status := s));
  }

  /**
   * A card button followed by the override it requests: the card's task is
   * running again with its error text and messages untouched.
   */
  lemma ActionResumesTask(tasks: seq<Task>, k: nat, a: CardAction)
    requires k < |tasks| && a in Actions(tasks[k])
    ensures var (id, s) := ActionRequest(tasks[k], a);
      && var r := SetStatus(tasks, id, s);
      && r[k] == tasks[k].(status := Running)
      && (tasks[k].status == Error || tasks[k].status == NeedsInput)
  {
    ActionsOffered(tasks[k]);
  }

  /** While a message streams, the card body shows everything streamed so far. */
  lemma DisplayFollowsStream(t: Task, messageId: string, delta: string)
    requires delta != ""
    ensures DisplayText(Reducer.ApplyEvent(t, TextMessageContent(messageId, delta)))
         == t.streamingMessage.GetOr("") + delta
  {
    var acc := t.streamingMessage.GetOr("") + delta;
    assert |acc| >= |delta| > 0;
  }

  /** Once the message ends, the body shows the finished message in place of the accumulator. */
  lemma DisplayAfterEnd(t: Task, messageId: string)
    requires t.streamingMessage.GetOr("") != ""
    ensures DisplayText(Reducer.ApplyEvent(t, TextMessageEnd(messageId))) == t.streamingMessage.value
  {
  }

  /**
   * The whole of `addTask` on values: the new record is appended, every
   * event the read loop delivers is applied for its id, and a failure then
   * marks it as an error.
   */
  function AddTaskSpec(tasks: seq<Task>, name: string, id: string, runId: string, threadId: string,
                       startTime: int, chunks: seq<string>, outcome: Outcome, parse: Parser): (r: seq<Task>)
    ensures |r| == |tasks| + 1
    ensures Unknown(tasks, id) ==> r[..|tasks|] == tasks
    ensures SameIdentity(r[|tasks|], NewTask(id, name, runId, threadId, startTime))
    ensures r[|tasks|].agent == AgentName
    ensures outcome.Failure? ==> r[|tasks|].status == Error && r[|tasks|].errorMsg == Some(outcome.msg)
    ensures outcome.EndOfStream? ==> r[|tasks|].errorMsg.None?
  {
    var appended := tasks + [NewTask(id, name, runId, threadId, startTime)];
    var delivered := Feed(chunks, parse).delivered;
    var fed := Reducer.FoldEvents(appended, delivered, id);
    assert Unknown(tasks, id) ==> fed[..|tasks|] == tasks;
    match outcome
    case EndOfStream => fed
    case Failure(msg) =>
      var r := MarkFailed(fed, id, msg);
      assert Unknown(tasks, id) ==> r[..|tasks|] == tasks;
      r
  }

  /** A submission whose request fails before any chunk arrives: the new task, failed, with its initial text. */
  lemma SubmitFails(tasks: seq<Task>, name: string, id: string, runId: string, threadId: string,
                    startTime: int, msg: string, decode: Decoder)
    ensures var r := AddTaskSpec(tasks, name, id, runId, threadId, startTime, [], Failure(msg), BufferParser(decode));
      && r[|tasks|] == NewTask(id, name, runId, threadId, startTime).(status := Error, errorMsg := Some(msg))
  {
  }

  /** Without a failure, the new record is the initial one with every delivered event applied. */
  lemma AddTaskRecord(tasks: seq<Task>, name: string, id: string, runId: string, threadId: string,
                      startTime: int, chunks: seq<string>, decode: Decoder)
    ensures AddTaskSpec(tasks, name, id, runId, threadId, startTime, chunks, EndOfStream, BufferParser(decode))[|tasks|]
         == Reducer.ApplyAll(NewTask(id, name, runId, threadId, startTime), Feed(chunks, BufferParser(decode)).delivered)
  {
    var appended := tasks + [NewTask(id, name, runId, threadId, startTime)];
    assert appended[|tasks|] == NewTask(id, name, runId, threadId, startTime);
  }

  /**
   * A whole run, started, one message streamed and ended, then finished:
   * completed at 100, carrying the run's ids and the accumulated text.
   */
  lemma RunLifecycle(t: Task, threadId: string, runId: string, messageId: string, role: string, deltas: seq<string>)
    ensures var r := Reducer.ApplyAll(t, [RunStarted(threadId, runId), TextMessageStart(messageId, role)]
                                         + Reducer.Deltas(messageId, deltas)
                                         + [TextMessageEnd(messageId), RunFinished(threadId, runId)]);
      && r.status == Completed && r.progress == 100
      && r.message == Some(t.streamingMessage.GetOr("") + Concat(deltas)) && r.streamingMessage.None?
      && r.runId == Some(runId) && r.threadId == Some(threadId)
  {
    var run := [RunStarted(threadId, runId)];
    var body := [TextMessageStart(messageId, role)] + Reducer.Deltas(messageId, deltas) + [TextMessageEnd(messageId)];
    var fin := RunFinished(threadId, runId);
    assert [RunStarted(threadId, runId), TextMessageStart(messageId, role)]
         + Reducer.Deltas(messageId, deltas)
         + [TextMessageEnd(messageId), fin]
        == (run + body) + [fin];
    var started := Reducer.ApplyEvent(t, RunStarted(threadId, runId));
    assert Reducer.ApplyAll(t, run) == started by {
      assert run[..0] == [];
    }
    ApplyAllAppend(t, run, body);
    Reducer.MessageCompletes(started, messageId, role, deltas);
    ApplyAllKeepsIds(started, body);
    ApplyAllSnoc(t, run + body, fin);
  }

  /** Applying one more event is one more reduction step. */
  lemma ApplyAllSnoc(t: Task, es: seq<Event>, e: Event)
    ensures Reducer.ApplyAll(t, es + [e]) == Reducer.ApplyEvent(Reducer.ApplyAll(t, es), e)
  {
    assert (es + [e])[..|es + [e]| - 1] == es;
  }

  /** A submission whose stream delivers one whole run ends with the new task completed and its message shown. */
  lemma SubmitCompletes(tasks: seq<Task>, name: string, id: string, runId: string, threadId: string,
                        startTime: int, chunks: seq<string>, decode: Decoder,
                        messageId: string, role: string, deltas: seq<string>)
    requires Feed(chunks, BufferParser(decode)).delivered
          == [RunStarted(threadId, runId), TextMessageStart(messageId, role)]
           + Reducer.Deltas(messageId, deltas)
           + [TextMessageEnd(messageId), RunFinished(threadId, runId)]
    ensures var t := AddTaskSpec(tasks, name, id, runId, threadId, startTime, chunks, EndOfStream, BufferParser(decode))[|tasks|];
      && t.status == Completed && t.progress == 100
      && t.message == Some(Concat(deltas)) && t.streamingMessage.None?
      && t.runId == Some(runId) && t.threadId == Some(threadId)
  {
    AddTaskRecord(tasks, name, id, runId, threadId, startTime, chunks, decode);
    RunLifecycle(NewTask(id, name, runId, threadId, startTime), threadId, runId, messageId, role, deltas);
    assert "" + Concat(deltas) == Concat(deltas);
  }

  /** Applying two batches one after the other is applying their concatenation. */
  lemma {:induction false} ApplyAllAppend(t: Task, a: seq<Event>, b: seq<Event>)
    ensures Reducer.ApplyAll(t, a + b) == Reducer.ApplyAll(Reducer.ApplyAll(t, a), b)
    decreases |b|
  {
    if b == [] {
      assert a + b == a;
    } else {
      var b' := b[..|b| - 1];
      assert (a + b)[..|a + b| - 1] == a + b';
      ApplyAllAppend(t, a, b');
    }
  }

  /** Message events leave the run ids alone. */
  lemma {:induction false} ApplyAllKeepsIds(t: Task, events: seq<Event>)
    requires forall i :: 0 <= i < |events| ==> !events[i].RunStarted?
    ensures Reducer.ApplyAll(t, events).runId == t.runId
    ensures Reducer.ApplyAll(t, events).threadId == t.threadId
  {
    if events != [] {
      ApplyAllKeepsIds(t, events[..|events| - 1]);
    }
  }

  /**
   * The dashboard component: the task list it renders and the buffer parser
   * its streams use, `parseSSEBuffer` with the JSON decoder. The methods
   * hold for any parser.
   */
  class Dashboard {
    const parse: Parser
    var tasks: seq<Task>

    ghost predicate Valid()
      reads this
    {
      AllInRange(tasks)
    }

    constructor (decode: Decoder)
      ensures parse == BufferParser(decode) && tasks == [] && Valid()
    {
      parse := BufferParser(decode);
      tasks := [];
    }

    /** The header's active-task count: zero exactly when no task is running. */
    function ActiveTaskCount(): (n: nat)
      reads this
      ensures n <= |tasks|
      ensures n == 0 <==> forall i :: 0 <= i < |tasks| ==> tasks[i].status != Running
    {
      TasksByStatusEmpty(tasks, Running);
      |TasksByStatus(tasks, Running)|
    }

    /** `handleEvent(event, taskId)` applied to the state. */
    method HandleEvent(e: Event, taskId: string)
      requires Valid()
      modifies this
      ensures Valid()
      ensures tasks == Reducer.HandleEvent(old(tasks), e, taskId)
    {
      tasks := Reducer.HandleEvent(tasks, e, taskId);
    }

    /** `events.forEach(event => handleEvent(event, taskId))`: the events in order. */
    method HandleAll(events: seq<Event>, taskId: string)
      requires Valid()
      modifies this
      ensures Valid()
      ensures tasks == Reducer.FoldEvents(old(tasks), events, taskId)
    {
      for i := 0 to |events|
        invariant Valid()
        invariant tasks == Reducer.FoldEvents(old(tasks), events[..i], taskId)
      {
        HandleEvent(events[i], taskId);
        assert events[..i + 1][..i] == events[..i];
      }
      assert events[..|events|] == events;
    }

    /** `updateTaskStatus(taskId, status)` applied to the state. */
    method UpdateStatus(taskId: string, s: Status)
      requires Valid()
      modifies this
      ensures Valid()
      ensures tasks == SetStatus(old(tasks), taskId, s)
    {
      tasks := SetStatus(tasks, taskId, s);
    }

    /** The `catch` branch of `addTask` applied to the state. */
    method Fail(taskId: string, msg: string)
      requires Valid()
      modifies this
      ensures Valid()
      ensures tasks == MarkFailed(old(tasks), taskId, msg)
    {
      tasks := MarkFailed(tasks, taskId, msg);
    }

    /** The start of `addTask`: the new record is appended and a stream with an empty buffer is opened for it. */
    method Submit(name: string, id: string, runId: string, threadId: string, startTime: int)
      returns (stream: RunStream)
      requires Valid()
      modifies this
      ensures Valid()
      ensures tasks == old(tasks) + [NewTask(id, name, runId, threadId, startTime)]
      ensures fresh(stream) && stream.dash == this && stream.taskId == id
      ensures stream.buffer == "" && stream.received == [] && stream.Valid()
    {
      tasks := tasks + [NewTask(id, name, runId, threadId, startTime)];
      stream := new RunStream(this, id);
    }

    /** `addTask`: submit, read every chunk, and on failure mark the task as an error. */
    method AddTask(name: string, id: string, runId: string, threadId: string, startTime: int,
                   chunks: seq<string>, outcome: Outcome)
      requires Valid()
      modifies this
      ensures Valid()
      ensures tasks == AddTaskSpec(old(tasks), name, id, runId, threadId, startTime, chunks, outcome, parse)
    {
      var stream := Submit(name, id, runId, threadId, startTime);
      stream.ReadAll(chunks);
      if outcome.Failure? {
        Fail(id, outcome.msg);
      }
    }
  }

  /**
   * The read loop of one submission: the text received but not yet turned
   * into events. The chunks received so far are kept as a ghost record.
   */
  class RunStream {
    const dash: Dashboard
    const taskId: string
    var buffer: string
    ghost var received: seq<string>

    ghost predicate Valid()
      reads this
    {
      buffer == Feed(received, dash.parse).rest
    }

    constructor (dash: Dashboard, taskId: string)
      ensures this.dash == dash && this.taskId == taskId
      ensures buffer == "" && received == [] && Valid()
    {
      this.dash := dash;
      this.taskId := taskId;
      buffer := "";
      received := [];
    }

    /**
     * The `while (true)` loop of `addTask` over the chunks of a fresh
     * stream: the events every chunk releases are applied in order.
     */
    method ReadAll(chunks: seq<string>)
      requires Valid() && dash.Valid() && received == []
      modifies this, dash
      ensures Valid() && dash.Valid() && received == chunks
      ensures dash.tasks == Reducer.FoldEvents(old(dash.tasks), Feed(chunks, dash.parse).delivered, taskId)
    {
      var i := 0;
      while i < |chunks|
        invariant 0 <= i <= |chunks|
        invariant Valid() && dash.Valid()
        invariant received == chunks[..i]
        invariant dash.tasks == Reducer.FoldEvents(old(dash.tasks), Feed(chunks[..i], dash.parse).delivered, taskId)
      {
        assert chunks[..i + 1] == chunks[..i] + [chunks[i]];
        ghost var before := Feed(chunks[..i], dash.parse).delivered;
        var events := FeedChunk(chunks[i]);
        Reducer.FoldEventsAppend(old(dash.tasks), before, events, taskId);
        i := i + 1;
      }
      assert chunks[..i] == chunks;
    }

    /**
     * One turn of the loop: the chunk is appended, the whole buffer is
     * parsed, and if any event came out each is handed to the reducer in
     * order and the buffer is emptied.
     */
    method FeedChunk(chunk: string) returns (events: seq<Event>)
      requires Valid() && dash.Valid()
      modifies this, dash
      ensures Valid() && dash.Valid()
      ensures received == old(received) + [chunk]
      ensures events == dash.parse(old(buffer) + chunk)
      ensures buffer == if events == [] then old(buffer) + chunk else ""
      ensures dash.tasks == Reducer.FoldEvents(old(dash.tasks), events, taskId)
      ensures Feed(received, dash.parse).delivered == Feed(old(received), dash.parse).delivered + events
    {
      FeedExtends(received, chunk, dash.parse);
      var text := buffer + chunk;
      events := dash.parse(text);
      if |events| > 0 {
        dash.HandleAll(events, taskId);
        buffer := "";
      } else {
        buffer := text;
      }
      received := received + [chunk];
    }
  }
}
