/**
 * The task record (src/types/Task.ts). Every field the interface declares
 * as required is a plain field; each optional field is an `Option`.
 * `startTime` is a `Date` in the source and is kept here as its
 * millisecond timestamp (`getTime()`).
 */
module TaskModel {
  import opened Wrappers

  /** The closed five-value status union. */
  datatype Status = Running | Completed | Error | NeedsInput | Paused

  datatype Task = Task(
    id: string,
    name: string,
    agent: string,
    status: Status,
    progress: int,
    startTime: int,
    description: string,
    message: Option<string>,
    streamingMessage: Option<string>,
    errorMsg: Option<string>,
    runId: Option<string>,
    threadId: Option<string>)

  /** The bound every write of `progress` keeps, though the type does not state it. */
  predicate ProgressInRange(t: Task) {
    0 <= t.progress <= 100
  }

  /** Every task of a list keeps the progress bound. */
  predicate AllInRange(tasks: seq<Task>) {
    forall i :: 0 <= i < |tasks| ==> ProgressInRange(tasks[i])
  }

  /** The fields no operation of the dashboard ever rewrites. */
  predicate SameIdentity(a: Task, b: Task) {
    a.id == b.id && a.name == b.name && a.agent == b.agent && a.startTime == b.startTime
  }

  /** No task in the list carries this id. */
  predicate Unknown(tasks: seq<Task>, id: string) {
    forall i :: 0 <= i < |tasks| ==> tasks[i].id != id
  }

  /**
   * `prev.map(task => task.id === id ? f(task) : task)`: the shape that the
   * reducer, the error path and the status override all share.
   */
  function UpdateMatching(tasks: seq<Task>, id: string, f: Task -> Task): (r: seq<Task>)
    ensures |r| == |tasks|
    ensures forall i :: 0 <= i < |tasks| && tasks[i].id == id ==> r[i] == f(tasks[i])
    ensures forall i :: 0 <= i < |tasks| && tasks[i].id != id ==> r[i] == tasks[i]
  {
    if tasks == [] then []
    else [if tasks[0].id == id then f(tasks[0]) else tasks[0]] + UpdateMatching(tasks[1..], id, f)
  }

  /** Updating tasks of an id no task carries changes nothing. */
  lemma UpdateUnknown(tasks: seq<Task>, id: string, f: Task -> Task)
    requires Unknown(tasks, id)
    ensures UpdateMatching(tasks, id, f) == tasks
  {
  }
}
