/**
 * The grid's partitioning and row bookkeeping (src/components/TaskGrid.tsx):
 * tasks grouped by status, the active and completed sections sorted newest
 * first, the overview counts, and the set of expanded three-card rows.
 */
module TaskGrid {
  import opened TaskModel
  import opened TaskCard

  /** `getTasksByStatus(s)`: the tasks with status `s`, in list order. */
  function TasksByStatus(tasks: seq<Task>, s: Status): (r: seq<Task>)
    ensures |r| <= |tasks|
    ensures forall i :: 0 <= i < |r| ==> r[i].status == s
  {
    if tasks == [] then []
    else (if tasks[0].status == s then [tasks[0]] else []) + TasksByStatus(tasks[1..], s)
  }

  /** The filter is empty exactly when no task has the status. */
  lemma {:induction false} TasksByStatusEmpty(tasks: seq<Task>, s: Status)
    ensures TasksByStatus(tasks, s) == [] <==> forall i :: 0 <= i < |tasks| ==> tasks[i].status != s
  {
    if tasks != [] {
      TasksByStatusEmpty(tasks[1..], s);
      assert forall i :: 1 <= i < |tasks| ==> tasks[i] == tasks[1..][i - 1];
    }
  }

  /** Each task occurs in the filter as often as in the list when it has the status, and never otherwise. */
  lemma {:induction false} TasksByStatusCount(tasks: seq<Task>, s: Status, t: Task)
    ensures multiset(TasksByStatus(tasks, s))[t] == if t.status == s then multiset(tasks)[t] else 0
  {
    if tasks != [] {
      assert tasks == [tasks[0]] + tasks[1..];
      TasksByStatusCount(tasks[1..], s, t);
    }
  }

  /** Filtering keeps list order: the filter of a concatenation is the concatenation of the filters. */
  lemma {:induction false} TasksByStatusAppend(a: seq<Task>, b: seq<Task>, s: Status)
    ensures TasksByStatus(a + b, s) == TasksByStatus(a, s) + TasksByStatus(b, s)
  {
    if a == [] {
      assert a + b == b;
    } else {
      var x, tail := a[0], a[1..];
      assert a == [x] + tail;
      assert a + b == [x] + (tail + b);
      TasksByStatusCons(x, tail + b, s);
      TasksByStatusCons(x, tail, s);
      TasksByStatusAppend(tail, b, s);
      var head := if x.status == s then [x] else [];
      assert head + (TasksByStatus(tail, s) + TasksByStatus(b, s))
          == (head + TasksByStatus(tail, s)) + TasksByStatus(b, s);
    }
  }

  /** The filter of a list with a first task. */
  lemma TasksByStatusCons(x: Task, rest: seq<Task>, s: Status)
    ensures TasksByStatus([x] + rest, s) == (if x.status == s then [x] else []) + TasksByStatus(rest, s)
  {
    assert ([x] + rest)[0] == x && ([x] + rest)[1..] == rest;
  }

  /** The four counts of the status overview; paused tasks are not shown. */
  datatype Overview = Overview(running: nat, needsInput: nat, errors: nat, completed: nat)

  function StatusOverview(tasks: seq<Task>): (o: Overview)
    ensures o.running + o.needsInput + o.errors + o.completed <= |tasks|
    ensures o.running == 0 <==> forall i :: 0 <= i < |tasks| ==> tasks[i].status != Running
  {
    OverviewCounts(tasks);
    TasksByStatusEmpty(tasks, Running);
    Overview(|TasksByStatus(tasks, Running)|, |TasksByStatus(tasks, NeedsInput)|,
             |TasksByStatus(tasks, Error)|, |TasksByStatus(tasks, Completed)|)
  }

  /** The overview and the paused tasks together account for every task exactly once. */
  lemma OverviewAccountsForAll(tasks: seq<Task>)
    ensures var o := StatusOverview(tasks);
      o.running + o.needsInput + o.errors + o.completed + |TasksByStatus(tasks, Paused)| == |tasks|
  {
    OverviewCounts(tasks);
  }

  /** The five per-status filters together have as many tasks as the list. */
  lemma {:induction false} OverviewCounts(tasks: seq<Task>)
    ensures |TasksByStatus(tasks, Running)| + |TasksByStatus(tasks, NeedsInput)| + |TasksByStatus(tasks, Error)|
          + |TasksByStatus(tasks, Completed)| + |TasksByStatus(tasks, Paused)| == |tasks|
  {
    if tasks != [] {
      OverviewCounts(tasks[1..]);
    }
  }

  /** Ordered by `startTime`, newest first. */
  predicate NewestFirst(s: seq<Task>) {
    forall i, j :: 0 <= i < j < |s| ==> s[i].startTime >= s[j].startTime
  }

  /** Places `t` before the first task that is not newer than it. */
  function Insert(t: Task, xs: seq<Task>): (r: seq<Task>)
    requires NewestFirst(xs)
    ensures NewestFirst(r)
    ensures multiset(r) == multiset(xs) + multiset{t}
    ensures r[0] == t || (xs != [] && r[0] == xs[0])
  {
    if xs == [] then [t]
    else if t.startTime >= xs[0].startTime then
      ConsNewestFirst(t, xs);
      [t] + xs
    else
      assert xs == [xs[0]] + xs[1..];
      TailNewestFirst(xs);
      var rest := Insert(t, xs[1..]);
      InsertBehindHead(t, xs, rest);
      [xs[0]] + rest
  }

  /** Keeping the head in front of a tail that took `t` keeps the list sorted and adds exactly `t`. */
  lemma InsertBehindHead(t: Task, xs: seq<Task>, rest: seq<Task>)
    requires xs != [] && t.startTime < xs[0].startTime && NewestFirst(rest)
    requires multiset(rest) == multiset(xs[1..]) + multiset{t}
    requires rest[0] == t || (xs[1..] != [] && rest[0] == xs[1..][0])
    requires NewestFirst(xs)
    ensures NewestFirst([xs[0]] + rest)
    ensures multiset([xs[0]] + rest) == multiset(xs) + multiset{t}
  {
    assert xs == [xs[0]] + xs[1..];
    ConsNewestFirst(xs[0], rest);
  }

  /** The tail of a sorted list is sorted. */
  lemma TailNewestFirst(xs: seq<Task>)
    requires xs != [] && NewestFirst(xs)
    ensures NewestFirst(xs[1..])
  {
    forall i, j | 0 <= i < j < |xs| - 1 ensures xs[1..][i].startTime >= xs[1..][j].startTime {
      assert xs[1..][i] == xs[i + 1] && xs[1..][j] == xs[j + 1];
    }
  }

  /** A task not older than the head of a sorted list can go in front of it. */
  lemma ConsNewestFirst(x: Task, rest: seq<Task>)
    requires NewestFirst(rest) && (rest == [] || rest[0].startTime <= x.startTime)
    ensures NewestFirst([x] + rest)
  {
    var r := [x] + rest;
    forall i, j | 0 <= i < j < |r| ensures r[i].startTime >= r[j].startTime {
      if i == 0 {
        assert r[j] == rest[j - 1];
        if j > 1 {
          assert rest[0].startTime >= rest[j - 1].startTime;
        }
      } else {
        assert r[i] == rest[i - 1] && r[j] == rest[j - 1];
      }
    }
  }

  /** `sort((a, b) => b.startTime - a.startTime)`: a permutation, newest first. */
  function SortNewestFirst(s: seq<Task>): (r: seq<Task>)
    ensures NewestFirst(r)
    ensures multiset(r) == multiset(s)
  {
    if s == [] then []
    else
      assert s == [s[0]] + s[1..];
      Insert(s[0], SortNewestFirst(s[1..]))
  }

  /** The tasks with start time `k`, in list order. */
  function SameTime(s: seq<Task>, k: int): seq<Task> {
    if s == [] then []
    else (if s[0].startTime == k then [s[0]] else []) + SameTime(s[1..], k)
  }

  /** The filter of a list with a first task. */
  lemma {:induction false} SameTimeCons(x: Task, rest: seq<Task>, k: int)
    ensures SameTime([x] + rest, k) == (if x.startTime == k then [x] else []) + SameTime(rest, k)
  {
    assert ([x] + rest)[0] == x && ([x] + rest)[1..] == rest;
  }

  /** Inserting puts `t` after every task of its own start time, which keep their order. */
  lemma {:induction false} InsertStable(t: Task, xs: seq<Task>, k: int)
    requires NewestFirst(xs)
    ensures SameTime(Insert(t, xs), k) == (if t.startTime == k then [t] else []) + SameTime(xs, k)
  {
    if xs == [] {
      SameTimeCons(t, [], k);
    } else if t.startTime >= xs[0].startTime {
      SameTimeCons(t, xs, k);
    } else {
      TailNewestFirst(xs);
      InsertStable(t, xs[1..], k);
      PassOlder(t, xs, Insert(t, xs[1..]), k);
    }
  }

  /** Placing `t` behind a strictly newer head does not reorder tasks of one start time. */
  lemma {:induction false} PassOlder(t: Task, xs: seq<Task>, rest: seq<Task>, k: int)
    requires xs != [] && t.startTime < xs[0].startTime
    requires SameTime(rest, k) == (if t.startTime == k then [t] else []) + SameTime(xs[1..], k)
    ensures SameTime([xs[0]] + rest, k) == (if t.startTime == k then [t] else []) + SameTime(xs, k)
  {
    assert xs == [xs[0]] + xs[1..];
    SameTimeCons(xs[0], rest, k);
    SameTimeCons(xs[0], xs[1..], k);
    if xs[0].startTime == k {
      assert t.startTime != k;
      assert SameTime([xs[0]] + rest, k) == [xs[0]] + SameTime(xs[1..], k);
    } else {
      assert SameTime([xs[0]] + rest, k) == SameTime(rest, k);
    }
  }

  /**
   * The sort is stable, as `Array.prototype.sort` must be: the tasks of
   * any one start time come out in the order they went in.
   */
  lemma {:induction false} SortStable(s: seq<Task>, k: int)
    ensures SameTime(SortNewestFirst(s), k) == SameTime(s, k)
  {
    if s != [] {
      assert s == [s[0]] + s[1..];
      SortStable(s[1..], k);
      InsertStable(s[0], SortNewestFirst(s[1..]), k);
      SameTimeCons(s[0], s[1..], k);
    }
  }

  /** The active section: running, needs-input, error and paused tasks. */
  function ActiveTasks(tasks: seq<Task>): (r: seq<Task>)
    ensures NewestFirst(r)
    ensures NoneWith(r, Completed)
  {
    ActiveGroupsNoneCompleted(tasks);
    SortedNoneWith(TasksByStatus(tasks, Running) + TasksByStatus(tasks, NeedsInput)
                   + TasksByStatus(tasks, Error) + TasksByStatus(tasks, Paused), Completed);
    SortNewestFirst(TasksByStatus(tasks, Running) + TasksByStatus(tasks, NeedsInput)
                    + TasksByStatus(tasks, Error) + TasksByStatus(tasks, Paused))
  }

  /** The completed section. */
  function SortedCompletedTasks(tasks: seq<Task>): (r: seq<Task>)
    ensures NewestFirst(r)
    ensures AllWith(r, Completed)
  {
    SortedAllWith(TasksByStatus(tasks, Completed), Completed);
    SortNewestFirst(TasksByStatus(tasks, Completed))
  }

  /** No task of the list has status `st`. */
  predicate NoneWith(s: seq<Task>, st: Status) {
    forall i :: 0 <= i < |s| ==> s[i].status != st
  }

  /** Every task of the list has status `st`. */
  predicate AllWith(s: seq<Task>, st: Status) {
    forall i :: 0 <= i < |s| ==> s[i].status == st
  }

  /** Two lists without status `st` concatenate to one without it. */
  lemma AppendNoneWith(a: seq<Task>, b: seq<Task>, st: Status)
    requires NoneWith(a, st) && NoneWith(b, st)
    ensures NoneWith(a + b, st)
  {
    forall i | 0 <= i < |a + b| ensures (a + b)[i].status != st {
      if i < |a| {
        assert (a + b)[i] == a[i];
      } else {
        assert (a + b)[i] == b[i - |a|];
      }
    }
  }

  /** A filter for one status holds no task of another. */
  lemma FilterNoneWith(tasks: seq<Task>, s: Status, st: Status)
    requires s != st
    ensures NoneWith(TasksByStatus(tasks, s), st)
  {
  }

  /** Sorting keeps a list free of status `st`. */
  lemma SortedNoneWith(s: seq<Task>, st: Status)
    requires NoneWith(s, st)
    ensures NoneWith(SortNewestFirst(s), st)
  {
    var r := SortNewestFirst(s);
    forall i | 0 <= i < |r| ensures r[i].status != st {
      assert r[i] in multiset(r);
      assert r[i] in multiset(s);
    }
  }

  /** Sorting keeps a list of one status of that status. */
  lemma SortedAllWith(s: seq<Task>, st: Status)
    requires AllWith(s, st)
    ensures AllWith(SortNewestFirst(s), st)
  {
    var r := SortNewestFirst(s);
    forall i | 0 <= i < |r| ensures r[i].status == st {
      assert r[i] in multiset(r);
      assert r[i] in multiset(s);
    }
  }

  /** The four active groups together hold no completed task. */
  lemma ActiveGroupsNoneCompleted(tasks: seq<Task>)
    ensures NoneWith(TasksByStatus(tasks, Running) + TasksByStatus(tasks, NeedsInput)
                     + TasksByStatus(tasks, Error) + TasksByStatus(tasks, Paused), Completed)
  {
    var r, n, e, p := TasksByStatus(tasks, Running), TasksByStatus(tasks, NeedsInput),
                      TasksByStatus(tasks, Error), TasksByStatus(tasks, Paused);
    FilterNoneWith(tasks, Running, Completed);
    FilterNoneWith(tasks, NeedsInput, Completed);
    FilterNoneWith(tasks, Error, Completed);
    FilterNoneWith(tasks, Paused, Completed);
    AppendNoneWith(r, n, Completed);
    AppendNoneWith(r + n, e, Completed);
    AppendNoneWith(r + n + e, p, Completed);
  }

  /**
   * Tasks that started at the same time keep their order in the
   * concatenation: running, needs input, error, paused, each group in list
   * order; completed tasks keep list order.
   */
  lemma SectionTies(tasks: seq<Task>, k: int)
    ensures SameTime(ActiveTasks(tasks), k)
         == SameTime(TasksByStatus(tasks, Running) + TasksByStatus(tasks, NeedsInput)
                     + TasksByStatus(tasks, Error) + TasksByStatus(tasks, Paused), k)
    ensures SameTime(SortedCompletedTasks(tasks), k) == SameTime(TasksByStatus(tasks, Completed), k)
  {
    SortStable(TasksByStatus(tasks, Running) + TasksByStatus(tasks, NeedsInput)
               + TasksByStatus(tasks, Error) + TasksByStatus(tasks, Paused), k);
    SortStable(TasksByStatus(tasks, Completed), k);
  }

  /** A task occurs in the active section as often as in the list if it is not completed, else never. */
  lemma ActiveMembers(tasks: seq<Task>, t: Task)
    ensures multiset(ActiveTasks(tasks))[t] == if t.status != Completed then multiset(tasks)[t] else 0
  {
    var r, n, e, p := TasksByStatus(tasks, Running), TasksByStatus(tasks, NeedsInput),
                      TasksByStatus(tasks, Error), TasksByStatus(tasks, Paused);
    assert multiset(ActiveTasks(tasks)) == multiset(r + n + e + p);
    assert multiset(r + n + e + p) == multiset(r) + multiset(n) + multiset(e) + multiset(p);
    TasksByStatusCount(tasks, Running, t);
    TasksByStatusCount(tasks, NeedsInput, t);
    TasksByStatusCount(tasks, Error, t);
    TasksByStatusCount(tasks, Paused, t);
  }

  /** A task occurs in the completed section as often as in the list if it is completed, else never. */
  lemma CompletedMembers(tasks: seq<Task>, t: Task)
    ensures multiset(SortedCompletedTasks(tasks))[t] == if t.status == Completed then multiset(tasks)[t] else 0
  {
    TasksByStatusCount(tasks, Completed, t);
  }

  /**
   * The active section holds exactly the tasks that are not completed, each
   * as often as in the list; with the completed section it covers the list
   * exactly; both sections are newest first.
   */
  lemma SectionsPartition(tasks: seq<Task>)
    ensures NewestFirst(ActiveTasks(tasks)) && NewestFirst(SortedCompletedTasks(tasks))
    ensures multiset(ActiveTasks(tasks)) + multiset(SortedCompletedTasks(tasks)) == multiset(tasks)
  {
    var active := multiset(ActiveTasks(tasks));
    var done := multiset(SortedCompletedTasks(tasks));
    forall t: Task ensures (active + done)[t] == multiset(tasks)[t] {
      ActiveMembers(tasks, t);
      CompletedMembers(tasks, t);
    }
  }

  /** `Math.floor(index / 3)`: the row of three cards an index falls in. */
  function RowOf(index: int): (row: int)
    ensures 3 * row <= index < 3 * row + 3
  {
    index / 3
  }

  /** The indices sharing a row's expansion state are exactly the three cards of that row. */
  lemma RowMates(i: int, j: int)
    ensures RowOf(i) == RowOf(j) <==> 3 * RowOf(i) <= j < 3 * RowOf(i) + 3
  {
  }

  /**
   * Cards in the grid are collapsible and open exactly when their row is
   * expanded. After a card asks to expand or collapse, every card of its
   * row, in either section, shows as a full card or as a chip accordingly,
   * and every other card keeps its view.
   */
  lemma RowView(rows: set<int>, index: int, isExpanded: bool, j: int)
    ensures var after := if isExpanded then rows + {RowOf(index)} else rows - {RowOf(index)};
      && (RowOf(j) == RowOf(index) ==> View(true, RowOf(j) in after) == if isExpanded then FullCard else Chip)
      && (RowOf(j) != RowOf(index) ==> View(true, RowOf(j) in after) == View(true, RowOf(j) in rows))
  {
  }

  /** The grid's one piece of state: the expanded rows, shared by both sections. */
  class Grid {
    var expandedRows: set<int>

    constructor ()
      ensures expandedRows == {}
    {
      expandedRows := {};
    }

    /** `isRowExpanded(index)`. */
    function IsRowExpanded(index: int): bool
      reads this
    {
      RowOf(index) in expandedRows
    }

    /** `handleCardExpand(index, isExpanded)`: the card's row is added or removed; no other row changes. */
    method HandleCardExpand(index: int, isExpanded: bool)
      modifies this
      ensures expandedRows == if isExpanded then old(expandedRows) + {RowOf(index)}
                              else old(expandedRows) - {RowOf(index)}
      ensures forall j :: IsRowExpanded(j) == if RowOf(j) == RowOf(index) then isExpanded else old(IsRowExpanded(j))
    {
      var rowIndex := RowOf(index);
      var newExpandedRows := expandedRows;
      if isExpanded {
        newExpandedRows := newExpandedRows + {rowIndex};
      } else {
        newExpandedRows := newExpandedRows - {rowIndex};
      }
      expandedRows := newExpandedRows;
    }
  }
}
