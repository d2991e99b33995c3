/** The filter loop of `search_tasks`: which of an object's tasks are
    reported for the optional assignee, completion, due-date and priority
    filters. */
module ServerTasks {
  import opened Common
  import opened ServerIds

  /** The `assignee` field of a task: absent, JSON null, or an object
      whose `id` may itself be absent or null. */
  datatype Assignee = NoAssignee | NullAssignee | AssigneeObj(id: Option<JsonId>)

  /** The `is_complete` field: absent, null, or a boolean. */
  datatype Flag = Missing | NullFlag | FlagVal(b: bool)

  /** The fields of a task the filters read. `dueAt` and `priority` are
      `None` when absent or null. */
  datatype Task = Task(assignee: Assignee, complete: Flag, dueAt: Option<string>, priority: Option<string>)

  /** The filters; `None` means the argument was not given. */
  datatype Filters = Filters(
    assigneeId: Option<string>,
    isComplete: Option<bool>,
    dueFrom: Option<string>,
    dueTo: Option<string>,
    priority: Option<string>)

  /** `str(task.get("assignee", {}).get("id"))` for a non-null assignee:
      a missing id reads as the text "None". */
  function AssigneeText(a: Assignee): string
    requires !a.NullAssignee?
  {
    match a
    case NoAssignee => "None"
    case AssigneeObj(id) => if id.Some? then IdText(id.value) else "None"
  }

  /** `task.get("is_complete", False)`: `None` stands for JSON null. */
  function CompleteValue(f: Flag): Option<bool> {
    match f
    case Missing => Some(false)
    case NullFlag => None
    case FlagVal(b) => Some(b)
  }

  /** A null assignee makes `.get("id")` raise, which ends the whole tool
      call, as soon as the assignee filter is given. */
  predicate Raises(t: Task, f: Filters) {
    f.assigneeId.Some? && t.assignee.NullAssignee?
  }

  /** A task that passes every filter given. A task without a due date
      fails either date filter; dates compare as strings. */
  predicate Passes(t: Task, f: Filters) {
    && (f.assigneeId.Some? ==> !t.assignee.NullAssignee? && AssigneeText(t.assignee) == f.assigneeId.value)
    && (f.isComplete.Some? ==> CompleteValue(t.complete) == Some(f.isComplete.value))
    && (f.dueFrom.Some? ==> t.dueAt.Some? && t.dueAt.value != "" && !LexLess(t.dueAt.value, f.dueFrom.value))
    && (f.dueTo.Some? ==> t.dueAt.Some? && t.dueAt.value != "" && !LexLess(f.dueTo.value, t.dueAt.value))
    && (f.priority.Some? ==> t.priority == f.priority)
  }

  /** The tasks that pass, in input order. */
  function Filtered(tasks: seq<Task>, f: Filters): (r: seq<Task>)
    ensures |r| <= |tasks|
    decreases |tasks|
  {
    if |tasks| == 0 then []
    else
      var last := tasks[|tasks| - 1];
      Filtered(tasks[..|tasks| - 1], f) + (if Passes(last, f) then [last] else [])
  }

  /** The loop of `search_tasks`: `None` when a task with a null assignee
      makes it raise, otherwise the tasks that pass every filter. */
  method SearchTasks(tasks: seq<Task>, f: Filters) returns (r: Option<seq<Task>>)
    ensures r.None? <==> exists i :: 0 <= i < |tasks| && Raises(tasks[i], f)
    ensures r.Some? ==> r.value == Filtered(tasks, f)
  {
    var filtered: seq<Task> := [];
    for i := 0 to |tasks|
      invariant filtered == Filtered(tasks[..i], f)
      invariant forall j :: 0 <= j < i ==> !Raises(tasks[j], f)
    {
      var task := tasks[i];
      FilteredStep(tasks, f, i);
      if f.assigneeId.Some? {
        if task.assignee.NullAssignee? {
          return None;
        }
        if AssigneeText(task.assignee) != f.assigneeId.value {
          continue;
        }
      }
      if f.isComplete.Some? {
        if CompleteValue(task.complete) != Some(f.isComplete.value) {
          continue;
        }
      }
      if f.dueFrom.Some? {
        if task.dueAt.None? || task.dueAt.value == "" || LexLess(task.dueAt.value, f.dueFrom.value) {
          continue;
        }
      }
      if f.dueTo.Some? {
        if task.dueAt.None? || task.dueAt.value == "" || LexLess(f.dueTo.value, task.dueAt.value) {
          continue;
        }
      }
      if f.priority.Some? {
        if task.priority != f.priority {
          continue;
        }
      }
      filtered := filtered + [task];
    }
    assert tasks[..|tasks|] == tasks;
    r := Some(filtered);
  }

  /** One more task through the filter. */
  lemma FilteredStep(tasks: seq<Task>, f: Filters, i: nat)
    requires i < |tasks|
    ensures Filtered(tasks[..i + 1], f) ==
      Filtered(tasks[..i], f) + (if Passes(tasks[i], f) then [tasks[i]] else [])
  {
    assert tasks[..i + 1][..i] == tasks[..i];
  }

  /** Filtering splits over concatenation: the output keeps the input's
      order, task by task. */
  lemma {:induction false} FilteredAppend(a: seq<Task>, b: seq<Task>, f: Filters)
    ensures Filtered(a + b, f) == Filtered(a, f) + Filtered(b, f)
    decreases |b|
  {
    if |b| == 0 {
      assert a + b == a;
    } else {
      var b' := b[..|b| - 1];
      FilteredAppend(a, b', f);
      assert (a + b)[..|a + b| - 1] == a + b';
      assert (a + b)[|a + b| - 1] == b[|b| - 1];
    }
  }

  /** A task is reported exactly when it is one of the input tasks and
      passes every filter. */
  lemma {:induction false} FilteredMembers(tasks: seq<Task>, f: Filters, t: Task)
    ensures t in Filtered(tasks, f) <==> t in tasks && Passes(t, f)
    decreases |tasks|
  {
    if |tasks| > 0 {
      var init := tasks[..|tasks| - 1];
      FilteredMembers(init, f, t);
      assert tasks == init + [tasks[|tasks| - 1]];
    }
  }

  /** With no filter given, every task is reported, in order. */
  lemma {:induction false} NoFiltersKeepAll(tasks: seq<Task>)
    ensures Filtered(tasks, Filters(None, None, None, None, None)) == tasks
    decreases |tasks|
  {
    if |tasks| > 0 {
      NoFiltersKeepAll(tasks[..|tasks| - 1]);
      assert tasks == tasks[..|tasks| - 1] + [tasks[|tasks| - 1]];
    }
  }

  /** A task without a due date is never reported under a date filter. */
  lemma NoDueDateFailsDateFilter(tasks: seq<Task>, f: Filters, t: Task)
    requires f.dueFrom.Some? || f.dueTo.Some?
    requires t.dueAt.None? || t.dueAt == Some("")
    ensures t !in Filtered(tasks, f)
  {
    FilteredMembers(tasks, f, t);
  }
}
