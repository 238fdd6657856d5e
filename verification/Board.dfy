/** The records of a planning pack: tasks of the graph manifest, cases of the acceptance manifest. */
module Board {
  import opened Sequences

  type Id = string

  datatype TaskStatus =
    | NotStarted | Ready | Running | Review | TaskPass | TaskFail | TaskBlocked
    | UndocumentedTaskStatus(text: string)

  datatype CaseStatus =
    | NotRun | Pass | Fail | Blocked
    | UndocumentedCaseStatus(text: string)

  datatype Task = Task(id: Id, owner: string, dependsOn: seq<Id>, status: TaskStatus, testCases: seq<Id>)

  /** An assignment result: an object with exactly the keys `task_id` and `status`, or something else. */
  datatype Row =
    | Row(taskId: Id, status: CaseStatus)
    | NoStatusRow(owner: Id)
    | NoTaskRow(result: Option<CaseStatus>)
    | ExtraKeysRow(task: Option<Id>, result: Option<CaseStatus>)
    | NotAnObject

  /** `row["task_id"]`, None when the lookup raises. */
  function TaskOf(r: Row): Option<Id> {
    match r
    case Row(a, _) => Some(a)
    case NoStatusRow(a) => Some(a)
    case ExtraKeysRow(a, _) => a
    case _ => None
  }

  /** `row["status"]`, None when the lookup raises. */
  function ResultOf(r: Row): Option<CaseStatus> {
    match r
    case Row(_, s) => Some(s)
    case NoTaskRow(s) => s
    case ExtraKeysRow(_, s) => s
    case _ => None
  }

  /** `row["status"] = s`, which adds the key where it is missing. */
  function WithResult(r: Row, s: CaseStatus): (q: Row)
    requires !r.NotAnObject?
    ensures TaskOf(q) == TaskOf(r) && ResultOf(q) == Some(s)
  {
    match r
    case Row(a, _) => Row(a, s)
    case NoStatusRow(a) => Row(a, s)
    case NoTaskRow(_) => NoTaskRow(Some(s))
    case ExtraKeysRow(a, _) => ExtraKeysRow(a, Some(s))
  }

  /**
   What stands under `assignment_results`: a list, an empty object or text, which loops pass over, or
   anything else, which raises when it is looked up or read row by row.
   */
  datatype Results = List(value: seq<Row>) | EmptyOther | Unreadable

  datatype Case = Case(id: Id, status: CaseStatus, tasks: seq<Id>, rows: Results)

  predicate InProgress(s: TaskStatus) {
    s.Ready? || s.Running? || s.Review? || s.TaskPass? || s.TaskFail?
  }

  function TaskIds(tasks: seq<Task>): (ids: seq<Id>)
    ensures |ids| == |tasks|
  {
    seq(|tasks|, i requires 0 <= i < |tasks| => tasks[i].id)
  }

  function Known(tasks: seq<Task>): set<Id> {
    Elements(TaskIds(tasks))
  }

  predicate UniqueIds(tasks: seq<Task>) {
    Distinct(TaskIds(tasks))
  }

  /** Python's `{task["id"]: task for task in tasks}`: a later record replaces an earlier one. */
  function TaskById(tasks: seq<Task>, id: Id): (t: Option<Task>)
    ensures t.Some? <==> id in Known(tasks)
    ensures t.Some? ==> t.value in tasks && t.value.id == id
  {
    if tasks == [] then None
    else
      var last := tasks[|tasks| - 1];
      var init := tasks[..|tasks| - 1];
      assert TaskIds(tasks) == TaskIds(init) + [last.id];
      if last.id == id then Some(last) else TaskById(init, id)
  }

  lemma UniqueLookup(tasks: seq<Task>, t: Task)
    requires UniqueIds(tasks) && t in tasks
    ensures TaskById(tasks, t.id) == Some(t)
  {
    var u := TaskById(tasks, t.id);
    var i :| 0 <= i < |tasks| && tasks[i] == t;
    assert TaskIds(tasks)[i] == t.id;
    var j :| 0 <= j < |tasks| && tasks[j] == u.value;
    assert TaskIds(tasks)[j] == t.id;
  }

  lemma KnownIsARecord(tasks: seq<Task>, id: Id) returns (t: Task)
    requires id in Known(tasks)
    ensures t in tasks && t.id == id
  {
    t := TaskById(tasks, id).value;
  }

  lemma RecordIsKnown(tasks: seq<Task>, t: Task)
    requires t in tasks
    ensures t.id in Known(tasks)
  {
    var i :| 0 <= i < |tasks| && tasks[i] == t;
    assert TaskIds(tasks)[i] == t.id;
  }
}
