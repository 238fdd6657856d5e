/** When a moved board still satisfies the validator. */
module MoveTheorems {
  import opened Sequences
  import opened Board
  import opened TaskGraph
  import opened Summary
  import opened StatusChecks
  import opened TaskStates
  import ReadyGroups

  ghost predicate AllTasksPass(tasks: seq<Task>) {
    forall t :: t in tasks ==> t.status == TaskPass
  }

  /** No task is explicitly put in progress downstream of an explicit non-PASS status. */
  ghost predicate NoEarlyProgress(tasks: seq<Task>, statuses: map<Id, TaskStatus>) {
    forall a :: a in statuses && InProgress(statuses[a]) ==> !DescendsFrom(tasks, NonPass(statuses), a)
  }

  /** A task with a dependency outside the graph is held back, explicitly or by blocking. */
  ghost predicate DanglingHeldBack(tasks: seq<Task>, statuses: map<Id, TaskStatus>) {
    forall t, d :: t in tasks && d in t.dependsOn && d !in Known(tasks) ==>
      if t.id in statuses then !InProgress(statuses[t.id]) else DescendsFrom(tasks, NonPass(statuses), t.id)
  }

  function FinalStatus(before: TaskStatus, statuses: map<Id, TaskStatus>, blocked: set<Id>, a: Id): TaskStatus {
    if a in statuses then statuses[a] else if a in blocked then TaskBlocked else before
  }

  lemma LastWhenUnique(tasks: seq<Task>, i: nat)
    requires UniqueIds(tasks) && i < |tasks|
    ensures IsLast(tasks, i)
  {
    forall j | i < j < |tasks| ensures tasks[j].id != tasks[i].id {
      assert TaskIds(tasks)[i] != TaskIds(tasks)[j];
    }
  }

  /** With unique ids the two passes of assignments give every record its final status. */
  lemma MovedAt(tasks: seq<Task>, statuses: map<Id, TaskStatus>, i: nat)
    requires UniqueIds(tasks) && i < |tasks|
    ensures |MovedTasks(tasks, statuses)| == |tasks|
    ensures MovedTasks(tasks, statuses)[i] ==
            tasks[i].(status := FinalStatus(tasks[i].status, statuses, BlockedBy(tasks, statuses), tasks[i].id))
  {
    var first := Assigned(tasks, statuses);
    assert TaskIds(first) == TaskIds(tasks);
    LastWhenUnique(tasks, i);
    LastWhenUnique(first, i);
  }

  lemma MovedSameGraph(tasks: seq<Task>, statuses: map<Id, TaskStatus>)
    requires UniqueIds(tasks)
    ensures SameGraph(tasks, MovedTasks(tasks, statuses))
    ensures TaskIds(MovedTasks(tasks, statuses)) == TaskIds(tasks)
  {
  }

  /** The record a task becomes, and the status a lookup of it then finds. */
  lemma MovedRecord(tasks: seq<Task>, statuses: map<Id, TaskStatus>, t: Task) returns (u: Task)
    requires UniqueIds(tasks) && t in tasks
    ensures u == t.(status := FinalStatus(t.status, statuses, BlockedBy(tasks, statuses), t.id))
    ensures u in MovedTasks(tasks, statuses)
    ensures TaskById(MovedTasks(tasks, statuses), t.id) == Some(u)
  {
    var i :| 0 <= i < |tasks| && tasks[i] == t;
    MovedAt(tasks, statuses, i);
    MovedSameGraph(tasks, statuses);
    u := MovedTasks(tasks, statuses)[i];
    UniqueLookup(MovedTasks(tasks, statuses), u);
  }

  lemma OriginalRecord(tasks: seq<Task>, statuses: map<Id, TaskStatus>, u: Task) returns (t: Task)
    requires UniqueIds(tasks) && u in MovedTasks(tasks, statuses)
    ensures t in tasks && u == t.(status := FinalStatus(t.status, statuses, BlockedBy(tasks, statuses), t.id))
  {
    var m := MovedTasks(tasks, statuses);
    var i :| 0 <= i < |m| && m[i] == u;
    MovedSameGraph(tasks, statuses);
    MovedAt(tasks, statuses, i);
    t := tasks[i];
  }

  /** After the move a known task has passed unless it is explicit non-PASS or downstream of one. */
  lemma MovedPasses(tasks: seq<Task>, statuses: map<Id, TaskStatus>, d: Id)
    requires UniqueIds(tasks) && AllTasksPass(tasks) && d in Known(tasks)
    ensures StatusOf(MovedTasks(tasks, statuses), d) == Some(TaskPass) <==>
            if d in statuses then statuses[d] == TaskPass else !DescendsFrom(tasks, NonPass(statuses), d)
  {
    var t := KnownIsARecord(tasks, d);
    var u := MovedRecord(tasks, statuses, t);
  }

  lemma MovedUnknown(tasks: seq<Task>, statuses: map<Id, TaskStatus>, d: Id)
    requires UniqueIds(tasks) && d !in Known(tasks)
    ensures StatusOf(MovedTasks(tasks, statuses), d) == None
  {
    MovedSameGraph(tasks, statuses);
  }

  /** A task the move leaves in progress is not downstream, so its known dependencies pass. */
  lemma InProgressIsComplete(tasks: seq<Task>, statuses: map<Id, TaskStatus>, t: Task)
    requires UniqueIds(tasks) && AllTasksPass(tasks) && t in tasks
    requires !DescendsFrom(tasks, NonPass(statuses), t.id)
    requires forall d :: d in t.dependsOn ==> d in Known(tasks)
    ensures !Incomplete(MovedTasks(tasks, statuses), t.dependsOn)
  {
    var roots := NonPass(statuses);
    forall d | d in t.dependsOn ensures StatusOf(MovedTasks(tasks, statuses), d) == Some(TaskPass) {
      if d in roots || DescendsFrom(tasks, roots, d) { DirectDependentDescends(tasks, roots, t, d); }
      MovedPasses(tasks, statuses, d);
    }
  }

  lemma ChainTail(tasks: seq<Task>, p: seq<Id>)
    requires IsChain(tasks, p) && |p| >= 2
    ensures IsChain(tasks, p[1..])
  {
  }

  lemma NextOnChain(tasks: seq<Task>, roots: set<Id>, p: seq<Id>)
    requires IsChain(tasks, p) && |p| >= 2 && p[|p| - 1] in roots
    ensures p[1] in roots || DescendsFrom(tasks, roots, p[1])
  {
    if |p| > 2 {
      var q := p[1..];
      ChainTail(tasks, p);
      assert ChainFrom(tasks, p[1], q) && q[|q| - 1] == p[|p| - 1];
      assert DependsOn(tasks, p[1], p[|p| - 1]);
    }
  }

  /** A downstream task has a dependency short of PASS, or early progress happens further up. */
  lemma {:induction false} DownstreamIsIncomplete(tasks: seq<Task>, statuses: map<Id, TaskStatus>, t: Task)
    requires UniqueIds(tasks) && AllTasksPass(tasks) && t in tasks
    requires NoEarlyProgress(tasks, statuses) && DescendsFrom(tasks, NonPass(statuses), t.id)
    ensures Incomplete(MovedTasks(tasks, statuses), t.dependsOn)
  {
    var roots := NonPass(statuses);
    var r, p :| r in roots && ChainFrom(tasks, t.id, p) && |p| >= 2 && p[|p| - 1] == r;
    NextOnChain(tasks, roots, p);
    assert DependsDirectly(tasks, p[0], p[1]);
    var u :| u in tasks && u.id == t.id && p[1] in u.dependsOn;
    TheRecord(tasks, t, u);
    if p[1] in Known(tasks) { MovedPasses(tasks, statuses, p[1]); } else { MovedUnknown(tasks, statuses, p[1]); }
  }

  /** Early progress somewhere always surfaces as progress on an incomplete dependency. */
  lemma {:induction false} EarlyProgressShows(tasks: seq<Task>, statuses: map<Id, TaskStatus>, p: seq<Id>)
    requires UniqueIds(tasks) && AllTasksPass(tasks)
    requires IsChain(tasks, p) && |p| >= 2 && p[|p| - 1] in NonPass(statuses)
    requires p[0] in statuses && InProgress(statuses[p[0]])
    ensures !ProgressWaits(MovedTasks(tasks, statuses))
  {
    var moved, roots := MovedTasks(tasks, statuses), NonPass(statuses);
    assert DependsDirectly(tasks, p[0], p[1]);
    var t :| t in tasks && t.id == p[0] && p[1] in t.dependsOn;
    var u := MovedRecord(tasks, statuses, t);
    NextOnChain(tasks, roots, p);
    if p[1] !in Known(tasks) {
      MovedUnknown(tasks, statuses, p[1]);
      assert Incomplete(moved, u.dependsOn);
    } else {
      MovedPasses(tasks, statuses, p[1]);
      if StatusOf(moved, p[1]) != Some(TaskPass) {
        assert Incomplete(moved, u.dependsOn);
      } else {
        ChainTail(tasks, p);
        EarlyProgressShows(tasks, statuses, p[1..]);
      }
    }
  }

  lemma DanglingShows(tasks: seq<Task>, statuses: map<Id, TaskStatus>)
    requires UniqueIds(tasks) && AllTasksPass(tasks) && ProgressWaits(MovedTasks(tasks, statuses))
    ensures DanglingHeldBack(tasks, statuses)
  {
    forall t, d | t in tasks && d in t.dependsOn && d !in Known(tasks)
      ensures if t.id in statuses then !InProgress(statuses[t.id])
              else DescendsFrom(tasks, NonPass(statuses), t.id)
    {
      var u := MovedRecord(tasks, statuses, t);
      MovedUnknown(tasks, statuses, d);
      assert Incomplete(MovedTasks(tasks, statuses), u.dependsOn);
      RecordIsKnown(tasks, t);
    }
  }

  /** Main result: moving an all-PASS graph respects "progress waits" exactly under this condition. */
  lemma MovedProgressWaitsIff(tasks: seq<Task>, statuses: map<Id, TaskStatus>)
    requires UniqueIds(tasks) && AllTasksPass(tasks)
    ensures ProgressWaits(MovedTasks(tasks, statuses)) <==>
            NoEarlyProgress(tasks, statuses) && DanglingHeldBack(tasks, statuses)
  {
    var moved, roots := MovedTasks(tasks, statuses), NonPass(statuses);
    if ProgressWaits(moved) {
      DanglingShows(tasks, statuses);
      forall a | a in statuses && InProgress(statuses[a]) ensures !DescendsFrom(tasks, roots, a) {
        if r, p :| r in roots && ChainFrom(tasks, a, p) && |p| >= 2 && p[|p| - 1] == r {
          EarlyProgressShows(tasks, statuses, p);
        }
      }
    }
    if NoEarlyProgress(tasks, statuses) && DanglingHeldBack(tasks, statuses) {
      forall u | u in moved && InProgress(u.status) ensures !Incomplete(moved, u.dependsOn) {
        var t := OriginalRecord(tasks, statuses, u);
        RecordIsKnown(tasks, t);
        InProgressIsComplete(tasks, statuses, t);
      }
    }
  }

  // ---------------------------------------------------------------- the whole verdict

  /** An explicit status that forbids the PASS results its rows keep. */
  ghost predicate ForbidsPass(tasks: seq<Task>, statuses: map<Id, TaskStatus>, a: Id) {
    a in statuses &&
    (statuses[a] in [NotStarted, Ready]
     || (statuses[a] == TaskBlocked && DescendsFrom(tasks, NonPass(statuses), a)))
  }

  ghost predicate MoveAllowed(p: Pack, statuses: map<Id, TaskStatus>) {
    && NoEarlyProgress(p.tasks, statuses)
    && (forall a :: a in statuses ==> !statuses[a].UndocumentedTaskStatus?)
    && (forall a :: ForbidsPass(p.tasks, statuses, a) ==> CasesOf(p.tasks, a) == [])
  }

  /** Proper rows can be reset and passed, whatever is blocked. */
  lemma ProperRows(c: Case, blocked: set<Id>)
    requires c.rows.List? && WellFormed(c.rows.value)
    ensures Resettable(c, blocked) && Passable(c)
    ensures var rows := ResetRows(c.rows.value, blocked);
            WellFormed(rows) && RowIds(rows) == RowIds(c.rows.value) && ResultsIn(rows) == RowStatuses(rows)
  {
    assert forall i :: 0 <= i < |c.rows.value| ==> c.rows.value[i].Row?;
  }

  lemma ConsistentIsResettable(p: Pack, blocked: set<Id>)
    requires Consistent(p)
    ensures CasesResettable(p.cases, blocked)
  {
    forall i | 0 <= i < |p.cases| ensures Resettable(p.cases[i], blocked) {
      assert CaseAccepted(p.tasks, p.cases[i]);
      ProperRows(p.cases[i], blocked);
    }
  }

  lemma MovedOwners(tasks: seq<Task>, statuses: map<Id, TaskStatus>, a: Id)
    requires UniqueIds(tasks)
    ensures CasesOf(MovedTasks(tasks, statuses), a) == CasesOf(tasks, a)
    ensures Known(MovedTasks(tasks, statuses)) == Known(tasks)
  {
    MovedSameGraph(tasks, statuses);
    if a in Known(tasks) {
      var t := KnownIsARecord(tasks, a);
      UniqueLookup(tasks, t);
      var u := MovedRecord(tasks, statuses, t);
    }
  }

  lemma MovedCaseAt(p: Pack, statuses: map<Id, TaskStatus>, i: nat)
    requires Consistent(p) && i < |p.cases| && CasesResettable(p.cases, BlockedBy(p.tasks, statuses))
    ensures Resettable(p.cases[i], BlockedBy(p.tasks, statuses))
    ensures Moved(p, statuses).cases[i] == ResetCase(p.cases[i], BlockedBy(p.tasks, statuses))
  {
    assert CaseAccepted(p.tasks, p.cases[i]);
    forall j | i < j < |p.cases| ensures p.cases[j].id != p.cases[i].id {
      assert CaseIds(p.cases)[i] != CaseIds(p.cases)[j];
    }
  }

  lemma MovedDocumentedIff(p: Pack, statuses: map<Id, TaskStatus>)
    requires UniqueIds(p.tasks) && AllTasksPass(p.tasks) && statuses.Keys <= Known(p.tasks)
    ensures StatusesDocumented(MovedTasks(p.tasks, statuses)) <==>
            forall a :: a in statuses ==> !statuses[a].UndocumentedTaskStatus?
  {
    var moved := MovedTasks(p.tasks, statuses);
    if StatusesDocumented(moved) {
      forall a | a in statuses ensures !statuses[a].UndocumentedTaskStatus? {
        var t := KnownIsARecord(p.tasks, a);
        var u := MovedRecord(p.tasks, statuses, t);
      }
    } else {
      var u :| u in moved && u.status.UndocumentedTaskStatus?;
      var t := OriginalRecord(p.tasks, statuses, u);
      assert t.id in statuses && statuses[t.id] == u.status;
    }
  }

  lemma MovedCaseIds(p: Pack, statuses: map<Id, TaskStatus>)
    requires Consistent(p) && CasesResettable(p.cases, BlockedBy(p.tasks, statuses))
    ensures CaseIds(Moved(p, statuses).cases) == CaseIds(p.cases)
  {
    forall i | 0 <= i < |p.cases| ensures Moved(p, statuses).cases[i].id == p.cases[i].id {
      MovedCaseAt(p, statuses, i);
    }
  }

  /** On an all-PASS board that the checks accept, every dependency is known. */
  lemma PassedDependenciesKnown(p: Pack)
    requires Consistent(p) && AllTasksPass(p.tasks)
    ensures DependenciesKnown(p.tasks)
  {
    forall t, d | t in p.tasks && d in t.dependsOn ensures d in Known(p.tasks) {
      assert !Incomplete(p.tasks, t.dependsOn);
      assert StatusOf(p.tasks, d) == Some(TaskPass);
    }
  }

  /** The move changes no dependency list and no list of test cases. */
  lemma MovedLists(p: Pack, statuses: map<Id, TaskStatus>, ids: seq<Id>)
    requires GraphConsistent(p) && ids == CaseIds(p.cases)
    ensures ReadyGroups.DependencyListsValid(MovedTasks(p.tasks, statuses))
    ensures forall u, c :: u in MovedTasks(p.tasks, statuses) && c in u.testCases ==> c in ids
  {
    forall u | u in MovedTasks(p.tasks, statuses)
      ensures Distinct(u.dependsOn)
      ensures forall c :: c in u.testCases ==> c in ids
    {
      var t := OriginalRecord(p.tasks, statuses, u);
    }
  }

  lemma GraphStaysConsistentIff(p: Pack, statuses: map<Id, TaskStatus>)
    requires Consistent(p) && AllTasksPass(p.tasks) && statuses.Keys <= Known(p.tasks)
    requires CasesResettable(p.cases, BlockedBy(p.tasks, statuses))
    ensures GraphConsistent(Moved(p, statuses)) <==>
            NoEarlyProgress(p.tasks, statuses) && forall a :: a in statuses ==> !statuses[a].UndocumentedTaskStatus?
  {
    MovedSameGraph(p.tasks, statuses);
    PassedDependenciesKnown(p);
    MovedProgressWaitsIff(p.tasks, statuses);
    MovedCaseIds(p, statuses);
    MovedLists(p, statuses, CaseIds(p.cases));
    MovedDocumentedIff(p, statuses);
  }

  /** Every part of a case's acceptance but the row statuses survives the move. */
  lemma MovedCaseAcceptedIff(p: Pack, statuses: map<Id, TaskStatus>, c: Case)
    requires Consistent(p) && c in p.cases && Resettable(c, BlockedBy(p.tasks, statuses))
    ensures var d := ResetCase(c, BlockedBy(p.tasks, statuses));
            CaseAccepted(MovedTasks(p.tasks, statuses), d) <==> RowsAllowed(MovedTasks(p.tasks, statuses), d)
  {
    var moved := MovedTasks(p.tasks, statuses);
    var d := ResetCase(c, BlockedBy(p.tasks, statuses));
    assert CaseAccepted(p.tasks, c);
    forall a ensures a in Owners(moved, c.id) <==> a in Owners(p.tasks, c.id) {
      MovedOwners(p.tasks, statuses, a);
    }
    assert Owners(moved, c.id) == Owners(p.tasks, c.id);
    ProperRows(c, BlockedBy(p.tasks, statuses));
    assert CaseExact(moved, d);
  }

  /** Whether one reset row is allowed is decided by the explicit status of its task alone. */
  lemma MovedRowAllowedIff(p: Pack, statuses: map<Id, TaskStatus>, c: Case, r: Row, t: Task)
    requires Consistent(p) && AllTasksPass(p.tasks) && NoEarlyProgress(p.tasks, statuses)
    requires c in p.cases && c.rows.List? && r in c.rows.value && r.Row? && t in p.tasks && t.id == r.taskId
    ensures var moved, blocked := MovedTasks(p.tasks, statuses), BlockedBy(p.tasks, statuses);
            var u := t.(status := FinalStatus(t.status, statuses, blocked, t.id));
            ResultAllowed(moved, u, if t.id in blocked then NotRun else r.status) <==>
            !ForbidsPass(p.tasks, statuses, t.id)
  {
    assert CaseAccepted(p.tasks, c);
    assert ResultAllowed(p.tasks, t, r.status);
    if t.id in statuses && statuses[t.id] == TaskBlocked {
      if DescendsFrom(p.tasks, NonPass(statuses), t.id) {
        DownstreamIsIncomplete(p.tasks, statuses, t);
      } else {
        assert !Incomplete(p.tasks, t.dependsOn);
        forall d | d in t.dependsOn ensures d in Known(p.tasks) {
          assert StatusOf(p.tasks, d) == Some(TaskPass);
        }
        InProgressIsComplete(p.tasks, statuses, t);
      }
    }
  }

  lemma RowBeforeReset(rows: seq<Row>, blocked: set<Id>, q: Row) returns (r: Row)
    requires WellFormed(rows) && (forall i :: 0 <= i < |rows| ==> RowResettable(rows[i], blocked))
    requires q in ResetRows(rows, blocked)
    ensures r in rows && r.Row? && q == Row(r.taskId, if r.taskId in blocked then NotRun else r.status)
  {
    var i :| 0 <= i < |rows| && ResetRows(rows, blocked)[i] == q;
    r := rows[i];
  }

  /** Rows stay allowed when no status with results forbids PASS ... */
  lemma RowsStayAllowed(p: Pack, statuses: map<Id, TaskStatus>, c: Case)
    requires Consistent(p) && AllTasksPass(p.tasks) && MoveAllowed(p, statuses)
    requires c in p.cases && Resettable(c, BlockedBy(p.tasks, statuses))
    ensures RowsAllowed(MovedTasks(p.tasks, statuses), ResetCase(c, BlockedBy(p.tasks, statuses)))
  {
    var moved, blocked := MovedTasks(p.tasks, statuses), BlockedBy(p.tasks, statuses);
    forall q, u | q in ResetRows(c.rows.value, blocked) && q.Row? && u in moved && u.id == q.taskId
      ensures ResultAllowed(moved, u, q.status)
    {
      assert CaseAccepted(p.tasks, c);
      var r := RowBeforeReset(c.rows.value, blocked, q);
      var t := OriginalRecord(p.tasks, statuses, u);
      RowIsOwned(p, c, r, t);
      MovedRowAllowedIff(p, statuses, c, r, t);
    }
  }

  /** ... and a status that forbids PASS on a task with results is caught. */
  lemma StrandedResultShows(p: Pack, statuses: map<Id, TaskStatus>, a: Id) returns (c: Case)
    requires Consistent(p) && AllTasksPass(p.tasks) && NoEarlyProgress(p.tasks, statuses)
    requires statuses.Keys <= Known(p.tasks) && ForbidsPass(p.tasks, statuses, a) && CasesOf(p.tasks, a) != []
    ensures c in p.cases && Resettable(c, BlockedBy(p.tasks, statuses))
    ensures !RowsAllowed(MovedTasks(p.tasks, statuses), ResetCase(c, BlockedBy(p.tasks, statuses)))
  {
    var moved, blocked := MovedTasks(p.tasks, statuses), BlockedBy(p.tasks, statuses);
    var t := KnownIsARecord(p.tasks, a);
    UniqueLookup(p.tasks, t);
    var caseId := t.testCases[0];
    assert caseId in t.testCases && TestCasesKnown(p);
    assert caseId in CaseIds(p.cases);
    var i :| 0 <= i < |p.cases| && CaseIds(p.cases)[i] == caseId;
    c := p.cases[i];
    assert CaseAccepted(p.tasks, c);
    var rows := c.rows.value;
    assert a in Owners(p.tasks, c.id);
    var r := RowOf(rows, a);
    MovedRowAllowedIff(p, statuses, c, r, t);
    var u := MovedRecord(p.tasks, statuses, t);
    ProperRows(c, blocked);
    var j :| 0 <= j < |rows| && rows[j] == r;
    assert ResetRows(rows, blocked)[j] in ResetRows(rows, blocked);
  }

  lemma AllowedMoveIsAccepted(p: Pack, statuses: map<Id, TaskStatus>, i: nat)
    requires Consistent(p) && AllTasksPass(p.tasks) && MoveAllowed(p, statuses) && i < |p.cases|
    requires CasesResettable(p.cases, BlockedBy(p.tasks, statuses))
    ensures CaseAccepted(Moved(p, statuses).tasks, Moved(p, statuses).cases[i])
  {
    MovedCaseAt(p, statuses, i);
    RowsStayAllowed(p, statuses, p.cases[i]);
    MovedCaseAcceptedIff(p, statuses, p.cases[i]);
  }

  lemma ForbiddenMoveIsRefused(p: Pack, statuses: map<Id, TaskStatus>, a: Id)
    requires Consistent(p) && AllTasksPass(p.tasks) && NoEarlyProgress(p.tasks, statuses)
    requires statuses.Keys <= Known(p.tasks) && CasesResettable(p.cases, BlockedBy(p.tasks, statuses))
    requires ForbidsPass(p.tasks, statuses, a) && CasesOf(p.tasks, a) != []
    ensures !Consistent(Moved(p, statuses))
  {
    var c := StrandedResultShows(p, statuses, a);
    var i :| 0 <= i < |p.cases| && p.cases[i] == c;
    MovedCaseAt(p, statuses, i);
    assert Moved(p, statuses).cases[i] in Moved(p, statuses).cases;
  }

  /**
   Main result: from a consistent board on which every task passed, the moved board satisfies every
   status check exactly when nothing is put in progress downstream of a failure, every status is a
   documented one, and no task that keeps its PASS results is given a status that forbids them.
   */
  lemma MovedConsistentIff(p: Pack, statuses: map<Id, TaskStatus>)
    requires Consistent(p) && AllTasksPass(p.tasks) && statuses.Keys <= Known(p.tasks)
    ensures CasesResettable(p.cases, BlockedBy(p.tasks, statuses))
    ensures Consistent(Moved(p, statuses)) <==> MoveAllowed(p, statuses)
  {
    ConsistentIsResettable(p, BlockedBy(p.tasks, statuses));
    GraphStaysConsistentIff(p, statuses);
    if MoveAllowed(p, statuses) {
      forall i | 0 <= i < |p.cases| ensures CaseAccepted(Moved(p, statuses).tasks, Moved(p, statuses).cases[i]) {
        AllowedMoveIsAccepted(p, statuses, i);
      }
    } else if NoEarlyProgress(p.tasks, statuses) {
      if a :| ForbidsPass(p.tasks, statuses, a) && CasesOf(p.tasks, a) != [] {
        ForbiddenMoveIsRefused(p, statuses, a);
      }
    }
  }

  // ---------------------------------------------------------------- the all-PASS board

  /** Rows with the right keys, or with the status missing: what `all_pass` completes. */
  predicate Completable(rows: seq<Row>) {
    forall i :: 0 <= i < |rows| ==> rows[i].Row? || rows[i].NoStatusRow?
  }

  function NamedIds(rows: seq<Row>): (ids: seq<Id>)
    requires Completable(rows)
    ensures |ids| == |rows|
  {
    seq(|rows|, i requires 0 <= i < |rows| => TaskOf(rows[i]).value)
  }

  predicate RowsNameOwners(tasks: seq<Task>, c: Case) {
    && c.rows.List? && Completable(c.rows.value) && Distinct(NamedIds(c.rows.value))
    && Elements(NamedIds(c.rows.value)) == Owners(tasks, c.id) && Owners(tasks, c.id) != {}
    && Elements(c.tasks) == Owners(tasks, c.id)
  }

  /** Everything the status checks demand that statuses cannot change. */
  predicate Structured(p: Pack) {
    && UniqueIds(p.tasks) && Distinct(CaseIds(p.cases))
    && ReadyGroups.DependencyListsValid(p.tasks)
    && DependenciesKnown(p.tasks) && TestCasesKnown(p)
    && forall c :: c in p.cases ==> RowsNameOwners(p.tasks, c)
  }

  lemma PassedLookup(tasks: seq<Task>, a: Id)
    requires UniqueIds(tasks)
    ensures TaskIds(PassedTasks(tasks)) == TaskIds(tasks)
    ensures StatusOf(PassedTasks(tasks), a) == if a in Known(tasks) then Some(TaskPass) else None
    ensures CasesOf(PassedTasks(tasks), a) == CasesOf(tasks, a)
  {
    assert TaskIds(PassedTasks(tasks)) == TaskIds(tasks);
    if a in Known(tasks) {
      var t := KnownIsARecord(tasks, a);
      var i :| 0 <= i < |tasks| && tasks[i] == t;
      var u := PassedTasks(tasks)[i];
      UniqueLookup(tasks, t);
      UniqueLookup(PassedTasks(tasks), u);
    }
  }

  lemma PassedRecord(tasks: seq<Task>, u: Task) returns (t: Task)
    requires u in PassedTasks(tasks)
    ensures t in tasks && u == t.(status := TaskPass)
  {
    var i :| 0 <= i < |tasks| && PassedTasks(tasks)[i] == u;
    t := tasks[i];
  }

  lemma PassedHas(tasks: seq<Task>, t: Task)
    requires t in tasks
    ensures t.(status := TaskPass) in PassedTasks(tasks)
  {
    var i :| 0 <= i < |tasks| && tasks[i] == t;
    assert PassedTasks(tasks)[i] == t.(status := TaskPass);
  }

  lemma PassedCaseIds(p: Pack)
    requires CasesPassable(p.cases)
    ensures CaseIds(AllPassed(p).cases) == CaseIds(p.cases)
  {
  }

  lemma PassedProgressIff(tasks: seq<Task>)
    requires UniqueIds(tasks)
    ensures ProgressWaits(PassedTasks(tasks)) <==> DependenciesKnown(tasks)
  {
    var passed := PassedTasks(tasks);
    forall d ensures StatusOf(passed, d) == Some(TaskPass) <==> d in Known(tasks) { PassedLookup(tasks, d); }
    if ProgressWaits(passed) {
      forall t, d | t in tasks && d in t.dependsOn ensures d in Known(tasks) {
        PassedHas(tasks, t);
        assert !Incomplete(passed, t.(status := TaskPass).dependsOn);
      }
    }
    if DependenciesKnown(tasks) {
      forall u | u in passed ensures !Incomplete(passed, u.dependsOn) {
        var t := PassedRecord(tasks, u);
      }
    }
  }

  /** With everything passed, the graph checks come down to the shape of the graph. */
  lemma PassedGraphIff(p: Pack)
    requires UniqueIds(p.tasks) && Distinct(CaseIds(p.cases)) && CasesPassable(p.cases)
    ensures GraphConsistent(AllPassed(p)) <==>
            ReadyGroups.DependencyListsValid(p.tasks) && DependenciesKnown(p.tasks) && TestCasesKnown(p)
  {
    var q := AllPassed(p);
    PassedLookup(p.tasks, "");
    PassedCaseIds(p);
    forall t | t in p.tasks ensures t.(status := TaskPass) in q.tasks { PassedHas(p.tasks, t); }
    forall u | u in q.tasks ensures exists t :: t in p.tasks && u == t.(status := TaskPass) {
      var t := PassedRecord(p.tasks, u);
    }
    forall d ensures StatusOf(q.tasks, d) == Some(TaskPass) <==> d in Known(p.tasks) { PassedLookup(p.tasks, d); }
    PassedProgressIff(p.tasks);
  }

  /** The passed rows are proper exactly when the rows could be completed, and then name the same tasks. */
  lemma PassedRowsIff(rows: seq<Row>)
    requires NotAnObject !in rows
    ensures WellFormed(PassedRows(rows)) <==> Completable(rows)
    ensures Completable(rows) ==>
              && RowIds(PassedRows(rows)) == NamedIds(rows)
              && (forall i :: 0 <= i < |rows| ==> PassedRows(rows)[i].status == Pass)
              && (rows == [] ==> Elements(NamedIds(rows)) == {})
              && (rows != [] ==> Summarize(RowStatuses(PassedRows(rows))) == Pass)
  {
    forall i | 0 <= i < |rows| ensures PassedRows(rows)[i].Row? <==> rows[i].Row? || rows[i].NoStatusRow? {
      assert rows[i] in rows;
    }
  }

  lemma PassedRowsAllowed(tasks: seq<Task>, c: Case)
    requires Passable(c) && c.rows.List?
    ensures RowsAllowed(PassedTasks(tasks), PassedCase(c))
  {
    var rows := c.rows.value;
    forall r, u | r in PassedRows(rows) && r.Row? && u in PassedTasks(tasks)
      ensures ResultAllowed(PassedTasks(tasks), u, r.status)
    {
      var t := PassedRecord(tasks, u);
      var i :| 0 <= i < |rows| && PassedRows(rows)[i] == r;
      assert ResultOf(r) == Some(Pass);
    }
  }

  lemma PassedCaseIff(tasks: seq<Task>, c: Case)
    requires UniqueIds(tasks) && Passable(c)
    ensures CaseAccepted(PassedTasks(tasks), PassedCase(c)) <==> RowsNameOwners(tasks, c)
  {
    forall a ensures a in Owners(PassedTasks(tasks), c.id) <==> a in Owners(tasks, c.id) { PassedLookup(tasks, a); }
    assert Owners(PassedTasks(tasks), c.id) == Owners(tasks, c.id);
    if c.rows.List? {
      PassedRowsAllowed(tasks, c);
      PassedRowsIff(c.rows.value);
    }
  }

  lemma PassedCaseAt(p: Pack, i: nat)
    requires Distinct(CaseIds(p.cases)) && CasesPassable(p.cases) && i < |p.cases|
    ensures Passable(p.cases[i]) && AllPassed(p).cases[i] == PassedCase(p.cases[i])
  {
    forall j | i < j < |p.cases| ensures p.cases[j].id != p.cases[i].id {
      assert CaseIds(p.cases)[i] != CaseIds(p.cases)[j];
    }
  }

  lemma PassedCasesIff(p: Pack)
    requires CasesPassable(p.cases)
    requires forall i :: 0 <= i < |p.cases| ==>
               (CaseAccepted(AllPassed(p).tasks, AllPassed(p).cases[i]) <==> RowsNameOwners(p.tasks, p.cases[i]))
    ensures (forall c :: c in AllPassed(p).cases ==> CaseAccepted(AllPassed(p).tasks, c)) <==>
            (forall c :: c in p.cases ==> RowsNameOwners(p.tasks, c))
  {
  }

  /** Main result: of the packs `all_pass` goes through, it makes the structurally sound ones consistent. */
  lemma AllPassedConsistentIff(p: Pack)
    requires CasesPassable(p.cases)
    ensures Consistent(AllPassed(p)) <==> Structured(p)
    ensures AllTasksPass(AllPassed(p).tasks)
  {
    var q := AllPassed(p);
    forall u | u in q.tasks ensures u.status == TaskPass { var t := PassedRecord(p.tasks, u); }
    assert TaskIds(q.tasks) == TaskIds(p.tasks);
    PassedCaseIds(p);
    if UniqueIds(p.tasks) && Distinct(CaseIds(p.cases)) {
      PassedGraphIff(p);
      forall i | 0 <= i < |p.cases|
        ensures CaseAccepted(q.tasks, q.cases[i]) <==> RowsNameOwners(p.tasks, p.cases[i])
      {
        PassedCaseAt(p, i);
        PassedCaseIff(p.tasks, p.cases[i]);
      }
      PassedCasesIff(p);
    }
  }

  /** The fixtures' pipeline in one statement: pass everything, then move some tasks. */
  lemma PassThenMove(p: Pack, statuses: map<Id, TaskStatus>)
    requires CasesPassable(p.cases) && Structured(p) && statuses.Keys <= Known(p.tasks)
    ensures CasesResettable(AllPassed(p).cases, BlockedBy(AllPassed(p).tasks, statuses))
    ensures Consistent(Moved(AllPassed(p), statuses)) <==> MoveAllowed(AllPassed(p), statuses)
  {
    AllPassedConsistentIff(p);
    assert TaskIds(AllPassed(p).tasks) == TaskIds(p.tasks);
    MovedConsistentIff(AllPassed(p), statuses);
  }

  // ---------------------------------------------------------------- a board the move breaks

  /** One task that passed its one case. */
  const SMALL_BOARD :=
    Pack([Task("P01", "owner", [], TaskPass, ["A01"])], [Case("A01", Pass, ["P01"], List([Row("P01", Pass)]))], Pass)

  lemma SmallBoardIsConsistent(p: Pack)
    requires p == SMALL_BOARD
    ensures Consistent(p) && AllTasksPass(p.tasks) && Known(p.tasks) == {"P01"} && CasesOf(p.tasks, "P01") == ["A01"]
  {
    var t, c := p.tasks[0], p.cases[0];
    assert TaskIds(p.tasks) == ["P01"] && CaseIds(p.cases) == ["A01"] && CaseStatuses(p.cases) == [Pass];
    UniqueLookup(p.tasks, t);
    assert Owners(p.tasks, "A01") == {"P01"};
    assert RowIds(c.rows.value) == ["P01"] && RowStatuses(c.rows.value) == [Pass];
    assert CaseAccepted(p.tasks, c);
  }

  /** Moving its task back to NOT_STARTED leaves the PASS row behind, and the board is refused. */
  lemma MoveLeavesStaleResult()
    ensures var p, statuses := SMALL_BOARD, map["P01" := NotStarted];
            && Consistent(p) && CasesResettable(p.cases, BlockedBy(p.tasks, statuses))
            && !Consistent(Moved(p, statuses))
  {
    var p, statuses: map<Id, TaskStatus> := SMALL_BOARD, map["P01" := NotStarted];
    SmallBoardIsConsistent(p);
    assert ForbidsPass(p.tasks, statuses, "P01");
    MovedConsistentIff(p, statuses);
  }
}
