/** What a move does to each record of any board, whatever its ids and rows look like. */
module MoveOutcomes {
  import opened Sequences
  import opened Board
  import opened TaskGraph
  import opened Summary
  import opened StatusChecks
  import opened TaskStates

  // ---------------------------------------------------------------- tasks

  /** A chain of dependencies leads from `a` to a task that was explicitly given a status other than PASS. */
  ghost predicate Downstream(tasks: seq<Task>, statuses: map<Id, TaskStatus>, a: Id, chain: seq<Id>) {
    && IsChain(tasks, chain) && |chain| >= 2 && chain[0] == a
    && chain[|chain| - 1] in statuses && statuses[chain[|chain| - 1]] != TaskPass
  }

  ghost predicate HeldUp(tasks: seq<Task>, statuses: map<Id, TaskStatus>, a: Id) {
    a !in statuses && exists chain :: Downstream(tasks, statuses, a, chain)
  }

  lemma HeldUpIff(tasks: seq<Task>, statuses: map<Id, TaskStatus>, a: Id)
    ensures HeldUp(tasks, statuses, a) <==> a in BlockedBy(tasks, statuses)
  {
    var roots := NonPass(statuses);
    if HeldUp(tasks, statuses, a) {
      var chain :| Downstream(tasks, statuses, a, chain);
      assert ChainFrom(tasks, a, chain);
      assert DependsOn(tasks, a, chain[|chain| - 1]);
      assert DependsDirectly(tasks, chain[0], chain[1]);
      var t :| t in tasks && t.id == chain[0] && chain[1] in t.dependsOn;
      RecordIsKnown(tasks, t);
    }
    if a in BlockedBy(tasks, statuses) {
      var r :| r in roots && DependsOn(tasks, a, r);
      var chain :| ChainFrom(tasks, a, chain) && |chain| >= 2 && chain[|chain| - 1] == r;
      assert Downstream(tasks, statuses, a, chain);
    }
  }

  /** No later record has the same id; the dictionaries of the code hold these records. */
  ghost predicate LastTask(tasks: seq<Task>, i: nat) {
    i < |tasks| && forall j :: i < j < |tasks| ==> tasks[j].id != tasks[i].id
  }

  /** Main result: a move changes the status of the last record of an id, and nothing else of any record. */
  lemma MovedTaskIs(tasks: seq<Task>, statuses: map<Id, TaskStatus>, i: nat)
    requires i < |tasks|
    ensures |MovedTasks(tasks, statuses)| == |tasks|
    ensures var before, after := tasks[i], MovedTasks(tasks, statuses)[i];
            && after == before.(status := after.status)
            && (!LastTask(tasks, i) ==> after == before)
            && (LastTask(tasks, i) && before.id in statuses ==> after.status == statuses[before.id])
            && (LastTask(tasks, i) && HeldUp(tasks, statuses, before.id) ==> after.status == TaskBlocked)
            && (before.id !in statuses && !HeldUp(tasks, statuses, before.id) ==> after == before)
  {
    HeldUpIff(tasks, statuses, tasks[i].id);
    var first := Assigned(tasks, statuses);
    assert forall j :: 0 <= j < |tasks| ==> first[j].id == tasks[j].id;
    assert IsLast(tasks, i) <==> IsLast(first, i);
  }

  // ---------------------------------------------------------------- rows and cases

  /** What the update needs of a row, shape by shape. */
  lemma RowResettableIff(r: Row, blocked: set<Id>)
    ensures RowResettable(r, blocked) <==>
            match r
            case Row(_, _) => true
            case NoStatusRow(a) => a in blocked
            case NoTaskRow(_) => false
            case ExtraKeysRow(a, s) => a.Some? && (a.value in blocked || s.Some?)
            case NotAnObject => false
  {
  }

  /** A status is written over the old one or added, and no other key is touched. */
  lemma WithResultIs(r: Row, s: CaseStatus)
    requires !r.NotAnObject?
    ensures match r
            case Row(a, _) => WithResult(r, s) == Row(a, s)
            case NoStatusRow(a) => WithResult(r, s) == Row(a, s)
            case NoTaskRow(_) => WithResult(r, s) == NoTaskRow(Some(s))
            case ExtraKeysRow(a, _) => WithResult(r, s) == ExtraKeysRow(a, Some(s))
            case NotAnObject => true
  {
  }

  ghost predicate HasResult(rows: seq<Row>, s: CaseStatus) {
    exists i :: 0 <= i < |rows| && ResultOf(rows[i]) == Some(s)
  }

  /** The status a case gets from its rows: FAIL over BLOCKED over unanimous PASS over NOT_RUN. */
  ghost predicate Summarizes(s: CaseStatus, rows: seq<Row>) {
    && (s == Fail <==> HasResult(rows, Fail))
    && (s == Blocked <==> HasResult(rows, Blocked) && !HasResult(rows, Fail))
    && (s == Pass <==> rows != [] && forall i :: 0 <= i < |rows| ==> ResultOf(rows[i]) == Some(Pass))
    && s in {NotRun, Pass, Fail, Blocked}
  }

  lemma SummaryOfRows(rows: seq<Row>)
    requires forall i :: 0 <= i < |rows| ==> ResultOf(rows[i]).Some?
    ensures Summarizes(Summarize(ResultsIn(rows)), rows)
  {
    var results := ResultsIn(rows);
    SummaryMeans(results);
    forall s ensures s in results <==> HasResult(rows, s) {
      if s in results {
        var i :| 0 <= i < |results| && results[i] == s;
        assert ResultOf(rows[i]) == Some(s);
      }
      if i :| 0 <= i < |rows| && ResultOf(rows[i]) == Some(s) { assert results[i] == s; }
    }
    if forall i :: 0 <= i < |rows| ==> ResultOf(rows[i]) == Some(Pass) {
      forall s | s in results ensures s == Pass {
        var i :| 0 <= i < |rows| && ResultOf(rows[i]) == Some(s);
      }
    }
    if forall s :: s in results ==> s == Pass {
      forall i | 0 <= i < |rows| ensures ResultOf(rows[i]) == Some(Pass) { assert results[i] in results; }
    }
  }

  /** Row by row: NOT_RUN where the task is held up, and the row as it was where it is not. */
  ghost predicate RowMoved(tasks: seq<Task>, statuses: map<Id, TaskStatus>, before: Row, after: Row) {
    && TaskOf(after) == TaskOf(before) && TaskOf(before).Some?
    && if HeldUp(tasks, statuses, TaskOf(before).value) then ResultOf(after) == Some(NotRun) else after == before
  }

  ghost predicate LastCase(cases: seq<Case>, i: nat) {
    i < |cases| && forall j :: i < j < |cases| ==> cases[j].id != cases[i].id
  }

  ghost predicate RowsMoved(tasks: seq<Task>, statuses: map<Id, TaskStatus>, before: seq<Row>, after: seq<Row>) {
    |after| == |before| && forall j :: 0 <= j < |before| ==> RowMoved(tasks, statuses, before[j], after[j])
  }

  lemma ResetRowsMoved(tasks: seq<Task>, statuses: map<Id, TaskStatus>, rows: seq<Row>)
    requires forall i :: 0 <= i < |rows| ==> RowResettable(rows[i], BlockedBy(tasks, statuses))
    ensures RowsMoved(tasks, statuses, rows, ResetRows(rows, BlockedBy(tasks, statuses)))
  {
    var after := ResetRows(rows, BlockedBy(tasks, statuses));
    forall j | 0 <= j < |rows| ensures RowMoved(tasks, statuses, rows[j], after[j]) {
      HeldUpIff(tasks, statuses, TaskOf(rows[j]).value);
    }
  }

  /** Main result: a move resets the rows of held-up tasks, keeps the others, and summarises each case anew. */
  lemma MovedCaseIs(p: Pack, statuses: map<Id, TaskStatus>, i: nat)
    requires CasesResettable(p.cases, BlockedBy(p.tasks, statuses)) && i < |p.cases|
    ensures |Moved(p, statuses).cases| == |p.cases|
    ensures var before, after := p.cases[i], Moved(p, statuses).cases[i];
            && after == before.(status := after.status, rows := after.rows)
            && (!LastCase(p.cases, i) ==> after == before)
            && (LastCase(p.cases, i) && before.rows.List? ==>
                  && after.rows.List? && RowsMoved(p.tasks, statuses, before.rows.value, after.rows.value)
                  && Summarizes(after.status, after.rows.value))
            && (LastCase(p.cases, i) && !before.rows.List? ==> after.rows == before.rows && after.status == NotRun)
  {
    var c, blocked := p.cases[i], BlockedBy(p.tasks, statuses);
    if IsLastCase(p.cases, i) {
      assert Resettable(c, blocked);
      if c.rows.List? {
        ResetRowsMoved(p.tasks, statuses, c.rows.value);
        SummaryOfRows(ResetRows(c.rows.value, blocked));
      }
    }
  }

  // ---------------------------------------------------------------- lookups

  lemma {:induction false} LookupIsLast(tasks: seq<Task>, i: nat)
    requires i < |tasks| && IsLast(tasks, i)
    ensures TaskById(tasks, tasks[i].id) == Some(tasks[i])
  {
    var n := |tasks| - 1;
    if i < n {
      LookupIsLast(tasks[..n], i);
    }
  }

  /** Read back through the dictionary, an assignment gives each named id its new status and no other id one. */
  lemma AssignedLookup(tasks: seq<Task>, updates: map<Id, TaskStatus>, a: Id)
    ensures StatusOf(Assigned(tasks, updates), a) ==
            if a in Known(tasks) && a in updates then Some(updates[a]) else StatusOf(tasks, a)
  {
    var r := Assigned(tasks, updates);
    assert TaskIds(r) == TaskIds(tasks);
    if a in Known(tasks) {
      var i := LastIndex(tasks, a);
      LookupIsLast(tasks, i);
      assert IsLast(r, i);
      LookupIsLast(r, i);
    }
  }
}
