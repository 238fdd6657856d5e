/**
 The whole status verdict said over the bare records: which record has which field, with no lookup by
 id, no dictionary and no summary function. Acceptance by the checks is the same thing.
 */
module BoardRecords {
  import opened Sequences
  import opened Board
  import opened Summary
  import opened StatusChecks

  ghost predicate Passed(p: Pack, d: Id) {
    exists u :: u in p.tasks && u.id == d && u.status == TaskPass
  }

  ghost predicate Owns(p: Pack, a: Id, caseId: Id) {
    exists t :: t in p.tasks && t.id == a && caseId in t.testCases
  }

  ghost predicate DistinctIds(p: Pack) {
    && (forall i, j :: 0 <= i < j < |p.tasks| ==> p.tasks[i].id != p.tasks[j].id)
    && (forall i, j :: 0 <= i < j < |p.cases| ==> p.cases[i].id != p.cases[j].id)
  }

  /** A task that is neither untouched nor blocked has only passed dependencies. */
  ghost predicate TaskFits(p: Pack, t: Task) {
    && t.status in {NotStarted, Ready, Running, Review, TaskPass, TaskFail, TaskBlocked}
    && (forall i, j :: 0 <= i < j < |t.dependsOn| ==> t.dependsOn[i] != t.dependsOn[j])
    && (forall c :: c in t.testCases ==> exists k :: 0 <= k < |p.cases| && p.cases[k].id == c)
    && (t.status !in {NotStarted, TaskBlocked} ==> forall d :: d in t.dependsOn ==> Passed(p, d))
  }

  /** What the status of a task admits as one of its results. */
  ghost predicate ResultFits(p: Pack, t: Task, result: CaseStatus) {
    && (t.status in {NotStarted, Ready} ==> result == NotRun)
    && (t.status == TaskBlocked && result != NotRun ==> forall d :: d in t.dependsOn ==> Passed(p, d))
    && (t.status == Review ==> result != NotRun)
    && (t.status == TaskPass ==> result == Pass)
  }

  ghost predicate RowsFitTasks(p: Pack, rows: seq<Row>) {
    forall r, t :: r in rows && r.Row? && t in p.tasks && t.id == r.taskId ==> ResultFits(p, t, r.status)
  }

  /** One well-shaped row for each task that owns the case, and for no other. */
  ghost predicate RowsMatchOwners(p: Pack, caseId: Id, rows: seq<Row>) {
    && (forall r :: r in rows ==> r.Row? && r.status in {NotRun, Pass, Fail, Blocked})
    && (forall i, j :: 0 <= i < j < |rows| && rows[i].Row? && rows[j].Row? ==> rows[i].taskId != rows[j].taskId)
    && (forall a :: Owns(p, a, caseId) <==> exists r :: r in rows && r.Row? && r.taskId == a)
  }

  ghost predicate HasResult(rows: seq<Row>, s: CaseStatus) {
    exists r :: r in rows && r.Row? && r.status == s
  }

  /** FAIL over BLOCKED over unanimous PASS over NOT_RUN. */
  ghost predicate StatusFitsRows(s: CaseStatus, rows: seq<Row>) {
    && (s == Fail <==> HasResult(rows, Fail))
    && (s == Blocked <==> HasResult(rows, Blocked) && !HasResult(rows, Fail))
    && (s == Pass <==> rows != [] && forall r :: r in rows ==> r.Row? && r.status == Pass)
    && s in {NotRun, Pass, Fail, Blocked}
  }

  ghost predicate CaseFits(p: Pack, c: Case) {
    && c.rows.List? && c.rows.value != []
    && RowsMatchOwners(p, c.id, c.rows.value)
    && RowsFitTasks(p, c.rows.value)
    && StatusFitsRows(c.status, c.rows.value)
    && (forall a :: a in c.tasks <==> Owns(p, a, c.id))
  }

  ghost predicate HasCase(p: Pack, s: CaseStatus) {
    exists c :: c in p.cases && c.status == s
  }

  ghost predicate ManifestFits(p: Pack) {
    && (p.manifestStatus == Fail <==> HasCase(p, Fail))
    && (p.manifestStatus == Blocked <==> HasCase(p, Blocked) && !HasCase(p, Fail))
    && (p.manifestStatus == Pass <==> p.cases != [] && forall c :: c in p.cases ==> c.status == Pass)
    && p.manifestStatus in {NotRun, Pass, Fail, Blocked}
  }

  // ---------------------------------------------------------------- part by part

  lemma IdsIff(p: Pack)
    ensures DistinctIds(p) <==> UniqueIds(p.tasks) && Distinct(CaseIds(p.cases))
  {
    var ids, cases := TaskIds(p.tasks), CaseIds(p.cases);
    if UniqueIds(p.tasks) && Distinct(cases) {
      forall i, j | 0 <= i < j < |p.tasks| ensures p.tasks[i].id != p.tasks[j].id { assert ids[i] != ids[j]; }
      forall i, j | 0 <= i < j < |p.cases| ensures p.cases[i].id != p.cases[j].id { assert cases[i] != cases[j]; }
    }
  }

  lemma PassedIff(p: Pack, d: Id)
    requires UniqueIds(p.tasks)
    ensures Passed(p, d) <==> StatusOf(p.tasks, d) == Some(TaskPass)
  {
    if u :| u in p.tasks && u.id == d && u.status == TaskPass { UniqueLookup(p.tasks, u); }
  }

  lemma IncompleteIff(p: Pack, t: Task)
    requires UniqueIds(p.tasks)
    ensures Incomplete(p.tasks, t.dependsOn) <==> !(forall d :: d in t.dependsOn ==> Passed(p, d))
  {
    forall d ensures Passed(p, d) <==> StatusOf(p.tasks, d) == Some(TaskPass) { PassedIff(p, d); }
  }

  lemma OwnsIff(p: Pack, a: Id, caseId: Id)
    requires UniqueIds(p.tasks)
    ensures Owns(p, a, caseId) <==> a in StatusChecks.Owners(p.tasks, caseId)
  {
    if t :| t in p.tasks && t.id == a && caseId in t.testCases {
      UniqueLookup(p.tasks, t);
      RecordIsKnown(p.tasks, t);
    }
  }

  lemma CaseIdIff(p: Pack, id: Id)
    ensures id in CaseIds(p.cases) <==> exists k :: 0 <= k < |p.cases| && p.cases[k].id == id
  {
    if k :| 0 <= k < |p.cases| && p.cases[k].id == id { assert CaseIds(p.cases)[k] == id; }
  }

  ghost predicate TasksFit(p: Pack) {
    forall t :: t in p.tasks ==> TaskFits(p, t)
  }

  lemma TaskIff(p: Pack, t: Task)
    requires UniqueIds(p.tasks)
    ensures TaskFits(p, t) <==>
            && !t.status.UndocumentedTaskStatus? && Distinct(t.dependsOn)
            && (forall c :: c in t.testCases ==> c in CaseIds(p.cases))
            && (InProgress(t.status) ==> !Incomplete(p.tasks, t.dependsOn))
  {
    IncompleteIff(p, t);
    forall c ensures c in CaseIds(p.cases) <==> exists k :: 0 <= k < |p.cases| && p.cases[k].id == c {
      CaseIdIff(p, c);
    }
  }

  /** The graph part of the verdict. */
  lemma GraphIff(p: Pack)
    ensures GraphConsistent(p) <==> DistinctIds(p) && TasksFit(p)
  {
    IdsIff(p);
    if UniqueIds(p.tasks) {
      forall t { TaskIff(p, t); }
    }
  }

  lemma ResultIff(p: Pack, t: Task, result: CaseStatus)
    requires UniqueIds(p.tasks)
    ensures ResultAllowed(p.tasks, t, result) <==> ResultFits(p, t, result)
  {
    IncompleteIff(p, t);
  }

  lemma RowIdIff(rows: seq<Row>, a: Id)
    requires WellFormed(rows)
    ensures a in Elements(RowIds(rows)) <==> exists r :: r in rows && r.Row? && r.taskId == a
  {
    if a in Elements(RowIds(rows)) { var r := RowOf(rows, a); }
    if r :| r in rows && r.Row? && r.taskId == a {
      var i :| 0 <= i < |rows| && rows[i] == r;
      assert RowIds(rows)[i] == a;
    }
  }

  lemma RowShapesIff(rows: seq<Row>)
    ensures (forall r :: r in rows ==> r.Row? && r.status in {NotRun, Pass, Fail, Blocked}) <==>
            WellFormed(rows) && forall i :: 0 <= i < |rows| ==> Documented(rows[i].status)
  {
    if WellFormed(rows) && forall i :: 0 <= i < |rows| ==> Documented(rows[i].status) {
      forall r | r in rows ensures r.Row? && r.status in {NotRun, Pass, Fail, Blocked} {
        var i :| 0 <= i < |rows| && rows[i] == r;
        assert Documented(rows[i].status);
      }
    }
  }

  lemma RowIdsDistinctIff(rows: seq<Row>)
    requires WellFormed(rows)
    ensures Distinct(RowIds(rows)) <==> forall i, j :: 0 <= i < j < |rows| ==> rows[i].taskId != rows[j].taskId
  {
    var ids := RowIds(rows);
    if Distinct(ids) {
      forall i, j | 0 <= i < j < |rows| ensures rows[i].taskId != rows[j].taskId { assert ids[i] != ids[j]; }
    }
  }

  lemma RowsIff(p: Pack, caseId: Id, rows: seq<Row>)
    requires UniqueIds(p.tasks)
    ensures RowsExact(StatusChecks.Owners(p.tasks, caseId), rows) <==> RowsMatchOwners(p, caseId, rows)
  {
    var owners := StatusChecks.Owners(p.tasks, caseId);
    RowShapesIff(rows);
    forall a ensures Owns(p, a, caseId) <==> a in owners { OwnsIff(p, a, caseId); }
    if WellFormed(rows) {
      RowIdsDistinctIff(rows);
      forall a ensures a in Elements(RowIds(rows)) <==> exists r :: r in rows && r.Row? && r.taskId == a {
        RowIdIff(rows, a);
      }
      if RowsMatchOwners(p, caseId, rows) {
        assert Elements(RowIds(rows)) == owners;
      }
    }
  }

  lemma ResultsIff(rows: seq<Row>, s: CaseStatus)
    requires WellFormed(rows)
    ensures HasResult(rows, s) <==> s in RowStatuses(rows)
  {
    if r :| r in rows && r.Row? && r.status == s {
      var i :| 0 <= i < |rows| && rows[i] == r;
      assert RowStatuses(rows)[i] == s;
    }
    if s in RowStatuses(rows) {
      var i :| 0 <= i < |rows| && RowStatuses(rows)[i] == s;
      assert rows[i] in rows;
    }
  }

  lemma StatusIff(c: Case)
    requires c.rows.List? && WellFormed(c.rows.value)
    ensures CaseSummaryAgrees(c) <==> StatusFitsRows(c.status, c.rows.value)
  {
    var rows := c.rows.value;
    SummaryMeans(RowStatuses(rows));
    forall s ensures HasResult(rows, s) <==> s in RowStatuses(rows) { ResultsIff(rows, s); }
    assert (forall r :: r in rows ==> r.Row? && r.status == Pass) <==>
           (forall s :: s in RowStatuses(rows) ==> s == Pass) by {
      if forall s :: s in RowStatuses(rows) ==> s == Pass {
        forall r | r in rows ensures r.Row? && r.status == Pass { assert HasResult(rows, r.status); }
      }
    }
  }

  lemma RowsAllowedIff(p: Pack, c: Case)
    requires UniqueIds(p.tasks) && c.rows.List?
    ensures RowsAllowed(p.tasks, c) <==> RowsFitTasks(p, c.rows.value)
  {
    forall t, s ensures ResultAllowed(p.tasks, t, s) <==> ResultFits(p, t, s) { ResultIff(p, t, s); }
  }

  lemma ListedIff(p: Pack, c: Case)
    requires UniqueIds(p.tasks)
    ensures Elements(c.tasks) == StatusChecks.Owners(p.tasks, c.id) <==>
            forall a :: a in c.tasks <==> Owns(p, a, c.id)
  {
    var owners := StatusChecks.Owners(p.tasks, c.id);
    forall a ensures Owns(p, a, c.id) <==> a in owners { OwnsIff(p, a, c.id); }
    if Elements(c.tasks) == owners {
      forall a ensures a in c.tasks <==> Owns(p, a, c.id) { assert a in c.tasks <==> a in Elements(c.tasks); }
    }
  }

  lemma CaseIff(p: Pack, c: Case)
    requires UniqueIds(p.tasks)
    ensures CaseAccepted(p.tasks, c) <==> CaseFits(p, c)
  {
    if c.rows.List? {
      var rows := c.rows.value;
      RowsIff(p, c.id, rows);
      RowsAllowedIff(p, c);
      ListedIff(p, c);
      if RowsMatchOwners(p, c.id, rows) {
        StatusIff(c);
        var ids := RowIds(rows);
        assert rows == [] ==> Elements(ids) == {};
        assert rows != [] ==> ids[0] in Elements(ids);
      }
    }
  }

  lemma ManifestIff(p: Pack)
    ensures p.manifestStatus == Summarize(CaseStatuses(p.cases)) <==> ManifestFits(p)
  {
    var statuses := CaseStatuses(p.cases);
    SummaryMeans(statuses);
    forall s ensures HasCase(p, s) <==> s in statuses {
      if c :| c in p.cases && c.status == s {
        var i :| 0 <= i < |p.cases| && p.cases[i] == c;
        assert statuses[i] == s;
      }
    }
    assert (forall c :: c in p.cases ==> c.status == Pass) <==> (forall s :: s in statuses ==> s == Pass) by {
      if forall s :: s in statuses ==> s == Pass {
        forall c | c in p.cases ensures c.status == Pass { assert HasCase(p, c.status); }
      }
    }
  }

  ghost predicate CasesFit(p: Pack) {
    forall c :: c in p.cases ==> CaseFits(p, c)
  }

  /** Main result: the checks accept a board exactly when its records fit together. */
  lemma VerdictOverRecords(p: Pack)
    ensures Consistent(p) <==> DistinctIds(p) && TasksFit(p) && CasesFit(p) && ManifestFits(p)
  {
    GraphIff(p);
    ManifestIff(p);
    if UniqueIds(p.tasks) {
      forall c { CaseIff(p, c); }
    }
  }

  // ---------------------------------------------------------------- consequences

  /** Work that has begun stands on passed dependencies only. */
  lemma StartedTaskHasPassedDependencies(p: Pack, t: Task, d: Id)
    requires Consistent(p) && t in p.tasks && d in t.dependsOn
    requires t.status != NotStarted && t.status != TaskBlocked
    ensures StatusOf(p.tasks, d) == Some(TaskPass)
  {
    VerdictOverRecords(p);
    PassedIff(p, d);
  }

  /** The task `b` waits for `a`, which has not started; each owns one case, and nothing has run. */
  function WaitingBoard(a: Id, b: Id, x: Id, y: Id, status: TaskStatus): Pack {
    Pack([Task(a, "owner", [], NotStarted, [x]), Task(b, "owner", [a], status, [y])],
         [Case(x, NotRun, [a], List([Row(a, NotRun)])), Case(y, NotRun, [b], List([Row(b, NotRun)]))],
         NotRun)
  }

  lemma WaitingCaseFits(p: Pack, t: Task, c: Case)
    requires t in p.tasks && t.status in {NotStarted, Ready, TaskBlocked}
    requires c == Case(c.id, NotRun, [t.id], List([Row(t.id, NotRun)]))
    requires forall u :: u in p.tasks ==> (c.id in u.testCases <==> u == t) && (u.id == t.id ==> u == t)
    ensures CaseFits(p, c)
  {
    var rows := c.rows.value;
    assert rows[0] == Row(t.id, NotRun) && rows[0] in rows;
    assert c.tasks[0] == t.id;
    assert Owns(p, t.id, c.id);
  }

  /** Nothing else is wrong with that board: it is accepted exactly while `b` is untouched or blocked. */
  lemma ReadyOverUnfinishedRefused(a: Id, b: Id, x: Id, y: Id, status: TaskStatus)
    requires a != b && x != y && status in {NotStarted, Ready, TaskBlocked}
    ensures Consistent(WaitingBoard(a, b, x, y, status)) <==> status != Ready
  {
    var p := WaitingBoard(a, b, x, y, status);
    var s, t := p.tasks[0], p.tasks[1];
    VerdictOverRecords(p);
    WaitingCaseFits(p, s, p.cases[0]);
    WaitingCaseFits(p, t, p.cases[1]);
    assert t.dependsOn[0] == a && !Passed(p, a);
    assert p.cases[0].id == x && p.cases[1].id == y;
    assert TaskFits(p, s);
    assert TaskFits(p, t) <==> status != Ready;
    assert ManifestFits(p) by { assert p.cases[0] in p.cases; }
  }
}
