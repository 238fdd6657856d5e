/**
 The validator's status and assignment checks. The code works through dictionaries keyed by task and
 (case, task); `Consistent` says what acceptance means row by row, and `StatusVerdict` meets it exactly.
 */
module StatusChecks {
  import opened Sequences
  import opened Board
  import opened Summary
  import Ordering
  import ReadyGroups

  datatype Pack = Pack(tasks: seq<Task>, cases: seq<Case>, manifestStatus: CaseStatus)

  datatype Problem =
    | NotAList | BadShape | UnexpectedTask | DuplicateTask | UndocumentedStatus | MissingTasks

  datatype AssignmentError = AssignmentError(caseId: Id, problem: Problem)

  // ---------------------------------------------------------------- lookups

  function CaseIds(cases: seq<Case>): (ids: seq<Id>)
    ensures |ids| == |cases|
  {
    seq(|cases|, i requires 0 <= i < |cases| => cases[i].id)
  }

  function CaseStatuses(cases: seq<Case>): (statuses: seq<CaseStatus>)
    ensures |statuses| == |cases|
  {
    seq(|cases|, i requires 0 <= i < |cases| => cases[i].status)
  }

  function StatusOf(tasks: seq<Task>, a: Id): Option<TaskStatus> {
    var t := TaskById(tasks, a);
    if t.Some? then Some(t.value.status) else None
  }

  function CasesOf(tasks: seq<Task>, a: Id): seq<Id> {
    var t := TaskById(tasks, a);
    if t.Some? then t.value.testCases else []
  }

  function Owners(tasks: seq<Task>, caseId: Id): set<Id> {
    set a | a in Known(tasks) && caseId in CasesOf(tasks, a)
  }

  predicate WellFormed(rows: seq<Row>) {
    forall i :: 0 <= i < |rows| ==> rows[i].Row?
  }

  function RowIds(rows: seq<Row>): (ids: seq<Id>)
    requires WellFormed(rows)
    ensures |ids| == |rows|
  {
    seq(|rows|, i requires 0 <= i < |rows| => rows[i].taskId)
  }

  function RowStatuses(rows: seq<Row>): (statuses: seq<CaseStatus>)
    requires WellFormed(rows)
    ensures |statuses| == |rows|
  {
    seq(|rows|, i requires 0 <= i < |rows| => rows[i].status)
  }

  predicate Documented(s: CaseStatus) {
    !s.UndocumentedCaseStatus?
  }

  // ---------------------------------------------------------------- what acceptance means

  /** Well-shaped rows with documented statuses, each for a different task of `owners`. */
  predicate RowsFit(owners: set<Id>, rows: seq<Row>) {
    && WellFormed(rows)
    && (forall i :: 0 <= i < |rows| ==> Documented(rows[i].status))
    && Distinct(RowIds(rows)) && Elements(RowIds(rows)) <= owners
  }

  predicate RowsExact(owners: set<Id>, rows: seq<Row>) {
    RowsFit(owners, rows) && Elements(RowIds(rows)) == owners
  }

  predicate CaseExact(tasks: seq<Task>, c: Case) {
    c.rows.List? && RowsExact(Owners(tasks, c.id), c.rows.value)
  }

  predicate CaseSummaryAgrees(c: Case) {
    c.rows.List? && WellFormed(c.rows.value) && c.status == Summarize(RowStatuses(c.rows.value))
  }

  predicate Incomplete(tasks: seq<Task>, deps: seq<Id>) {
    exists d :: d in deps && StatusOf(tasks, d) != Some(TaskPass)
  }

  /** "Task progress waits for completed dependencies". */
  predicate ProgressWaits(tasks: seq<Task>) {
    forall t :: t in tasks && InProgress(t.status) ==> !Incomplete(tasks, t.dependsOn)
  }

  /** What a task's own status demands of one result recorded for it. */
  predicate ResultAllowed(tasks: seq<Task>, t: Task, result: CaseStatus) {
    match t.status
    case NotStarted => result == NotRun
    case Ready => result == NotRun
    case TaskBlocked => Incomplete(tasks, t.dependsOn) ==> result == NotRun
    case Review => result != NotRun
    case TaskPass => result == Pass
    case _ => true
  }

  predicate RowsAllowed(tasks: seq<Task>, c: Case) {
    c.rows.List? && forall r :: r in c.rows.value && r.Row? ==>
      forall t :: t in tasks && t.id == r.taskId ==> ResultAllowed(tasks, t, r.status)
  }

  predicate CaseAccepted(tasks: seq<Task>, c: Case) {
    && CaseExact(tasks, c) && CaseSummaryAgrees(c) && RowsAllowed(tasks, c)
    && Owners(tasks, c.id) != {} && Elements(c.tasks) == Owners(tasks, c.id)
  }

  predicate TestCasesKnown(p: Pack) {
    forall t, c :: t in p.tasks && c in t.testCases ==> c in CaseIds(p.cases)
  }

  predicate StatusesDocumented(tasks: seq<Task>) {
    forall t :: t in tasks ==> !t.status.UndocumentedTaskStatus?
  }

  predicate GraphConsistent(p: Pack) {
    && UniqueIds(p.tasks) && Distinct(CaseIds(p.cases))
    && ReadyGroups.DependencyListsValid(p.tasks)
    && StatusesDocumented(p.tasks)
    && TestCasesKnown(p)
    && ProgressWaits(p.tasks)
  }

  /** The whole verdict, row by row. */
  predicate Consistent(p: Pack) {
    && GraphConsistent(p)
    && (forall c :: c in p.cases ==> CaseAccepted(p.tasks, c))
    && p.manifestStatus == Summarize(CaseStatuses(p.cases))
  }

  // ---------------------------------------------------------------- the row and case loops

  /** The dictionary agrees with each of these rows. */
  predicate Holds(rows: seq<Row>, rowStatuses: map<Id, CaseStatus>) {
    forall r :: r in rows && r.Row? ==> r.taskId in rowStatuses && rowStatuses[r.taskId] == r.status
  }

  lemma FitExtends(owners: set<Id>, rows: seq<Row>, row: Row)
    ensures RowsFit(owners, rows + [row]) <==>
              && RowsFit(owners, rows) && row.Row? && Documented(row.status)
              && row.taskId in owners && row.taskId !in Elements(RowIds(rows))
    ensures RowsFit(owners, rows + [row]) ==>
              Elements(RowIds(rows + [row])) == Elements(RowIds(rows)) + {row.taskId}
  {
    var more := rows + [row];
    assert more[|rows|] == row;
    assert forall i :: 0 <= i < |rows| ==> rows[i] == more[i];
    if WellFormed(rows) && row.Row? {
      assert RowIds(more) == RowIds(rows) + [row.taskId];
      DistinctConcat(RowIds(rows), [row.taskId]);
      assert Elements(RowIds(more)) == Elements(RowIds(rows)) + {row.taskId};
    }
  }

  /** The loop over one case's rows; `rowStatuses` is the dictionary it fills. */
  method CheckRows(caseId: Id, owners: set<Id>, rows: seq<Row>)
    returns (errors: seq<AssignmentError>, rowStatuses: map<Id, CaseStatus>)
    ensures errors == [] <==> RowsExact(owners, rows)
    ensures errors == [] ==> rowStatuses.Keys == owners && Holds(rows, rowStatuses)
  {
    errors, rowStatuses := [], map[];
    var seen: set<Id> := {};
    for i := 0 to |rows|
      invariant seen <= owners
      invariant errors == [] <==> RowsFit(owners, rows[..i])
      invariant errors == [] ==> seen == Elements(RowIds(rows[..i])) && rowStatuses.Keys == seen
      invariant errors == [] ==> Holds(rows[..i], rowStatuses)
    {
      assert rows[..i + 1] == rows[..i] + [rows[i]];
      FitExtends(owners, rows[..i], rows[i]);
      match rows[i]
      case Row(taskId, status) =>
        if taskId !in owners {
          errors := errors + [AssignmentError(caseId, UnexpectedTask)];
        } else if taskId in seen {
          errors := errors + [AssignmentError(caseId, DuplicateTask)];
        } else {
          seen := seen + {taskId};
        }
        if !Documented(status) {
          errors := errors + [AssignmentError(caseId, UndocumentedStatus)];
        } else if taskId in owners && taskId !in rowStatuses {
          rowStatuses := rowStatuses[taskId := status];
        }
      case _ =>
        errors := errors + [AssignmentError(caseId, BadShape)];
    }
    assert rows[..|rows|] == rows;
    assert owners == seen + (owners - seen);
    if owners - seen != {} {
      errors := errors + [AssignmentError(caseId, MissingTasks)];
    }
  }

  ghost predicate HasRow(tasks: seq<Task>, cases: seq<Case>, caseId: Id, taskId: Id, status: CaseStatus) {
    exists c :: c in cases && CaseExact(tasks, c) && c.id == caseId && Row(taskId, status) in c.rows.value
  }

  /** `recorded` holds the result of every row of every exact case, and nothing else. */
  ghost predicate Recorded(tasks: seq<Task>, cases: seq<Case>, recorded: map<(Id, Id), CaseStatus>) {
    && (forall k :: k in recorded ==> HasRow(tasks, cases, k.0, k.1, recorded[k]))
    && (forall c, r :: c in cases && CaseExact(tasks, c) && r in c.rows.value ==> (c.id, r.taskId) in recorded)
  }

  lemma StatusesInAnyOrder(rows: seq<Row>, owners: set<Id>, rowStatuses: map<Id, CaseStatus>,
                           sorted: seq<Id>, statuses: seq<CaseStatus>)
    requires RowsExact(owners, rows) && rowStatuses.Keys == owners && Elements(sorted) == owners
    requires Holds(rows, rowStatuses)
    requires |statuses| == |sorted|
    requires forall i :: 0 <= i < |sorted| ==> sorted[i] in rowStatuses && statuses[i] == rowStatuses[sorted[i]]
    ensures Summarize(statuses) == Summarize(RowStatuses(rows))
  {
    var ids, wanted := RowIds(rows), RowStatuses(rows);
    forall s ensures s in statuses <==> s in wanted {
      if s in statuses {
        var i :| 0 <= i < |statuses| && statuses[i] == s;
        assert sorted[i] in Elements(sorted);
        var j :| 0 <= j < |ids| && ids[j] == sorted[i];
        assert rows[j] in rows && wanted[j] == s;
      }
      if s in wanted {
        var j :| 0 <= j < |wanted| && wanted[j] == s;
        assert rows[j] in rows && ids[j] in Elements(ids);
        var i :| 0 <= i < |sorted| && sorted[i] == ids[j];
        assert statuses[i] == s;
      }
    }
    SummaryByMembers(statuses, wanted);
  }

  /** The expected case status, taken in the order of the sorted owners. */
  method SummaryOf(owners: set<Id>, rowStatuses: map<Id, CaseStatus>, ghost rows: seq<Row>)
    returns (summary: CaseStatus)
    requires RowsExact(owners, rows) && rowStatuses.Keys == owners && Holds(rows, rowStatuses)
    ensures summary == Summarize(RowStatuses(rows))
  {
    var sorted := Ordering.SortedIds(owners);
    assert forall i :: 0 <= i < |sorted| ==> sorted[i] in Elements(sorted);
    var statuses := seq(|sorted|, i requires 0 <= i < |sorted| => rowStatuses[sorted[i]]);
    StatusesInAnyOrder(rows, owners, rowStatuses, sorted, statuses);
    summary := Summarize(statuses);
  }

  ghost predicate ResultsOf(tasks: seq<Task>, c: Case, results: map<(Id, Id), CaseStatus>) {
    if CaseExact(tasks, c) then
      && (forall k :: k in results ==> k.0 == c.id && Row(k.1, results[k]) in c.rows.value)
      && (forall r :: r in c.rows.value ==> (c.id, r.taskId) in results)
    else results == map[]
  }

  lemma ResultsAreRows(tasks: seq<Task>, c: Case, rowStatuses: map<Id, CaseStatus>,
                       results: map<(Id, Id), CaseStatus>)
    requires CaseExact(tasks, c) && rowStatuses.Keys == Owners(tasks, c.id)
    requires Holds(c.rows.value, rowStatuses)
    requires results == map a | a in rowStatuses :: (c.id, a) := rowStatuses[a]
    ensures ResultsOf(tasks, c, results)
  {
  }

  /** The body of the loop over cases: row errors, the summary verdict and the recorded results. */
  method CheckCase(tasks: seq<Task>, c: Case)
    returns (errors: seq<AssignmentError>, summaryAgrees: bool, results: map<(Id, Id), CaseStatus>)
    ensures errors == [] <==> CaseExact(tasks, c)
    ensures summaryAgrees <==> CaseExact(tasks, c) ==> CaseSummaryAgrees(c)
    ensures ResultsOf(tasks, c, results)
  {
    summaryAgrees, results := true, map[];
    match c.rows
    case List(rows) =>
      var owners := Owners(tasks, c.id);
      var rowStatuses;
      errors, rowStatuses := CheckRows(c.id, owners, rows);
      if errors == [] {
        var summary := SummaryOf(owners, rowStatuses, rows);
        results := map a | a in rowStatuses :: (c.id, a) := rowStatuses[a];
        ResultsAreRows(tasks, c, rowStatuses, results);
        summaryAgrees := c.status == summary;
      }
    case _ =>
      errors := [AssignmentError(c.id, NotAList)];
  }

  ghost predicate AllExact(tasks: seq<Task>, cases: seq<Case>) {
    forall c :: c in cases ==> CaseExact(tasks, c)
  }

  ghost predicate ExactSummariesAgree(tasks: seq<Task>, cases: seq<Case>) {
    forall c :: c in cases && CaseExact(tasks, c) ==> CaseSummaryAgrees(c)
  }

  lemma CasesGrow(tasks: seq<Task>, cases: seq<Case>, c: Case)
    ensures AllExact(tasks, cases + [c]) <==> AllExact(tasks, cases) && CaseExact(tasks, c)
    ensures ExactSummariesAgree(tasks, cases + [c]) <==>
            ExactSummariesAgree(tasks, cases) && (CaseExact(tasks, c) ==> CaseSummaryAgrees(c))
  {
  }

  lemma RecordedGrows(tasks: seq<Task>, cases: seq<Case>, c: Case,
                      recorded: map<(Id, Id), CaseStatus>, results: map<(Id, Id), CaseStatus>)
    requires Recorded(tasks, cases, recorded) && ResultsOf(tasks, c, results)
    ensures Recorded(tasks, cases + [c], recorded + results)
  {
  }

  /** The loop over all cases. */
  method CheckAssignments(tasks: seq<Task>, cases: seq<Case>)
    returns (errors: seq<AssignmentError>, summaryErrors: seq<Id>, recorded: map<(Id, Id), CaseStatus>)
    ensures errors == [] <==> AllExact(tasks, cases)
    ensures summaryErrors == [] <==> ExactSummariesAgree(tasks, cases)
    ensures Recorded(tasks, cases, recorded)
  {
    errors, summaryErrors, recorded := [], [], map[];
    for n := 0 to |cases|
      invariant errors == [] <==> AllExact(tasks, cases[..n])
      invariant summaryErrors == [] <==> ExactSummariesAgree(tasks, cases[..n])
      invariant Recorded(tasks, cases[..n], recorded)
    {
      var c := cases[n];
      assert cases[..n + 1] == cases[..n] + [c];
      var caseErrors, summaryAgrees, results := CheckCase(tasks, c);
      CasesGrow(tasks, cases[..n], c);
      RecordedGrows(tasks, cases[..n], c, recorded, results);
      errors := errors + caseErrors;
      if !summaryAgrees {
        summaryErrors := summaryErrors + [c.id];
      }
      recorded := recorded + results;
    }
    assert cases[..|cases|] == cases;
  }

  // ---------------------------------------------------------------- the checks over the dictionary

  predicate RecordedIs(recorded: map<(Id, Id), CaseStatus>, caseId: Id, a: Id, s: CaseStatus) {
    (caseId, a) in recorded && recorded[(caseId, a)] == s
  }

  predicate NotStartedCheck(tasks: seq<Task>, recorded: map<(Id, Id), CaseStatus>) {
    forall k :: k in recorded && StatusOf(tasks, k.1) in [Some(NotStarted), Some(Ready)] ==> recorded[k] == NotRun
  }

  predicate BlockedCheck(tasks: seq<Task>, recorded: map<(Id, Id), CaseStatus>) {
    forall t, c ::
      (t in tasks && t.status.TaskBlocked? && Incomplete(tasks, t.dependsOn) && c in CasesOf(tasks, t.id)) ==>
        RecordedIs(recorded, c, t.id, NotRun)
  }

  predicate ReviewCheck(tasks: seq<Task>, recorded: map<(Id, Id), CaseStatus>) {
    forall t, c :: t in tasks && t.status.Review? && c in CasesOf(tasks, t.id) ==>
                     (c, t.id) in recorded && !RecordedIs(recorded, c, t.id, NotRun)
  }

  predicate PassCheck(tasks: seq<Task>, recorded: map<(Id, Id), CaseStatus>) {
    forall t, c :: t in tasks && t.status.TaskPass? && c in CasesOf(tasks, t.id) ==>
                     RecordedIs(recorded, c, t.id, Pass)
  }

  function Covered(tasks: seq<Task>): set<Id> {
    set t, c | t in tasks && c in CasesOf(tasks, t.id) :: c
  }

  lemma SameCase(cases: seq<Case>, c: Case, d: Case)
    requires Distinct(CaseIds(cases)) && c in cases && d in cases && c.id == d.id
    ensures c == d
  {
    var i :| 0 <= i < |cases| && cases[i] == c;
    var j :| 0 <= j < |cases| && cases[j] == d;
    assert CaseIds(cases)[i] == CaseIds(cases)[j];
  }

  lemma SameRow(rows: seq<Row>, r: Row, q: Row)
    requires WellFormed(rows) && Distinct(RowIds(rows)) && r in rows && q in rows && r.taskId == q.taskId
    ensures r == q
  {
    var i :| 0 <= i < |rows| && rows[i] == r;
    var j :| 0 <= j < |rows| && rows[j] == q;
    assert RowIds(rows)[i] == RowIds(rows)[j];
  }

  lemma RowOf(rows: seq<Row>, a: Id) returns (r: Row)
    requires WellFormed(rows) && a in Elements(RowIds(rows))
    ensures r in rows && r.Row? && r.taskId == a
  {
    var i :| 0 <= i < |rows| && RowIds(rows)[i] == a;
    r := rows[i];
  }

  lemma RecordedValue(p: Pack, recorded: map<(Id, Id), CaseStatus>, c: Case, r: Row)
    requires Recorded(p.tasks, p.cases, recorded) && Distinct(CaseIds(p.cases))
    requires c in p.cases && CaseExact(p.tasks, c) && r in c.rows.value
    ensures RecordedIs(recorded, c.id, r.taskId, r.status)
  {
    var s := recorded[(c.id, r.taskId)];
    assert HasRow(p.tasks, p.cases, c.id, r.taskId, s);
    var d :| d in p.cases && CaseExact(p.tasks, d) && d.id == c.id && Row(r.taskId, s) in d.rows.value;
    SameCase(p.cases, c, d);
    SameRow(c.rows.value, r, Row(r.taskId, s));
  }

  /** An owned case carries a row for its owner, and the dictionary holds that row's result. */
  lemma OwnedRow(p: Pack, recorded: map<(Id, Id), CaseStatus>, t: Task, caseId: Id) returns (c: Case, r: Row)
    requires Recorded(p.tasks, p.cases, recorded) && Distinct(CaseIds(p.cases))
    requires AllExact(p.tasks, p.cases)
    requires t in p.tasks && caseId in CasesOf(p.tasks, t.id) && caseId in CaseIds(p.cases)
    ensures c in p.cases && c.id == caseId && c.rows.List? && r in c.rows.value && r.Row? && r.taskId == t.id
    ensures RecordedIs(recorded, caseId, t.id, r.status)
  {
    var i :| 0 <= i < |p.cases| && CaseIds(p.cases)[i] == caseId;
    c := p.cases[i];
    assert c in p.cases && CaseExact(p.tasks, c);
    RecordIsKnown(p.tasks, t);
    r := RowOf(c.rows.value, t.id);
    RecordedValue(p, recorded, c, r);
  }

  /** A row's task owns the row's case. */
  lemma RowIsOwned(p: Pack, c: Case, r: Row, t: Task)
    requires UniqueIds(p.tasks) && CaseExact(p.tasks, c) && r in c.rows.value
    requires t in p.tasks && r.Row? && t.id == r.taskId
    ensures c.id in CasesOf(p.tasks, t.id) && StatusOf(p.tasks, t.id) == Some(t.status)
  {
    var rows := c.rows.value;
    var i :| 0 <= i < |rows| && rows[i] == r;
    assert RowIds(rows)[i] in Elements(RowIds(rows));
    UniqueLookup(p.tasks, t);
  }

  ghost predicate CasesPrepared(p: Pack, recorded: map<(Id, Id), CaseStatus>) {
    && UniqueIds(p.tasks) && Distinct(CaseIds(p.cases)) && Recorded(p.tasks, p.cases, recorded)
    && AllExact(p.tasks, p.cases) && TestCasesKnown(p)
  }

  ghost predicate AllRowsAllowed(p: Pack) {
    forall c :: c in p.cases ==> RowsAllowed(p.tasks, c)
  }

  lemma ChecksGiveRows(p: Pack, recorded: map<(Id, Id), CaseStatus>)
    requires CasesPrepared(p, recorded)
    requires NotStartedCheck(p.tasks, recorded) && BlockedCheck(p.tasks, recorded)
    requires ReviewCheck(p.tasks, recorded) && PassCheck(p.tasks, recorded)
    ensures AllRowsAllowed(p)
  {
    forall c, r, t | c in p.cases && r in c.rows.value && r.Row? && t in p.tasks && t.id == r.taskId
      ensures ResultAllowed(p.tasks, t, r.status)
    {
      RowIsOwned(p, c, r, t);
      RecordedValue(p, recorded, c, r);
    }
  }

  /** Every owned assignment is recorded, with a result its task's status allows. */
  lemma OwnedResult(p: Pack, recorded: map<(Id, Id), CaseStatus>, t: Task, caseId: Id) returns (s: CaseStatus)
    requires CasesPrepared(p, recorded) && AllRowsAllowed(p)
    requires t in p.tasks && caseId in CasesOf(p.tasks, t.id)
    ensures RecordedIs(recorded, caseId, t.id, s) && ResultAllowed(p.tasks, t, s)
  {
    UniqueLookup(p.tasks, t);
    var c, r := OwnedRow(p, recorded, t, caseId);
    assert RowsAllowed(p.tasks, c);
    s := r.status;
  }

  lemma RowsGiveNotStarted(p: Pack, recorded: map<(Id, Id), CaseStatus>)
    requires CasesPrepared(p, recorded) && AllRowsAllowed(p)
    ensures NotStartedCheck(p.tasks, recorded)
  {
  }

  lemma RowsGiveChecks(p: Pack, recorded: map<(Id, Id), CaseStatus>)
    requires CasesPrepared(p, recorded) && AllRowsAllowed(p)
    ensures BlockedCheck(p.tasks, recorded) && ReviewCheck(p.tasks, recorded) && PassCheck(p.tasks, recorded)
  {
    forall t, caseId | t in p.tasks && caseId in CasesOf(p.tasks, t.id)
      ensures t.status.TaskBlocked? && Incomplete(p.tasks, t.dependsOn) ==> RecordedIs(recorded, caseId, t.id, NotRun)
      ensures t.status.Review? ==> (caseId, t.id) in recorded && !RecordedIs(recorded, caseId, t.id, NotRun)
      ensures t.status.TaskPass? ==> RecordedIs(recorded, caseId, t.id, Pass)
    {
      var s := OwnedResult(p, recorded, t, caseId);
    }
  }

  lemma CoveredIff(p: Pack)
    requires UniqueIds(p.tasks) && TestCasesKnown(p)
    ensures Covered(p.tasks) == Elements(CaseIds(p.cases)) <==>
            forall c :: c in p.cases ==> Owners(p.tasks, c.id) != {}
  {
    var ids := CaseIds(p.cases);
    forall t | t in p.tasks ensures CasesOf(p.tasks, t.id) == t.testCases { UniqueLookup(p.tasks, t); }
    assert Covered(p.tasks) <= Elements(ids);
    forall id ensures id in Covered(p.tasks) <==> Owners(p.tasks, id) != {} {
      if t :| t in p.tasks && id in CasesOf(p.tasks, t.id) {
        RecordIsKnown(p.tasks, t);
        assert t.id in Owners(p.tasks, id);
      }
      if a :| a in Owners(p.tasks, id) {
        var t := KnownIsARecord(p.tasks, a);
      }
    }
    forall c | c in p.cases ensures c.id in Elements(ids) {
      var i :| 0 <= i < |p.cases| && p.cases[i] == c;
      assert ids[i] == c.id;
    }
    forall id | id in Elements(ids) ensures exists c :: c in p.cases && c.id == id {
      var i :| 0 <= i < |ids| && ids[i] == id;
      assert p.cases[i] in p.cases;
    }
  }

  predicate KnownCases(p: Pack) {
    forall t, c :: t in p.tasks && c in CasesOf(p.tasks, t.id) ==> c in CaseIds(p.cases)
  }

  /** "Case and task ownership maps agree". */
  predicate ReverseMapsAgree(p: Pack) {
    forall c :: c in p.cases ==> Elements(c.tasks) == Owners(p.tasks, c.id)
  }

  /** The checks other than those on the rows themselves. */
  predicate OtherChecks(p: Pack) {
    var listsValid := ReadyGroups.DependencyListsValid(p.tasks);
    && |Known(p.tasks)| == |p.tasks|
    && |Elements(CaseIds(p.cases))| == |p.cases|
    && listsValid
    && StatusesDocumented(p.tasks)
    && (forall c :: c in p.cases ==> Documented(c.status))
    && Documented(p.manifestStatus)
    && p.manifestStatus == Summarize(CaseStatuses(p.cases))
    && (listsValid ==> ProgressWaits(p.tasks))
    && KnownCases(p)
    && Covered(p.tasks) == Elements(CaseIds(p.cases))
    && ReverseMapsAgree(p)
  }

  predicate DictionaryChecks(p: Pack, recorded: map<(Id, Id), CaseStatus>) {
    && NotStartedCheck(p.tasks, recorded)
    && (ReadyGroups.DependencyListsValid(p.tasks) ==> BlockedCheck(p.tasks, recorded))
    && ReviewCheck(p.tasks, recorded)
    && PassCheck(p.tasks, recorded)
  }

  lemma KnownCasesIff(p: Pack)
    requires UniqueIds(p.tasks)
    ensures KnownCases(p) <==> TestCasesKnown(p)
  {
    forall t | t in p.tasks ensures CasesOf(p.tasks, t.id) == t.testCases { UniqueLookup(p.tasks, t); }
  }

  ghost predicate AllOwned(p: Pack) {
    forall c :: c in p.cases ==> Owners(p.tasks, c.id) != {}
  }

  /** The two checks on the owned cases, in terms of the records. */
  lemma OwnershipIff(p: Pack)
    requires UniqueIds(p.tasks)
    ensures KnownCases(p) && Covered(p.tasks) == Elements(CaseIds(p.cases)) <==> TestCasesKnown(p) && AllOwned(p)
  {
    KnownCasesIff(p);
    if TestCasesKnown(p) { CoveredIff(p); }
  }

  /** Statuses that agree with a summary are documented ones. */
  lemma SummariesDocumented(p: Pack)
    requires forall c :: c in p.cases ==> CaseSummaryAgrees(c)
    ensures forall c :: c in p.cases ==> Documented(c.status)
    ensures Documented(Summarize(CaseStatuses(p.cases)))
  {
  }

  lemma OtherChecksIff(p: Pack)
    requires forall c :: c in p.cases ==> CaseSummaryAgrees(c)
    ensures OtherChecks(p) <==>
            && GraphConsistent(p) && AllOwned(p) && ReverseMapsAgree(p)
            && p.manifestStatus == Summarize(CaseStatuses(p.cases))
  {
    SummariesDocumented(p);
    CardinalityDetectsRepeats(TaskIds(p.tasks));
    CardinalityDetectsRepeats(CaseIds(p.cases));
    if UniqueIds(p.tasks) { OwnershipIff(p); }
  }

  lemma AcceptedIsConsistent(p: Pack, recorded: map<(Id, Id), CaseStatus>)
    requires OtherChecks(p) && AllExact(p.tasks, p.cases) && ExactSummariesAgree(p.tasks, p.cases)
    requires Recorded(p.tasks, p.cases, recorded) && DictionaryChecks(p, recorded)
    ensures Consistent(p)
  {
    OtherChecksIff(p);
    ChecksGiveRows(p, recorded);
    forall c | c in p.cases ensures CaseAccepted(p.tasks, c) {
      assert CaseExact(p.tasks, c) && RowsAllowed(p.tasks, c);
    }
  }

  lemma ConsistentIsAccepted(p: Pack, recorded: map<(Id, Id), CaseStatus>)
    requires Consistent(p) && Recorded(p.tasks, p.cases, recorded)
    ensures OtherChecks(p) && AllExact(p.tasks, p.cases) && ExactSummariesAgree(p.tasks, p.cases)
    ensures DictionaryChecks(p, recorded)
  {
    assert forall c :: c in p.cases ==> CaseAccepted(p.tasks, c);
    OtherChecksIff(p);
    RowsGiveNotStarted(p, recorded);
    RowsGiveChecks(p, recorded);
  }

  /** True when every status, ownership and summary check of the validator passes. */
  method StatusVerdict(p: Pack) returns (ok: bool)
    ensures ok <==> Consistent(p)
  {
    var errors, summaryErrors, recorded := CheckAssignments(p.tasks, p.cases);
    ok := OtherChecks(p) && errors == [] && summaryErrors == [] && DictionaryChecks(p, recorded);
    if ok {
      AcceptedIsConsistent(p, recorded);
    } else if Consistent(p) {
      ConsistentIsAccepted(p, recorded);
    }
  }
}
