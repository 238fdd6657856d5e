/**
 Moving a board: `set_task_states` of the fixture runner gives some tasks explicit statuses, blocks
 everything downstream of those that did not pass, and resets the results that no longer stand.
 */
module TaskStates {
  import opened Sequences
  import opened Board
  import opened TaskGraph
  import opened Summary
  import opened StatusChecks
  import Ordering

  ghost predicate DescendsFrom(tasks: seq<Task>, roots: set<Id>, a: Id) {
    exists r :: r in roots && DependsOn(tasks, a, r)
  }

  predicate DependentsIn(tasks: seq<Task>, x: Id, s: set<Id>) {
    forall t :: t in tasks && x in t.dependsOn ==> t.id in s
  }

  lemma DirectDependentDescends(tasks: seq<Task>, roots: set<Id>, t: Task, x: Id)
    requires t in tasks && x in t.dependsOn && (x in roots || DescendsFrom(tasks, roots, x))
    ensures DescendsFrom(tasks, roots, t.id)
  {
    assert DependsDirectly(tasks, t.id, x);
    if x in roots {
      assert ChainFrom(tasks, t.id, [t.id, x]);
    } else {
      var r, p :| r in roots && ChainFrom(tasks, x, p) && |p| >= 2 && p[|p| - 1] == r;
      var q := [t.id] + p;
      assert forall i :: 0 < i < |q| ==> q[i] == p[i - 1];
      assert ChainFrom(tasks, t.id, q) && q[|q| - 1] == r;
    }
  }

  /** A set closed under dependents that the roots start holds everything downstream. */
  lemma {:induction false} ClosedHoldsChain(tasks: seq<Task>, roots: set<Id>, s: set<Id>, p: seq<Id>, n: nat)
    requires forall x :: x in roots || x in s ==> DependentsIn(tasks, x, s)
    requires IsChain(tasks, p) && p[|p| - 1] in roots && n < |p| - 1
    ensures p[n] in s
    decreases |p| - n
  {
    assert DependsDirectly(tasks, p[n], p[n + 1]);
    if n + 1 < |p| - 1 { ClosedHoldsChain(tasks, roots, s, p, n + 1); }
    var t :| t in tasks && t.id == p[n] && p[n + 1] in t.dependsOn;
  }

  /** Still to be visited, or already complete. */
  ghost predicate Visited(tasks: seq<Task>, roots: set<Id>, frontier: seq<Id>, found: set<Id>) {
    forall x :: (x in roots || x in found) && x !in frontier ==> DependentsIn(tasks, x, found)
  }

  ghost predicate Sound(tasks: seq<Task>, roots: set<Id>, frontier: seq<Id>, found: set<Id>) {
    && found <= Known(tasks)
    && (forall a :: a in found ==> DescendsFrom(tasks, roots, a))
    && (forall x :: x in frontier ==> x in roots || x in found)
  }

  /** One turn of the worklist, after `dependency` was popped. */
  method VisitDependents(tasks: seq<Task>, ghost roots: set<Id>, dependency: Id, frontier: seq<Id>, found: set<Id>)
    returns (found': set<Id>, frontier': seq<Id>)
    requires Sound(tasks, roots, frontier, found) && (dependency in roots || dependency in found)
    requires Visited(tasks, roots, frontier + [dependency], found)
    ensures Sound(tasks, roots, frontier', found') && Visited(tasks, roots, frontier', found')
    ensures found <= found' && (found' == found ==> frontier' == frontier)
  {
    found', frontier' := found, frontier;
    for i := 0 to |tasks|
      invariant Sound(tasks, roots, frontier', found')
      invariant Visited(tasks, roots, frontier' + [dependency], found')
      invariant forall j :: 0 <= j < i && dependency in tasks[j].dependsOn ==> tasks[j].id in found'
      invariant found <= found' && (found' == found ==> frontier' == frontier)
    {
      var t := tasks[i];
      if dependency in t.dependsOn && t.id !in found' {
        DirectDependentDescends(tasks, roots, t, dependency);
        RecordIsKnown(tasks, t);
        found' := found' + {t.id};
        frontier' := frontier' + [t.id];
      }
    }
  }

  /** The worklist: exactly the tasks with a dependency chain down to a root. */
  method Descendants(tasks: seq<Task>, roots: set<Id>) returns (found: set<Id>)
    ensures forall a :: a in found <==> DescendsFrom(tasks, roots, a)
    ensures found <= Known(tasks)
  {
    found := {};
    var frontier := Ordering.SortedIds(roots);
    assert forall x :: x in roots ==> x in Elements(frontier);
    while frontier != []
      invariant Sound(tasks, roots, frontier, found) && Visited(tasks, roots, frontier, found)
      decreases Known(tasks) - found, |frontier|
    {
      var dependency := frontier[|frontier| - 1];
      frontier := frontier[..|frontier| - 1];
      found, frontier := VisitDependents(tasks, roots, dependency, frontier, found);
    }
    forall a | DescendsFrom(tasks, roots, a) ensures a in found {
      var r, p :| r in roots && ChainFrom(tasks, a, p) && |p| >= 2 && p[|p| - 1] == r;
      ClosedHoldsChain(tasks, roots, found, p, 0);
    }
  }

  // ---------------------------------------------------------------- the board after the move

  predicate IsLast(tasks: seq<Task>, i: nat)
    requires i < |tasks|
  {
    forall j :: i < j < |tasks| ==> tasks[j].id != tasks[i].id
  }

  /** Writing through the id dictionary reaches the last record of each id. */
  function Assigned(tasks: seq<Task>, updates: map<Id, TaskStatus>): (r: seq<Task>)
    ensures |r| == |tasks|
  {
    seq(|tasks|, i requires 0 <= i < |tasks| =>
      if tasks[i].id in updates && IsLast(tasks, i) then tasks[i].(status := updates[tasks[i].id]) else tasks[i])
  }

  function LastIndex(tasks: seq<Task>, id: Id): (i: nat)
    requires id in Known(tasks)
    ensures i < |tasks| && tasks[i].id == id && IsLast(tasks, i)
  {
    var n := |tasks| - 1;
    if tasks[n].id == id then n
    else
      assert TaskIds(tasks) == TaskIds(tasks[..n]) + [tasks[n].id];
      LastIndex(tasks[..n], id)
  }

  /** `for task_id, status in statuses.items(): tasks[task_id]["status"] = status`. */
  method AssignStatuses(tasks: seq<Task>, updates: map<Id, TaskStatus>) returns (r: seq<Task>)
    requires updates.Keys <= Known(tasks)
    ensures r == Assigned(tasks, updates)
  {
    r := tasks;
    var left := updates.Keys;
    while left != {}
      invariant left <= updates.Keys
      invariant r == Assigned(tasks, updates - left)
    {
      var id :| id in left;
      var i := LastIndex(tasks, id);
      r := r[i := r[i].(status := updates[id])];
      left := left - {id};
      var wanted := Assigned(tasks, updates - left);
      forall k | 0 <= k < |tasks| ensures r[k] == wanted[k] {
        assert tasks[k].id == id ==> k <= i;
      }
    }
    assert updates - left == updates;
  }

  predicate IsLastCase(cases: seq<Case>, i: nat)
    requires i < |cases|
  {
    forall j :: i < j < |cases| ==> cases[j].id != cases[i].id
  }

  /** `update` finds a task on every row, and a status on every row it does not reset itself. */
  predicate RowResettable(r: Row, blocked: set<Id>) {
    TaskOf(r).Some? && (TaskOf(r).value in blocked || ResultOf(r).Some?)
  }

  predicate Resettable(c: Case, blocked: set<Id>) {
    match c.rows
    case List(rows) => forall i :: 0 <= i < |rows| ==> RowResettable(rows[i], blocked)
    case EmptyOther => true
    case Unreadable => false
  }

  function ResetRow(r: Row, blocked: set<Id>): (q: Row)
    requires RowResettable(r, blocked)
    ensures TaskOf(q) == TaskOf(r) && ResultOf(q).Some?
  {
    if TaskOf(r).value in blocked then WithResult(r, NotRun) else r
  }

  function ResetRows(rows: seq<Row>, blocked: set<Id>): (r: seq<Row>)
    requires forall i :: 0 <= i < |rows| ==> RowResettable(rows[i], blocked)
    ensures |r| == |rows| && forall i :: 0 <= i < |r| ==> ResultOf(r[i]).Some?
  {
    seq(|rows|, i requires 0 <= i < |rows| => ResetRow(rows[i], blocked))
  }

  function ResultsIn(rows: seq<Row>): (statuses: seq<CaseStatus>)
    requires forall i :: 0 <= i < |rows| ==> ResultOf(rows[i]).Some?
    ensures |statuses| == |rows|
  {
    seq(|rows|, i requires 0 <= i < |rows| => ResultOf(rows[i]).value)
  }

  function ResetCase(c: Case, blocked: set<Id>): Case
    requires Resettable(c, blocked)
  {
    match c.rows
    case List(list) =>
      var rows := ResetRows(list, blocked);
      c.(status := Summarize(ResultsIn(rows)), rows := List(rows))
    case EmptyOther => c.(status := Summarize([]))
  }

  predicate CasesResettable(cases: seq<Case>, blocked: set<Id>) {
    forall i :: 0 <= i < |cases| && IsLastCase(cases, i) ==> Resettable(cases[i], blocked)
  }

  function ResetCases(cases: seq<Case>, blocked: set<Id>): (r: seq<Case>)
    requires CasesResettable(cases, blocked)
    ensures |r| == |cases|
  {
    seq(|cases|, i requires 0 <= i < |cases| =>
      if IsLastCase(cases, i) then ResetCase(cases[i], blocked) else cases[i])
  }

  function NonPass(statuses: map<Id, TaskStatus>): set<Id> {
    set a | a in statuses && statuses[a] != TaskPass
  }

  /** Downstream of an explicit non-PASS status and not itself explicit. */
  ghost function BlockedBy(tasks: seq<Task>, statuses: map<Id, TaskStatus>): set<Id> {
    set a | a in Known(tasks) && DescendsFrom(tasks, NonPass(statuses), a) && a !in statuses
  }

  ghost function MovedTasks(tasks: seq<Task>, statuses: map<Id, TaskStatus>): seq<Task> {
    Assigned(Assigned(tasks, statuses), map a | a in BlockedBy(tasks, statuses) :: TaskBlocked)
  }

  ghost function Moved(p: Pack, statuses: map<Id, TaskStatus>): Pack
    requires CasesResettable(p.cases, BlockedBy(p.tasks, statuses))
  {
    var cases := ResetCases(p.cases, BlockedBy(p.tasks, statuses));
    Pack(MovedTasks(p.tasks, statuses), cases, Summarize(CaseStatuses(cases)))
  }

  function PassedTasks(tasks: seq<Task>): (r: seq<Task>)
    ensures |r| == |tasks|
  {
    seq(|tasks|, i requires 0 <= i < |tasks| => tasks[i].(status := TaskPass))
  }

  /** `mark_all_cases_pass` writes a status into every row that is an object. */
  predicate Passable(c: Case) {
    match c.rows
    case List(rows) => NotAnObject !in rows
    case EmptyOther => true
    case Unreadable => false
  }

  function PassedRows(rows: seq<Row>): (r: seq<Row>)
    requires NotAnObject !in rows
    ensures |r| == |rows|
  {
    seq(|rows|, i requires 0 <= i < |rows| => WithResult(rows[i], Pass))
  }

  /** The status of the case is set, not summarised. */
  function PassedCase(c: Case): Case
    requires Passable(c)
  {
    match c.rows
    case List(rows) => c.(status := Pass, rows := List(PassedRows(rows)))
    case EmptyOther => c.(status := Pass)
  }

  predicate CasesPassable(cases: seq<Case>) {
    forall i :: 0 <= i < |cases| && IsLastCase(cases, i) ==> Passable(cases[i])
  }

  function PassedCases(cases: seq<Case>): (r: seq<Case>)
    requires CasesPassable(cases)
    ensures |r| == |cases|
  {
    seq(|cases|, i requires 0 <= i < |cases| => if IsLastCase(cases, i) then PassedCase(cases[i]) else cases[i])
  }

  function AllPassed(p: Pack): Pack
    requires CasesPassable(p.cases)
  {
    var cases := PassedCases(p.cases);
    Pack(PassedTasks(p.tasks), cases, Summarize(CaseStatuses(cases)))
  }

  /** Only ids and dependency lists matter to reachability. */
  predicate SameGraph(a: seq<Task>, b: seq<Task>) {
    |a| == |b| && forall i :: 0 <= i < |a| ==> a[i].id == b[i].id && a[i].dependsOn == b[i].dependsOn
  }

  lemma SameGraphAllDescendants(a: seq<Task>, b: seq<Task>, roots: set<Id>)
    requires SameGraph(a, b)
    ensures forall x :: DescendsFrom(a, roots, x) <==> DescendsFrom(b, roots, x)
  {
  }

  /** The loop of `mark_all_cases_pass` over the last record of each case id; None when it raises. */
  method PassAll(cases: seq<Case>) returns (passed: Option<seq<Case>>)
    ensures passed.Some? <==> CasesPassable(cases)
    ensures passed.Some? ==> passed.value == PassedCases(cases)
  {
    var r := cases;
    for i := 0 to |cases|
      invariant |r| == |cases| && forall k :: 0 <= k < i && IsLastCase(cases, k) ==> Passable(cases[k])
      invariant forall k :: 0 <= k < i ==> r[k] == if IsLastCase(cases, k) then PassedCase(cases[k]) else cases[k]
      invariant forall k :: i <= k < |cases| ==> r[k] == cases[k]
    {
      if IsLastCase(cases, i) {
        if !Passable(cases[i]) { return None; }
        r := r[i := PassedCase(cases[i])];
      }
    }
    return Some(r);
  }

  /** `update`: reset the rows and the status of the last record of each case id; None when it raises. */
  method ResetAll(cases: seq<Case>, blocked: set<Id>) returns (reset: Option<seq<Case>>)
    ensures reset.Some? <==> CasesResettable(cases, blocked)
    ensures reset.Some? ==> reset.value == ResetCases(cases, blocked)
  {
    var r := cases;
    for i := 0 to |cases|
      invariant |r| == |cases| && forall k :: 0 <= k < i && IsLastCase(cases, k) ==> Resettable(cases[k], blocked)
      invariant forall k :: 0 <= k < i ==>
                  r[k] == if IsLastCase(cases, k) then ResetCase(cases[k], blocked) else cases[k]
      invariant forall k :: i <= k < |cases| ==> r[k] == cases[k]
    {
      if IsLastCase(cases, i) {
        if !Resettable(cases[i], blocked) { return None; }
        r := r[i := ResetCase(cases[i], blocked)];
      }
    }
    return Some(r);
  }

  /** The two manifest files of a pack on disk. */
  class PackFiles {
    var tasks: seq<Task>
    var cases: seq<Case>
    var manifestStatus: CaseStatus
    var runtimeTestsExecuted: bool

    ghost function View(): Pack
      reads this
    {
      Pack(tasks, cases, manifestStatus)
    }

    /** `all_pass`; returns false when the acceptance half raises, after the graph file was written. */
    method AllPass() returns (ok: bool)
      modifies this
      ensures runtimeTestsExecuted && (ok <==> CasesPassable(old(cases)))
      ensures ok ==> View() == AllPassed(old(View()))
      ensures !ok ==> cases == old(cases) && manifestStatus == old(manifestStatus) && tasks == PassedTasks(old(tasks))
    {
      var graph := tasks;
      for i := 0 to |tasks|
        invariant |graph| == |tasks| && tasks == old(tasks)
        invariant forall k :: 0 <= k < |tasks| ==>
                    graph[k] == if k < i then tasks[k].(status := TaskPass) else tasks[k]
        invariant cases == old(cases) && manifestStatus == old(manifestStatus)
      {
        graph := graph[i := graph[i].(status := TaskPass)];
      }
      assert graph == PassedTasks(tasks);
      tasks, runtimeTestsExecuted := graph, true;
      var passed := PassAll(cases);
      if passed.None? { return false; }
      cases := passed.value;
      manifestStatus := Summarize(CaseStatuses(cases));
      return true;
    }

    /**
     Returns false when the source raises. An unknown id raises before anything is written; a
     row without the keys it reads raises after the graph file, but not the acceptance file, was written.
     */
    method SetTaskStates(statuses: map<Id, TaskStatus>) returns (ok: bool)
      modifies this
      ensures runtimeTestsExecuted == old(runtimeTestsExecuted)
      ensures ok <==> && statuses.Keys <= Known(old(tasks))
                      && CasesResettable(old(cases), BlockedBy(old(tasks), statuses))
      ensures ok ==> View() == Moved(old(View()), statuses)
      ensures !ok ==> cases == old(cases) && manifestStatus == old(manifestStatus)
      ensures !ok ==> tasks == if statuses.Keys <= Known(old(tasks))
                               then MovedTasks(old(tasks), statuses) else old(tasks)
    {
      if !(statuses.Keys <= Known(tasks)) { return false; }
      var graph := AssignStatuses(tasks, statuses);
      assert TaskIds(graph) == TaskIds(tasks);
      var roots := NonPass(statuses);
      var descendants := Descendants(graph, roots);
      SameGraphAllDescendants(tasks, graph, roots);
      var blocked := descendants - statuses.Keys;
      assert blocked == BlockedBy(tasks, statuses);
      graph := AssignStatuses(graph, map a | a in blocked :: TaskBlocked);
      tasks := graph;
      var reset := ResetAll(cases, blocked);
      if reset.None? { return false; }
      cases := reset.value;
      manifestStatus := Summarize(CaseStatuses(cases));
      return true;
    }
  }
}
