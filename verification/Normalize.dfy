/**
 `normalize_status_fields`: the fixture runner's reset of a pack to its untouched state. It edits two
 JSON documents in place and returns a log of what it changed.
 */
module Normalize {
  import opened Sequences
  import opened Json

  const NOT_STARTED := Str("NOT_STARTED")
  const NOT_RUN := Str("NOT_RUN")
  const SUBAGENTS_MARKER := "subagents_used_for_this_pack"
  const RUNTIME_MARKER := "runtime_tests_executed_for_this_pack"

  /** The root objects of task-graph.json and acceptance-cases.json. */
  datatype Docs = Docs(graph: map<string, Json>, acceptance: map<string, Json>)

  /** The `field` of a log entry. */
  datatype Path =
    | TaskStatus(task: nat)
    | Marker(name: string)
    | RootStatus
    | CaseStatus(case_: nat)
    | RowStatus(case_: nat, row: nat)

  datatype Change = Change(path: Path, before: Json, after: Json)

  // ---------------------------------------------------------------- reading and writing one field

  function Items(fields: map<string, Json>, key: string): seq<Json> {
    if key in fields && fields[key].Arr? then fields[key].items else []
  }

  function WithItems(fields: map<string, Json>, key: string, items: seq<Json>): map<string, Json> {
    if key in fields && fields[key].Arr? then fields[key := Arr(items)] else fields
  }

  function Rows(c: Json): seq<Json> {
    if c.Obj? then Items(c.fields, "assignment_results") else []
  }

  function WithRows(c: Json, rows: seq<Json>): Json {
    if c.Obj? then Obj(WithItems(c.fields, "assignment_results", rows)) else c
  }

  /** Overwrite a status that is already there. */
  function SetStatus(j: Json, value: Json): Json {
    if j.Obj? && "status" in j.fields then Obj(j.fields["status" := value]) else j
  }

  function ValueAt(d: Docs, path: Path): Option<Json> {
    match path
    case TaskStatus(i) =>
      var tasks := Items(d.graph, "tasks");
      if i < |tasks| then Get(tasks[i], "status") else None
    case Marker(name) => if name in d.graph then Some(d.graph[name]) else None
    case RootStatus => if "status" in d.acceptance then Some(d.acceptance["status"]) else None
    case CaseStatus(i) =>
      var cases := Items(d.acceptance, "cases");
      if i < |cases| then Get(cases[i], "status") else None
    case RowStatus(i, j) =>
      var cases := Items(d.acceptance, "cases");
      if i < |cases| && j < |Rows(cases[i])| then Get(Rows(cases[i])[j], "status") else None
  }

  /** Overwrite the value at a path that has one. */
  function Put(d: Docs, path: Path, value: Json): Docs
    requires ValueAt(d, path).Some?
  {
    match path
    case TaskStatus(i) =>
      var tasks := Items(d.graph, "tasks");
      d.(graph := WithItems(d.graph, "tasks", tasks[i := SetStatus(tasks[i], value)]))
    case Marker(name) => d.(graph := d.graph[name := value])
    case RootStatus => d.(acceptance := d.acceptance["status" := value])
    case CaseStatus(i) =>
      var cases := Items(d.acceptance, "cases");
      d.(acceptance := WithItems(d.acceptance, "cases", cases[i := SetStatus(cases[i], value)]))
    case RowStatus(i, j) =>
      var cases := Items(d.acceptance, "cases");
      var rows := Rows(cases[i]);
      d.(acceptance := WithItems(d.acceptance, "cases",
                                 cases[i := WithRows(cases[i], rows[j := SetStatus(rows[j], value)])]))
  }

  /** One entry applies only where it finds the value it says it replaced. */
  function ReplayOne(d: Option<Docs>, c: Change): Option<Docs> {
    if d.Some? && ValueAt(d.value, c.path) == Some(c.before) then Some(Put(d.value, c.path, c.after)) else None
  }

  /** Redo a log on a document; None when an entry's `before` is not what is there. */
  function Replay(d: Docs, changes: seq<Change>): Option<Docs>
    decreases |changes|
  {
    if changes == [] then Some(d) else ReplayOne(Replay(d, changes[..|changes| - 1]), changes[|changes| - 1])
  }

  lemma ReplaySnoc(d: Docs, changes: seq<Change>, c: Change)
    ensures Replay(d, changes + [c]) == ReplayOne(Replay(d, changes), c)
  {
    assert (changes + [c])[..|changes|] == changes;
  }

  lemma SplitLast(a: seq<Change>, b: seq<Change>)
    requires b != []
    ensures b == b[..|b| - 1] + [b[|b| - 1]] && a + b == (a + b[..|b| - 1]) + [b[|b| - 1]]
  {
  }

  lemma {:induction false} ReplayConcat(d: Docs, a: seq<Change>, e: Docs, b: seq<Change>)
    requires Replay(d, a) == Some(e)
    ensures Replay(d, a + b) == Replay(e, b)
  {
    if b == [] {
      assert a + b == a;
    } else {
      var init, c := b[..|b| - 1], b[|b| - 1];
      ReplayConcat(d, a, e, init);
      ReplaySnoc(d, a + init, c);
      ReplaySnoc(e, init, c);
      SplitLast(a, b);
    }
  }

  /** The log accounts for the edit and contains no idle entry. */
  ghost predicate Logs(before: Docs, changes: seq<Change>, after: Docs) {
    && Replay(before, changes) == Some(after)
    && (forall c :: c in changes ==> c.before != c.after)
  }

  lemma LogsConcat(d: Docs, a: seq<Change>, e: Docs, b: seq<Change>, f: Docs)
    requires Logs(d, a, e) && Logs(e, b, f)
    ensures Logs(d, a + b, f)
  {
    ReplayConcat(d, a, e, b);
  }

  // ---------------------------------------------------------------- the normal form

  function NormPrefix(items: seq<Json>, target: Json, n: nat): (r: seq<Json>)
    ensures |r| == |items|
  {
    seq(|items|, k requires 0 <= k < |items| => if k < n then SetStatus(items[k], target) else items[k])
  }

  function NormCaseUpTo(c: Json, n: nat): Json {
    WithRows(SetStatus(c, NOT_RUN), NormPrefix(Rows(c), NOT_RUN, n))
  }

  function NormCase(c: Json): Json {
    NormCaseUpTo(c, |Rows(c)|)
  }

  function NormCases(cases: seq<Json>, n: nat): (r: seq<Json>)
    ensures |r| == |cases|
  {
    seq(|cases|, k requires 0 <= k < |cases| => if k < n then NormCase(cases[k]) else cases[k])
  }

  function TasksUpTo(d: Docs, n: nat): Docs {
    d.(graph := WithItems(d.graph, "tasks", NormPrefix(Items(d.graph, "tasks"), NOT_STARTED, n)))
  }

  function ClearMarker(d: Docs, name: string): Docs {
    if ValueAt(d, Marker(name)) == Some(Bool(true)) then d.(graph := d.graph[name := Bool(false)]) else d
  }

  function ResetRoot(d: Docs): Docs {
    if "status" in d.acceptance then d.(acceptance := d.acceptance["status" := NOT_RUN]) else d
  }

  function CasesUpTo(d: Docs, n: nat): Docs {
    d.(acceptance := WithItems(d.acceptance, "cases", NormCases(Items(d.acceptance, "cases"), n)))
  }

  function GraphDone(d: Docs): (e: Docs)
    ensures e.acceptance == d.acceptance
  {
    ClearMarker(ClearMarker(TasksUpTo(d, |Items(d.graph, "tasks")|), SUBAGENTS_MARKER), RUNTIME_MARKER)
  }

  function AcceptanceDone(d: Docs): (e: Docs)
    ensures e.graph == d.graph
  {
    CasesUpTo(ResetRoot(d), |Items(d.acceptance, "cases")|)
  }

  function Normalized(d: Docs): Docs {
    AcceptanceDone(GraphDone(d))
  }

  // ---------------------------------------------------------------- the loops

  lemma SetStatusSame(j: Json)
    requires j.Obj? && "status" in j.fields
    ensures SetStatus(j, j.fields["status"]) == j
  {
  }

  lemma WithItemsSame(fields: map<string, Json>, key: string)
    ensures WithItems(fields, key, Items(fields, key)) == fields
  {
  }

  lemma PutSame(d: Docs, path: Path)
    requires ValueAt(d, path).Some?
    ensures Put(d, path, ValueAt(d, path).value) == d
  {
    match path
    case TaskStatus(i) =>
      var tasks := Items(d.graph, "tasks");
      SetStatusSame(tasks[i]);
      assert tasks[i := tasks[i]] == tasks;
      WithItemsSame(d.graph, "tasks");
    case Marker(name) => assert d.graph[name := d.graph[name]] == d.graph;
    case RootStatus => assert d.acceptance["status" := d.acceptance["status"]] == d.acceptance;
    case CaseStatus(i) =>
      var cases := Items(d.acceptance, "cases");
      SetStatusSame(cases[i]);
      assert cases[i := cases[i]] == cases;
      WithItemsSame(d.acceptance, "cases");
    case RowStatus(i, j) =>
      var cases := Items(d.acceptance, "cases");
      var rows := Rows(cases[i]);
      SetStatusSame(rows[j]);
      assert rows[j := rows[j]] == rows;
      WithItemsSame(cases[i].fields, "assignment_results");
      assert cases[i := cases[i]] == cases;
      WithItemsSame(d.acceptance, "cases");
  }

  /** Writing is seen by reading, so a different value makes a different document. */
  lemma PutReads(d: Docs, path: Path, value: Json)
    requires ValueAt(d, path).Some?
    ensures ValueAt(Put(d, path, value), path) == Some(value)
  {
  }

  /** `set_existing_status`. */
  method SetExisting(d: Docs, path: Path, target: Json) returns (d': Docs, changes: seq<Change>)
    requires !path.Marker?
    ensures d' == if ValueAt(d, path).Some? then Put(d, path, target) else d
    ensures Logs(d, changes, d') && (d' == d ==> changes == [])
  {
    var value := ValueAt(d, path);
    if value.Some? { PutSame(d, path); }
    if value.None? || value.value == target {
      return d, [];
    }
    PutReads(d, path, target);
    d' := Put(d, path, target);
    changes := [Change(path, value.value, target)];
    assert changes[..0] == [] && Replay(d, []) == Some(d);
  }

  lemma TaskStep(d: Docs, i: nat)
    requires i < |Items(d.graph, "tasks")|
    ensures var e := TasksUpTo(d, i);
            (if ValueAt(e, TaskStatus(i)).Some? then Put(e, TaskStatus(i), NOT_STARTED) else e) == TasksUpTo(d, i + 1)
  {
    var tasks, e := Items(d.graph, "tasks"), TasksUpTo(d, i);
    var now, next := NormPrefix(tasks, NOT_STARTED, i), NormPrefix(tasks, NOT_STARTED, i + 1);
    assert Items(e.graph, "tasks") == now;
    assert next == now[i := SetStatus(now[i], NOT_STARTED)];
    if ValueAt(e, TaskStatus(i)).None? {
      assert next == now;
    }
  }

  lemma PrefixFixed(items: seq<Json>, target: Json, n: nat)
    requires NormPrefix(items, target, |items|) == items
    ensures NormPrefix(items, target, n) == items
  {
  }

  lemma TasksFixed(d: Docs, n: nat)
    requires TasksUpTo(d, |Items(d.graph, "tasks")|) == d
    ensures TasksUpTo(d, n) == d
  {
    var tasks := Items(d.graph, "tasks");
    assert NormPrefix(tasks, NOT_STARTED, |tasks|) == tasks;
    PrefixFixed(tasks, NOT_STARTED, n);
    WithItemsSame(d.graph, "tasks");
  }

  method NormalizeTasks(d: Docs) returns (d': Docs, changes: seq<Change>)
    ensures d' == TasksUpTo(d, |Items(d.graph, "tasks")|)
    ensures Logs(d, changes, d') && (d' == d ==> changes == [])
  {
    var n := |Items(d.graph, "tasks")|;
    assert NormPrefix(Items(d.graph, "tasks"), NOT_STARTED, 0) == Items(d.graph, "tasks");
    WithItemsSame(d.graph, "tasks");
    d', changes := d, [];
    for i := 0 to n
      invariant d' == TasksUpTo(d, i) && Logs(d, changes, d')
      invariant TasksUpTo(d, n) == d ==> changes == []
    {
      TaskStep(d, i);
      if TasksUpTo(d, n) == d {
        TasksFixed(d, i);
        TasksFixed(d, i + 1);
      }
      var e, more := SetExisting(d', TaskStatus(i), NOT_STARTED);
      LogsConcat(d, changes, d', more, e);
      d', changes := e, changes + more;
    }
  }

  method NormalizeMarker(d: Docs, name: string) returns (d': Docs, changes: seq<Change>)
    ensures d' == ClearMarker(d, name)
    ensures Logs(d, changes, d') && (d' == d ==> changes == [])
  {
    d', changes := d, [];
    if ValueAt(d, Marker(name)) == Some(Bool(true)) {
      changes := [Change(Marker(name), Bool(true), Bool(false))];
      d' := Put(d, Marker(name), Bool(false));
      PutReads(d, Marker(name), Bool(false));
      assert changes[..0] == [] && Replay(d, []) == Some(d);
    }
  }

  /** Cases before `i` done, case `i` reset with its first `j` rows. */
  function CasesMidway(d: Docs, i: nat, j: nat): Docs
    requires i < |Items(d.acceptance, "cases")|
  {
    var cases := Items(d.acceptance, "cases");
    d.(acceptance := WithItems(d.acceptance, "cases", NormCases(cases, i)[i := NormCaseUpTo(cases[i], j)]))
  }

  lemma SetStatusKeepsRows(c: Json, value: Json)
    ensures Rows(SetStatus(c, value)) == Rows(c)
  {
  }

  lemma CaseStep(d: Docs, i: nat)
    requires i < |Items(d.acceptance, "cases")|
    ensures var e := CasesUpTo(d, i);
            (if ValueAt(e, CaseStatus(i)).Some? then Put(e, CaseStatus(i), NOT_RUN) else e) == CasesMidway(d, i, 0)
  {
    var cases, e := Items(d.acceptance, "cases"), CasesUpTo(d, i);
    var now := NormCases(cases, i);
    assert Items(e.acceptance, "cases") == now;
    SetStatusKeepsRows(cases[i], NOT_RUN);
    assert NormPrefix(Rows(cases[i]), NOT_RUN, 0) == Rows(cases[i]);
    assert NormCaseUpTo(cases[i], 0) == SetStatus(cases[i], NOT_RUN) by {
      if cases[i].Obj? { WithItemsSame(SetStatus(cases[i], NOT_RUN).fields, "assignment_results"); }
    }
    if ValueAt(e, CaseStatus(i)).None? {
      assert now[i := SetStatus(cases[i], NOT_RUN)] == now;
    }
  }

  lemma MidwayReads(d: Docs, i: nat, j: nat)
    requires i < |Items(d.acceptance, "cases")|
    ensures var cases := Items(CasesMidway(d, i, j).acceptance, "cases");
            |cases| == |Items(d.acceptance, "cases")| && cases[i] == NormCaseUpTo(Items(d.acceptance, "cases")[i], j)
    ensures Rows(NormCaseUpTo(Items(d.acceptance, "cases")[i], j)) ==
            NormPrefix(Rows(Items(d.acceptance, "cases")[i]), NOT_RUN, j)
  {
  }

  lemma RowStep(d: Docs, i: nat, j: nat)
    requires i < |Items(d.acceptance, "cases")| && j < |Rows(Items(d.acceptance, "cases")[i])|
    ensures var e := CasesMidway(d, i, j);
            (if ValueAt(e, RowStatus(i, j)).Some? then Put(e, RowStatus(i, j), NOT_RUN) else e)
            == CasesMidway(d, i, j + 1)
  {
    var cases, e := Items(d.acceptance, "cases"), CasesMidway(d, i, j);
    var rows := Rows(cases[i]);
    var now, next := NormPrefix(rows, NOT_RUN, j), NormPrefix(rows, NOT_RUN, j + 1);
    MidwayReads(d, i, j);
    var seen := Items(e.acceptance, "cases");
    assert next == now[j := SetStatus(now[j], NOT_RUN)];
    assert WithRows(NormCaseUpTo(cases[i], j), next) == NormCaseUpTo(cases[i], j + 1);
    assert seen[i := NormCaseUpTo(cases[i], j + 1)] == NormCases(cases, i)[i := NormCaseUpTo(cases[i], j + 1)];
    if ValueAt(e, RowStatus(i, j)).None? {
      assert next == now;
    }
  }

  lemma CaseDone(d: Docs, i: nat)
    requires i < |Items(d.acceptance, "cases")|
    ensures CasesMidway(d, i, |Rows(Items(d.acceptance, "cases")[i])|) == CasesUpTo(d, i + 1)
  {
    var cases := Items(d.acceptance, "cases");
    assert NormCases(cases, i)[i := NormCase(cases[i])] == NormCases(cases, i + 1);
  }

  lemma CaseFixed(c: Json, j: nat)
    requires NormCase(c) == c
    ensures NormCaseUpTo(c, j) == c && SetStatus(c, NOT_RUN) == c
  {
    if c.Obj? {
      var rows := Rows(c);
      SetStatusKeepsRows(c, NOT_RUN);
      assert Rows(NormCase(c)) == NormPrefix(rows, NOT_RUN, |rows|);
      PrefixFixed(rows, NOT_RUN, j);
      if "status" in c.fields {
        assert NormCase(c).fields["status"] == NOT_RUN;
        SetStatusSame(c);
      }
      WithItemsSame(c.fields, "assignment_results");
    }
  }

  lemma CasesFixed(d: Docs, i: nat, j: nat)
    requires CasesUpTo(d, |Items(d.acceptance, "cases")|) == d
    ensures CasesUpTo(d, i) == d
    ensures i < |Items(d.acceptance, "cases")| ==> CasesMidway(d, i, j) == d
  {
    var cases := Items(d.acceptance, "cases");
    var all := NormCases(cases, |cases|);
    assert all == cases;
    forall k | 0 <= k < |cases| ensures NormCase(cases[k]) == cases[k] { assert all[k] == NormCase(cases[k]); }
    assert NormCases(cases, i) == cases;
    WithItemsSame(d.acceptance, "cases");
    if i < |cases| {
      CaseFixed(cases[i], j);
      assert cases[i := cases[i]] == cases;
    }
  }

  method NormalizeCases(d: Docs) returns (d': Docs, changes: seq<Change>)
    ensures d' == CasesUpTo(d, |Items(d.acceptance, "cases")|)
    ensures Logs(d, changes, d') && (d' == d ==> changes == [])
  {
    var cases := Items(d.acceptance, "cases");
    ghost var fixed := CasesUpTo(d, |cases|) == d;
    assert NormCases(cases, 0) == cases;
    WithItemsSame(d.acceptance, "cases");
    d', changes := d, [];
    for i := 0 to |cases|
      invariant d' == CasesUpTo(d, i) && Logs(d, changes, d')
      invariant fixed ==> changes == []
    {
      CaseStep(d, i);
      if fixed { CasesFixed(d, i, 0); }
      var e, more := SetExisting(d', CaseStatus(i), NOT_RUN);
      LogsConcat(d, changes, d', more, e);
      d', changes := e, changes + more;
      for j := 0 to |Rows(cases[i])|
        invariant d' == CasesMidway(d, i, j) && Logs(d, changes, d')
        invariant fixed ==> changes == []
      {
        RowStep(d, i, j);
        if fixed {
          CasesFixed(d, i, j);
          CasesFixed(d, i, j + 1);
        }
        e, more := SetExisting(d', RowStatus(i, j), NOT_RUN);
        LogsConcat(d, changes, d', more, e);
        d', changes := e, changes + more;
      }
      CaseDone(d, i);
    }
  }

  /** Fixed as a whole means fixed by every stage, so no stage logs anything. */
  lemma GraphFixed(d: Docs)
    requires GraphDone(d) == d
    ensures TasksUpTo(d, |Items(d.graph, "tasks")|) == d
    ensures ClearMarker(d, SUBAGENTS_MARKER) == d && ClearMarker(d, RUNTIME_MARKER) == d
  {
  }

  lemma AcceptanceFixed(d: Docs)
    requires AcceptanceDone(d) == d
    ensures ResetRoot(d) == d && CasesUpTo(d, |Items(d.acceptance, "cases")|) == d
  {
  }

  /** The half that writes the graph document. */
  method NormalizeGraph(d: Docs) returns (d': Docs, changes: seq<Change>)
    ensures d' == GraphDone(d)
    ensures Logs(d, changes, d') && (d' == d ==> changes == [])
  {
    var e, more;
    d', changes := NormalizeTasks(d);
    e, more := NormalizeMarker(d', SUBAGENTS_MARKER);
    LogsConcat(d, changes, d', more, e);
    d', changes := e, changes + more;
    e, more := NormalizeMarker(d', RUNTIME_MARKER);
    LogsConcat(d, changes, d', more, e);
    d', changes := e, changes + more;
    if GraphDone(d) == d { GraphFixed(d); }
  }

  /** The half that writes the acceptance document. */
  method NormalizeAcceptance(d: Docs) returns (d': Docs, changes: seq<Change>)
    ensures d' == AcceptanceDone(d)
    ensures Logs(d, changes, d') && (d' == d ==> changes == [])
  {
    var e, more;
    d', changes := SetExisting(d, RootStatus, NOT_RUN);
    e, more := NormalizeCases(d');
    LogsConcat(d, changes, d', more, e);
    d', changes := e, changes + more;
    if AcceptanceDone(d) == d { AcceptanceFixed(d); }
  }

  /** The whole function. */
  method NormalizeStatusFields(d: Docs) returns (d': Docs, changes: seq<Change>)
    ensures d' == Normalized(d)
    ensures Logs(d, changes, d')
    ensures changes == [] <==> Normalized(d) == d
  {
    var e, first := NormalizeGraph(d);
    var more;
    d', more := NormalizeAcceptance(e);
    LogsConcat(d, first, e, more, d');
    changes := first + more;
  }
}
