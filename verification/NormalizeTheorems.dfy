/** What normalising keeps, and when the result passes the `--initial` checks. */
module NormalizeTheorems {
  import opened Sequences
  import opened Json
  import opened Normalize

  // ---------------------------------------------------------------- idempotence

  lemma SetStatusTwice(j: Json, value: Json)
    ensures SetStatus(SetStatus(j, value), value) == SetStatus(j, value)
  {
  }

  lemma PrefixTwice(items: seq<Json>, target: Json)
    ensures NormPrefix(NormPrefix(items, target, |items|), target, |items|) == NormPrefix(items, target, |items|)
  {
    var once := NormPrefix(items, target, |items|);
    forall k | 0 <= k < |items| ensures NormPrefix(once, target, |items|)[k] == once[k] {
      SetStatusTwice(items[k], target);
    }
  }

  lemma CaseParts(c: Json)
    ensures Rows(NormCase(c)) == NormPrefix(Rows(c), NOT_RUN, |Rows(c)|)
    ensures c.Obj? ==> NormCase(c).Obj? && NormCase(c).fields.Keys == c.fields.Keys
    ensures c.Obj? && "status" in c.fields ==> NormCase(c).fields["status"] == NOT_RUN
    ensures c.Obj? ==> forall k :: k in c.fields && k != "status" && k != "assignment_results" ==>
                                   NormCase(c).fields[k] == c.fields[k]
    ensures !c.Obj? ==> NormCase(c) == c
  {
  }

  lemma CaseTwice(c: Json)
    ensures NormCase(NormCase(c)) == NormCase(c)
  {
    var once := NormCase(c);
    CaseParts(c);
    PrefixTwice(Rows(c), NOT_RUN);
    if c.Obj? {
      if "status" in c.fields { SetStatusSame(once); }
      assert SetStatus(once, NOT_RUN) == once;
      WithItemsSame(once.fields, "assignment_results");
    }
  }

  lemma CasesTwice(cases: seq<Json>)
    ensures NormCases(NormCases(cases, |cases|), |cases|) == NormCases(cases, |cases|)
  {
    var once := NormCases(cases, |cases|);
    forall k | 0 <= k < |cases| ensures NormCases(once, |cases|)[k] == once[k] { CaseTwice(cases[k]); }
  }

  /** Where each part of the normal graph comes from. */
  lemma GraphParts(d: Docs)
    ensures var g := Normalized(d).graph;
            && Items(g, "tasks") == NormPrefix(Items(d.graph, "tasks"), NOT_STARTED, |Items(d.graph, "tasks")|)
            && g.Keys == d.graph.Keys
            && ("tasks" in d.graph ==> (g["tasks"].Arr? <==> d.graph["tasks"].Arr?))
            && ("tasks" in d.graph && !d.graph["tasks"].Arr? ==> g["tasks"] == d.graph["tasks"])
            && (forall m :: m in {SUBAGENTS_MARKER, RUNTIME_MARKER} && m in d.graph ==>
                  g[m] == if d.graph[m] == Bool(true) then Bool(false) else d.graph[m])
            && (forall k :: k in d.graph && k !in {"tasks", SUBAGENTS_MARKER, RUNTIME_MARKER} ==> g[k] == d.graph[k])
  {
  }

  /** Where each part of the normal acceptance manifest comes from. */
  lemma AcceptanceParts(d: Docs)
    ensures var a := Normalized(d).acceptance;
            && Items(a, "cases") == NormCases(Items(d.acceptance, "cases"), |Items(d.acceptance, "cases")|)
            && a.Keys == d.acceptance.Keys
            && ("cases" in d.acceptance ==> (a["cases"].Arr? <==> d.acceptance["cases"].Arr?))
            && ("cases" in d.acceptance && !d.acceptance["cases"].Arr? ==> a["cases"] == d.acceptance["cases"])
            && ("status" in d.acceptance ==> a["status"] == NOT_RUN)
            && (forall k :: k in d.acceptance && k !in {"status", "cases"} ==> a[k] == d.acceptance[k])
  {
  }

  /** Main result: normalising twice is normalising once. */
  lemma NormalizeIdempotent(d: Docs)
    ensures Normalized(Normalized(d)) == Normalized(d)
  {
    var n := Normalized(d);
    GraphParts(d);
    AcceptanceParts(d);
    var tasks, cases := Items(d.graph, "tasks"), Items(d.acceptance, "cases");
    PrefixTwice(tasks, NOT_STARTED);
    WithItemsSame(n.graph, "tasks");
    assert TasksUpTo(n, |tasks|) == n;
    assert ClearMarker(n, SUBAGENTS_MARKER) == n && ClearMarker(n, RUNTIME_MARKER) == n;
    assert ResetRoot(n) == n by {
      if "status" in n.acceptance { assert n.acceptance["status" := NOT_RUN] == n.acceptance; }
    }
    CasesTwice(cases);
    WithItemsSame(n.acceptance, "cases");
    assert CasesUpTo(n, |cases|) == n;
  }

  // ---------------------------------------------------------------- authored projections

  function Without(j: Json, keys: set<string>): Json {
    if j.Obj? then Obj(j.fields - keys) else j
  }

  function EachWithout(items: seq<Json>, keys: set<string>): (r: seq<Json>)
    ensures |r| == |items|
  {
    seq(|items|, i requires 0 <= i < |items| => Without(items[i], keys))
  }

  function TaskProjection(d: Docs): seq<Json> {
    EachWithout(Items(d.graph, "tasks"), {"status"})
  }

  function CaseProjection(d: Docs): seq<Json> {
    EachWithout(Items(d.acceptance, "cases"), {"status", "assignment_results"})
  }

  function GraphProjection(d: Docs): map<string, Json> {
    d.graph - {SUBAGENTS_MARKER, RUNTIME_MARKER, "tasks", "topological_ready_groups"}
  }

  /** Two items that differ at most in these keys. */
  ghost predicate AgreeBut(a: Json, b: Json, keys: set<string>) {
    a == b || (a.Obj? && b.Obj? && forall k :: k !in keys ==> Get(a, k) == Get(b, k))
  }

  lemma WithoutIff(a: Json, b: Json, keys: set<string>)
    ensures Without(a, keys) == Without(b, keys) <==> AgreeBut(a, b, keys)
  {
    if a.Obj? && b.Obj? {
      if Without(a, keys) == Without(b, keys) {
        forall k | k !in keys ensures Get(a, k) == Get(b, k) {
          assert k in a.fields <==> k in a.fields - keys;
          assert k in b.fields <==> k in b.fields - keys;
        }
      }
      if forall k :: k !in keys ==> Get(a, k) == Get(b, k) {
        forall k ensures k in a.fields - keys <==> k in b.fields - keys {
          assert k !in keys ==> Get(a, k) == Get(b, k);
        }
        assert (a.fields - keys).Keys == (b.fields - keys).Keys;
        forall k | k in a.fields - keys ensures (a.fields - keys)[k] == (b.fields - keys)[k] {
          assert Get(a, k) == Get(b, k);
        }
        assert a.fields - keys == b.fields - keys;
      }
    }
  }

  lemma EachWithoutIff(a: seq<Json>, b: seq<Json>, keys: set<string>)
    ensures EachWithout(a, keys) == EachWithout(b, keys) <==>
            |a| == |b| && forall i :: 0 <= i < |a| ==> AgreeBut(a[i], b[i], keys)
  {
    var x, y := EachWithout(a, keys), EachWithout(b, keys);
    if |a| == |b| {
      forall i | 0 <= i < |a| ensures x[i] == y[i] <==> AgreeBut(a[i], b[i], keys) { WithoutIff(a[i], b[i], keys); }
    }
    if x == y {
      assert |x| == |y|;
      forall i | 0 <= i < |a| ensures AgreeBut(a[i], b[i], keys) { assert x[i] == y[i]; }
    }
  }

  /** A projection misses exactly the fields it leaves out: any other edit of a task or case shows. */
  lemma ProjectionsSee(d: Docs, e: Docs)
    ensures TaskProjection(d) == TaskProjection(e) <==>
            && |Items(d.graph, "tasks")| == |Items(e.graph, "tasks")|
            && forall i :: 0 <= i < |Items(d.graph, "tasks")| ==>
                 AgreeBut(Items(d.graph, "tasks")[i], Items(e.graph, "tasks")[i], {"status"})
    ensures CaseProjection(d) == CaseProjection(e) <==>
            && |Items(d.acceptance, "cases")| == |Items(e.acceptance, "cases")|
            && forall i :: 0 <= i < |Items(d.acceptance, "cases")| ==>
                 AgreeBut(Items(d.acceptance, "cases")[i], Items(e.acceptance, "cases")[i],
                          {"status", "assignment_results"})
  {
    EachWithoutIff(Items(d.graph, "tasks"), Items(e.graph, "tasks"), {"status"});
    EachWithoutIff(Items(d.acceptance, "cases"), Items(e.acceptance, "cases"), {"status", "assignment_results"});
  }

  lemma TaskProjectionKept(d: Docs)
    ensures TaskProjection(Normalized(d)) == TaskProjection(d)
  {
    GraphParts(d);
    var tasks := Items(d.graph, "tasks");
    forall i | 0 <= i < |tasks| ensures TaskProjection(Normalized(d))[i] == TaskProjection(d)[i] {
      if tasks[i].Obj? {
        assert SetStatus(tasks[i], NOT_STARTED).fields - {"status"} == tasks[i].fields - {"status"};
      }
    }
  }

  lemma CaseProjectionKept(d: Docs)
    ensures CaseProjection(Normalized(d)) == CaseProjection(d)
  {
    AcceptanceParts(d);
    var cases := Items(d.acceptance, "cases");
    forall i | 0 <= i < |cases| ensures CaseProjection(Normalized(d))[i] == CaseProjection(d)[i] {
      CaseParts(cases[i]);
      if cases[i].Obj? {
        assert NormCase(cases[i]).fields - {"status", "assignment_results"}
            == cases[i].fields - {"status", "assignment_results"};
      }
    }
  }

  /** Main result: none of the three authored projections moves. */
  lemma ProjectionsKept(d: Docs)
    ensures TaskProjection(Normalized(d)) == TaskProjection(d)
    ensures CaseProjection(Normalized(d)) == CaseProjection(d)
    ensures GraphProjection(Normalized(d)) == GraphProjection(d)
  {
    TaskProjectionKept(d);
    CaseProjectionKept(d);
    assert GraphProjection(Normalized(d)) == GraphProjection(d) by { GraphParts(d); }
  }

  // ---------------------------------------------------------------- the initial-only checks

  predicate HasStatus(j: Json) {
    j.Obj? && "status" in j.fields
  }

  predicate AllHaveStatus(items: seq<Json>) {
    forall i :: 0 <= i < |items| ==> HasStatus(items[i])
  }

  predicate AllAre(items: seq<Json>, value: Json) {
    forall i :: 0 <= i < |items| ==> Get(items[i], "status") == Some(value)
  }

  predicate IsList(fields: map<string, Json>, key: string) {
    key in fields && fields[key].Arr?
  }

  predicate RowsAreList(c: Json) {
    c.Obj? && IsList(c.fields, "assignment_results")
  }

  /** Without these the validator raises before or inside the initial-only checks. */
  predicate RecordsPresent(d: Docs) {
    && IsList(d.graph, "tasks") && AllHaveStatus(Items(d.graph, "tasks"))
    && IsList(d.acceptance, "cases") && AllHaveStatus(Items(d.acceptance, "cases"))
  }

  /** "Initial task, case, and assignment statuses claim no execution". */
  predicate ClaimsNoExecution(d: Docs) {
    && AllAre(Items(d.graph, "tasks"), NOT_STARTED)
    && AllAre(Items(d.acceptance, "cases"), NOT_RUN)
    && "status" in d.acceptance && d.acceptance["status"] == NOT_RUN
    && forall i :: 0 <= i < |Items(d.acceptance, "cases")| ==>
         RowsAreList(Items(d.acceptance, "cases")[i]) && AllAre(Rows(Items(d.acceptance, "cases")[i]), NOT_RUN)
  }

  /** "Pack records no runtime tests or delegated reviews". */
  predicate MarkersClear(d: Docs) {
    forall m :: m in {SUBAGENTS_MARKER, RUNTIME_MARKER} ==> m in d.graph && d.graph[m] == Bool(false)
  }

  predicate InitialChecksPass(d: Docs) {
    RecordsPresent(d) && ClaimsNoExecution(d) && MarkersClear(d)
  }

  /** Every record carries a status to reset, and both markers are Boolean. */
  predicate Resettable(d: Docs) {
    && RecordsPresent(d) && "status" in d.acceptance
    && (forall i :: 0 <= i < |Items(d.acceptance, "cases")| ==>
          RowsAreList(Items(d.acceptance, "cases")[i]) && AllHaveStatus(Rows(Items(d.acceptance, "cases")[i])))
    && (forall m :: m in {SUBAGENTS_MARKER, RUNTIME_MARKER} ==> m in d.graph && d.graph[m].Bool?)
  }

  lemma PrefixStatuses(items: seq<Json>, target: Json)
    ensures AllAre(NormPrefix(items, target, |items|), target) <==> AllHaveStatus(items)
    ensures AllHaveStatus(NormPrefix(items, target, |items|)) <==> AllHaveStatus(items)
  {
    var r := NormPrefix(items, target, |items|);
    forall i | 0 <= i < |items|
      ensures Get(r[i], "status") == Some(target) <==> HasStatus(items[i])
      ensures HasStatus(r[i]) <==> HasStatus(items[i])
    {
      assert r[i] == SetStatus(items[i], target);
    }
  }

  lemma CaseStatuses(c: Json)
    ensures HasStatus(NormCase(c)) <==> HasStatus(c)
    ensures Get(NormCase(c), "status") == Some(NOT_RUN) <==> HasStatus(c)
    ensures RowsAreList(NormCase(c)) <==> RowsAreList(c)
    ensures AllAre(Rows(NormCase(c)), NOT_RUN) <==> AllHaveStatus(Rows(c))
  {
    CaseParts(c);
    PrefixStatuses(Rows(c), NOT_RUN);
  }

  lemma CasesStatusesIff(cases: seq<Json>, reset: seq<Json>)
    requires |reset| == |cases|
    requires forall i :: 0 <= i < |cases| ==>
               && (HasStatus(reset[i]) <==> HasStatus(cases[i]))
               && (Get(reset[i], "status") == Some(NOT_RUN) <==> HasStatus(cases[i]))
    ensures AllHaveStatus(reset) <==> AllHaveStatus(cases)
    ensures AllAre(reset, NOT_RUN) <==> AllHaveStatus(cases)
  {
  }

  /** Main result: the reset pack passes both initial-only checks exactly when it was resettable. */
  lemma NormalizedPassesInitialIff(d: Docs)
    ensures InitialChecksPass(Normalized(d)) <==> Resettable(d)
  {
    var n := Normalized(d);
    GraphParts(d);
    AcceptanceParts(d);
    PrefixStatuses(Items(d.graph, "tasks"), NOT_STARTED);
    var cases := Items(d.acceptance, "cases");
    var reset := Items(n.acceptance, "cases");
    forall i | 0 <= i < |cases|
      ensures reset[i] == NormCase(cases[i])
      ensures HasStatus(reset[i]) <==> HasStatus(cases[i])
      ensures Get(reset[i], "status") == Some(NOT_RUN) <==> HasStatus(cases[i])
      ensures RowsAreList(reset[i]) <==> RowsAreList(cases[i])
      ensures AllAre(Rows(reset[i]), NOT_RUN) <==> AllHaveStatus(Rows(cases[i]))
    {
      CaseStatuses(cases[i]);
    }
    CasesStatusesIff(cases, reset);
  }

  // ---------------------------------------------------------------- field by field

  /** `after` is `before` with the status, if there is one, set to `target`, and every other key as it was. */
  ghost predicate StatusReset(before: Json, after: Json, target: string) {
    && (after.Obj? <==> before.Obj?) && (!before.Obj? ==> after == before)
    && (forall k :: k != "status" ==> Get(after, k) == Get(before, k))
    && Get(after, "status") == if Get(before, "status").Some? then Some(Str(target)) else None
  }

  /** A list of as many items, each one reset in its place; anything but a list is kept. */
  ghost predicate ListReset(before: Json, after: Json, target: string) {
    if before.Arr? then
      && after.Arr? && |after.items| == |before.items|
      && forall i :: 0 <= i < |before.items| ==> StatusReset(before.items[i], after.items[i], target)
    else after == before
  }

  ghost predicate FieldListReset(before: Option<Json>, after: Option<Json>, target: string) {
    if before.Some? then after.Some? && ListReset(before.value, after.value, target) else after.None?
  }

  /** A case keeps every key but its status and the rows, and the rows keep every key but theirs. */
  ghost predicate CaseReset(before: Json, after: Json) {
    && (after.Obj? <==> before.Obj?) && (!before.Obj? ==> after == before)
    && (forall k :: k != "status" && k != "assignment_results" ==> Get(after, k) == Get(before, k))
    && (Get(after, "status") == if Get(before, "status").Some? then Some(Str("NOT_RUN")) else None)
    && FieldListReset(Get(before, "assignment_results"), Get(after, "assignment_results"), "NOT_RUN")
  }

  ghost predicate CasesReset(before: Json, after: Json) {
    if before.Arr? then
      && after.Arr? && |after.items| == |before.items|
      && forall i :: 0 <= i < |before.items| ==> CaseReset(before.items[i], after.items[i])
    else after == before
  }

  ghost predicate IsMarker(key: string) {
    key == "subagents_used_for_this_pack" || key == "runtime_tests_executed_for_this_pack"
  }

  ghost predicate GraphReset(before: map<string, Json>, after: map<string, Json>) {
    && after.Keys == before.Keys
    && (forall k :: k in before && k != "tasks" && !IsMarker(k) ==> after[k] == before[k])
    && (forall k :: k in before && IsMarker(k) ==>
          after[k] == if before[k] == Bool(true) then Bool(false) else before[k])
    && ("tasks" in before ==> ListReset(before["tasks"], after["tasks"], "NOT_STARTED"))
  }

  ghost predicate AcceptanceReset(before: map<string, Json>, after: map<string, Json>) {
    && after.Keys == before.Keys
    && (forall k :: k in before && k != "status" && k != "cases" ==> after[k] == before[k])
    && ("status" in before ==> after["status"] == Str("NOT_RUN"))
    && ("cases" in before ==> CasesReset(before["cases"], after["cases"]))
  }

  lemma SetStatusResets(j: Json, target: string)
    ensures StatusReset(j, SetStatus(j, Str(target)), target)
  {
  }

  lemma PrefixResets(items: seq<Json>, target: string)
    ensures ListReset(Arr(items), Arr(NormPrefix(items, Str(target), |items|)), target)
  {
    forall i | 0 <= i < |items| ensures StatusReset(items[i], SetStatus(items[i], Str(target)), target) {
      SetStatusResets(items[i], target);
    }
  }

  lemma NormCaseResets(c: Json)
    ensures CaseReset(c, NormCase(c))
  {
    CaseParts(c);
    PrefixResets(Rows(c), "NOT_RUN");
  }

  /** What the reset does to every field, and that it reaches no other. */
  lemma NormalizedResets(d: Docs)
    ensures GraphReset(d.graph, Normalized(d).graph)
    ensures AcceptanceReset(d.acceptance, Normalized(d).acceptance)
  {
    GraphParts(d);
    AcceptanceParts(d);
    PrefixResets(Items(d.graph, "tasks"), "NOT_STARTED");
    var cases := Items(d.acceptance, "cases");
    forall i | 0 <= i < |cases| ensures CaseReset(cases[i], NormCases(cases, |cases|)[i]) {
      NormCaseResets(cases[i]);
    }
  }

  // ---------------------------------------------------------------- and nothing else fits

  lemma SameGets(a: Json, b: Json)
    requires a.Obj? && b.Obj? && forall k :: Get(a, k) == Get(b, k)
    ensures a == b
  {
    forall k ensures k in a.fields <==> k in b.fields { assert Get(a, k) == Get(b, k); }
    assert a.fields.Keys == b.fields.Keys;
    forall k | k in a.fields ensures a.fields[k] == b.fields[k] { assert Get(a, k) == Get(b, k); }
    assert a.fields == b.fields;
  }

  lemma StatusResetUnique(before: Json, a: Json, b: Json, target: string)
    requires StatusReset(before, a, target) && StatusReset(before, b, target)
    ensures a == b
  {
    if before.Obj? { SameGets(a, b); }
  }

  lemma ListResetUnique(before: Json, a: Json, b: Json, target: string)
    requires ListReset(before, a, target) && ListReset(before, b, target)
    ensures a == b
  {
    if before.Arr? {
      forall i | 0 <= i < |before.items| ensures a.items[i] == b.items[i] {
        StatusResetUnique(before.items[i], a.items[i], b.items[i], target);
      }
      assert a.items == b.items;
    }
  }

  lemma CaseResetUnique(before: Json, a: Json, b: Json)
    requires CaseReset(before, a) && CaseReset(before, b)
    ensures a == b
  {
    if before.Obj? {
      var rows := Get(before, "assignment_results");
      if rows.Some? {
        ListResetUnique(rows.value, Get(a, "assignment_results").value, Get(b, "assignment_results").value, "NOT_RUN");
      }
      SameGets(a, b);
    }
  }

  lemma CasesResetUnique(before: Json, a: Json, b: Json)
    requires CasesReset(before, a) && CasesReset(before, b)
    ensures a == b
  {
    if before.Arr? {
      forall i | 0 <= i < |before.items| ensures a.items[i] == b.items[i] {
        CaseResetUnique(before.items[i], a.items[i], b.items[i]);
      }
      assert a.items == b.items;
    }
  }

  lemma GraphResetUnique(before: map<string, Json>, a: map<string, Json>, b: map<string, Json>)
    requires GraphReset(before, a) && GraphReset(before, b)
    ensures a == b
  {
    if "tasks" in before { ListResetUnique(before["tasks"], a["tasks"], b["tasks"], "NOT_STARTED"); }
    forall k | k in a ensures a[k] == b[k] {
      assert k in before;
      if k != "tasks" && !IsMarker(k) { assert a[k] == before[k] && b[k] == before[k]; }
    }
  }

  lemma AcceptanceResetUnique(before: map<string, Json>, a: map<string, Json>, b: map<string, Json>)
    requires AcceptanceReset(before, a) && AcceptanceReset(before, b)
    ensures a == b
  {
    if "cases" in before { CasesResetUnique(before["cases"], a["cases"], b["cases"]); }
    forall k | k in a ensures a[k] == b[k] {
      assert k in before;
      if k != "status" && k != "cases" { assert a[k] == before[k] && b[k] == before[k]; }
    }
  }

  /** Main result: the reset documents are the only ones whose fields all differ from the originals as said. */
  lemma NormalizedIsTheReset(d: Docs, e: Docs)
    ensures e == Normalized(d) <==> GraphReset(d.graph, e.graph) && AcceptanceReset(d.acceptance, e.acceptance)
  {
    NormalizedResets(d);
    if GraphReset(d.graph, e.graph) && AcceptanceReset(d.acceptance, e.acceptance) {
      GraphResetUnique(d.graph, e.graph, Normalized(d).graph);
      AcceptanceResetUnique(d.acceptance, e.acceptance, Normalized(d).acceptance);
    }
  }
}
