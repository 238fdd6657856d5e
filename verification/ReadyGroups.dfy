/** The checks on the stored ready groups, and the fixture functions that rebuild or count them. */
module ReadyGroups {
  import opened Sequences
  import opened Board
  import opened TaskGraph
  import Ordering

  /** `dependency_lists_valid`: no task names a dependency twice. */
  predicate DependencyListsValid(tasks: seq<Task>) {
    forall t :: t in tasks ==> Distinct(t.dependsOn)
  }

  ghost predicate DescribesGroup(tasks: seq<Task>, group: seq<Id>, k: nat) {
    && group != [] && Distinct(group)
    && forall a :: a in group <==> Grounded(tasks, a) && HasHeight(tasks, a, k)
  }

  /**
   What a stored layering ought to say, with no mention of the loop: group `k` lists, once each,
   the tasks whose longest dependency chain has `k` steps, and no groundable task is left out.
   */
  ghost predicate Describes(tasks: seq<Task>, stored: seq<seq<Id>>) {
    && (forall k :: 0 <= k < |stored| ==> DescribesGroup(tasks, stored[k], k))
    && (forall a :: Grounded(tasks, a) ==> exists k :: 0 <= k < |stored| && a in stored[k])
  }

  /** The comparison itself: no id twice anywhere, and equal groups once each is sorted. */
  predicate SameGroups(levels: seq<seq<Id>>, stored: seq<seq<Id>>) {
    && Distinct(Flatten(stored))
    && |stored| == |levels|
    && forall k :: 0 <= k < |levels| ==> Ordering.Sort(stored[k]) == Ordering.Sort(levels[k])
  }

  lemma {:induction false} ReadyDistinct(tasks: seq<Task>, done: set<Id>)
    requires UniqueIds(tasks)
    ensures Distinct(ReadyIds(tasks, done))
  {
    if tasks == [] {
    } else {
      var ids, rest := TaskIds(tasks), tasks[1..];
      assert TaskIds(rest) == ids[1..];
      ReadyDistinct(rest, done);
      ReadyIsKnown(rest, done);
      assert ids[0] !in Elements(ids[1..]);
      DistinctConcat([tasks[0].id], ReadyIds(rest, done));
      assert tasks[0].id !in ReadyIds(rest, done) by {
        assert forall a :: a in ReadyIds(rest, done) ==> a in Elements(ReadyIds(rest, done));
      }
    }
  }

  /** The loop's own groups describe the graph. */
  lemma LayeringDescribes(tasks: seq<Task>, levels: seq<seq<Id>>)
    requires UniqueIds(tasks) && IsLayering(tasks, levels)
    ensures Describes(tasks, levels)
  {
    forall k | 0 <= k < |levels| ensures DescribesGroup(tasks, levels[k], k) {
      assert LayerAt(tasks, levels, k);
      ReadyDistinct(tasks, Done(levels[..k]));
      forall a ensures a in levels[k] <==> Grounded(tasks, a) && HasHeight(tasks, a, k) {
        DoneIsGrounded(tasks, levels, a);
        if a in levels[k] { TheGroup(tasks, levels, a, k); }
        if a in Done(levels) { GroupIndexIsHeight(tasks, levels, a, k); }
      }
    }
    forall a | Grounded(tasks, a) ensures exists k :: 0 <= k < |levels| && a in levels[k] {
      DoneIsGrounded(tasks, levels, a);
      DoneContains(levels, a);
    }
  }

  lemma DescriptionsSameLength(tasks: seq<Task>, x: seq<seq<Id>>, y: seq<seq<Id>>)
    requires Describes(tasks, x) && Describes(tasks, y)
    ensures |x| <= |y|
  {
    if x != [] {
      var k := |x| - 1;
      assert DescribesGroup(tasks, x[k], k);
      var a := x[k][0];
      assert a in x[k];
      var j :| 0 <= j < |y| && a in y[j];
      assert DescribesGroup(tasks, y[j], j);
      assert HasHeight(tasks, a, j) && HasHeight(tasks, a, k);
    }
  }

  lemma DescriptionsFlatDistinct(tasks: seq<Task>, stored: seq<seq<Id>>)
    requires Describes(tasks, stored)
    ensures Distinct(Flatten(stored))
  {
    assert forall k :: 0 <= k < |stored| ==> DescribesGroup(tasks, stored[k], k);
    forall k, l, a | 0 <= k < l < |stored| && a in stored[k] ensures a !in stored[l] {
      assert DescribesGroup(tasks, stored[k], k) && DescribesGroup(tasks, stored[l], l);
    }
    FlattenDistinct(stored);
  }

  lemma SameGroupContents(tasks: seq<Task>, x: seq<Id>, y: seq<Id>, k: nat)
    requires DescribesGroup(tasks, x, k)
    ensures Ordering.Sort(x) == Ordering.Sort(y) <==> DescribesGroup(tasks, y, k)
  {
    Ordering.SortIsCanonical(x, y);
    if multiset(x) == multiset(y) {
      DistinctCounts(x);
      DistinctCounts(y);
      assert forall a :: a in x <==> a in multiset(x);
      assert forall a :: a in y <==> a in multiset(y);
      assert x[0] in multiset(y);
    } else if DescribesGroup(tasks, y, k) {
      assert Elements(x) == Elements(y);
      DistinctSameElements(x, y);
    }
  }

  lemma DescribesIsSame(tasks: seq<Task>, levels: seq<seq<Id>>, stored: seq<seq<Id>>)
    requires Describes(tasks, levels) && Describes(tasks, stored)
    ensures SameGroups(levels, stored)
  {
    DescriptionsSameLength(tasks, levels, stored);
    DescriptionsSameLength(tasks, stored, levels);
    DescriptionsFlatDistinct(tasks, stored);
    forall k | 0 <= k < |levels| ensures Ordering.Sort(stored[k]) == Ordering.Sort(levels[k]) {
      assert DescribesGroup(tasks, levels[k], k) && DescribesGroup(tasks, stored[k], k);
      SameGroupContents(tasks, levels[k], stored[k], k);
    }
  }

  lemma SameIsDescribed(tasks: seq<Task>, levels: seq<seq<Id>>, stored: seq<seq<Id>>)
    requires Describes(tasks, levels) && SameGroups(levels, stored)
    ensures Describes(tasks, stored)
  {
    forall k | 0 <= k < |stored| ensures DescribesGroup(tasks, stored[k], k) {
      assert DescribesGroup(tasks, levels[k], k);
      SameGroupContents(tasks, levels[k], stored[k], k);
    }
    forall a | Grounded(tasks, a) ensures exists k :: 0 <= k < |stored| && a in stored[k] {
      var k :| 0 <= k < |levels| && a in levels[k];
      assert DescribesGroup(tasks, levels[k], k) && DescribesGroup(tasks, stored[k], k);
      assert a in stored[k];
    }
  }

  /** Main result: the stored-groups check accepts exactly the layerings by longest chain. */
  lemma SameGroupsIffDescribes(tasks: seq<Task>, levels: seq<seq<Id>>, stored: seq<seq<Id>>)
    requires UniqueIds(tasks) && IsLayering(tasks, levels)
    ensures SameGroups(levels, stored) <==> Describes(tasks, stored)
  {
    LayeringDescribes(tasks, levels);
    if Describes(tasks, stored) { DescribesIsSame(tasks, levels, stored); }
    if SameGroups(levels, stored) { SameIsDescribed(tasks, levels, stored); }
  }

  /** `stored_group_counts`: how often each id occurs over all stored groups. */
  method CountIds(ids: seq<Id>) returns (counts: map<Id, nat>)
    ensures counts.Keys == Elements(ids)
    ensures forall a :: a in counts ==> counts[a] == multiset(ids)[a]
  {
    counts := map[];
    for i := 0 to |ids|
      invariant counts.Keys == Elements(ids[..i])
      invariant forall a :: a in counts ==> counts[a] == multiset(ids[..i])[a]
    {
      assert ids[..i + 1] == ids[..i] + [ids[i]];
      assert ids[i] !in ids[..i] ==> multiset(ids[..i])[ids[i]] == 0;
      counts := counts[ids[i] := (if ids[i] in counts then counts[ids[i]] else 0) + 1];
    }
    assert ids[..|ids|] == ids;
  }

  ghost predicate AllGrounded(tasks: seq<Task>) {
    forall a :: a in Known(tasks) ==> Grounded(tasks, a)
  }

  lemma CountsDetectRepeats(ids: seq<Id>, counts: map<Id, nat>)
    requires counts.Keys == Elements(ids) && forall a :: a in counts ==> counts[a] == multiset(ids)[a]
    ensures (forall a :: a in counts ==> counts[a] <= 1) <==> Distinct(ids)
  {
    DistinctCounts(ids);
    forall a ensures a in counts || multiset(ids)[a] == 0 {
      assert a in ids <==> a in multiset(ids);
    }
  }

  lemma DoneDecidesGrounded(tasks: seq<Task>, levels: seq<seq<Id>>)
    requires UniqueIds(tasks) && IsLayering(tasks, levels)
    ensures Done(levels) == Known(tasks) <==> AllGrounded(tasks)
  {
    DoneWithinKnown(tasks, levels);
    forall a ensures a in Done(levels) <==> Grounded(tasks, a) { DoneIsGrounded(tasks, levels, a); }
  }

  /** The layering part of the validator: group count and the verdicts of its two checks. */
  method CheckLayering(tasks: seq<Task>, stored: seq<seq<Id>>)
    returns (groupCount: nat, acyclic: bool, storedMatch: bool)
    ensures !DependencyListsValid(tasks) ==> groupCount == 0 && acyclic && storedMatch
    ensures DependencyListsValid(tasks) ==> forall levels :: IsLayering(tasks, levels) ==>
              && groupCount == |levels|
              && (acyclic <==> Done(levels) == Known(tasks))
              && (storedMatch <==> SameGroups(levels, stored))
    ensures DependencyListsValid(tasks) && UniqueIds(tasks) ==>
              (acyclic <==> AllGrounded(tasks)) && (storedMatch <==> Describes(tasks, stored))
  {
    if !DependencyListsValid(tasks) {
      return 0, true, true;
    }
    var levels, done := ReadinessGroups(tasks);
    acyclic := done == Known(tasks);
    groupCount := |levels|;
    var flat := Flatten(stored);
    var counts := CountIds(flat);
    storedMatch :=
      && (forall a :: a in counts ==> counts[a] <= 1)
      && |stored| == |levels|
      && forall k :: 0 <= k < |levels| ==> Ordering.Sort(stored[k]) == Ordering.Sort(levels[k]);
    CountsDetectRepeats(flat, counts);
    forall other | IsLayering(tasks, other) ensures other == levels {
      LayeringUnique(tasks, levels, other);
    }
    if UniqueIds(tasks) {
      SameGroupsIffDescribes(tasks, levels, stored);
      DoneDecidesGrounded(tasks, levels);
    }
  }

  /**
   `recompute_ready_groups`, None when it raises. Its loop compares with the number of records, so
   it raises on repeated ids as well as on a cyclic or dangling graph; otherwise the groups it
   stores are ones the validator accepts.
   */
  method RecomputeReadyGroups(tasks: seq<Task>) returns (groups: Option<seq<seq<Id>>>)
    ensures groups.Some? <==> UniqueIds(tasks) && AllGrounded(tasks)
    ensures groups.Some? ==> IsLayering(tasks, groups.value) && Describes(tasks, groups.value)
  {
    var done: set<Id>, levels := {}, [];
    CardinalityDetectsRepeats(TaskIds(tasks));
    while |done| < |tasks|
      invariant LayersSoFar(tasks, levels) && done == Done(levels) && done <= Known(tasks)
      decreases Known(tasks) - done
    {
      var ready := ReadyIds(tasks, done);
      if ready == [] {
        if UniqueIds(tasks) { DoneDecidesGrounded(tasks, levels); }
        return None;
      }
      ReadyIsKnown(tasks, done);
      ExtendLayers(tasks, levels, ready);
      assert ready[0] in Elements(ready);
      levels := levels + [ready];
      done := done + Elements(ready);
    }
    SubsetCardinality(done, Known(tasks));
    NothingLeft(tasks);
    DoneDecidesGrounded(tasks, levels);
    LayeringDescribes(tasks, levels);
    return Some(levels);
  }

  /** The `task_ready_groups` count `derive_expected_counts` recomputes on its own. */
  method DeriveReadyGroupCount(tasks: seq<Task>) returns (groups: nat)
    ensures !DependencyListsValid(tasks) ==> groups == 0
    ensures DependencyListsValid(tasks) ==> forall levels :: IsLayering(tasks, levels) ==> groups == |levels|
  {
    groups := 0;
    if !DependencyListsValid(tasks) { return; }
    var done: set<Id> := {};
    ghost var levels := [];
    while |done| < |Known(tasks)|
      invariant LayersSoFar(tasks, levels) && groups == |levels|
      invariant done == Done(levels) && done <= Known(tasks)
      decreases Known(tasks) - done
    {
      var ready := ReadyIds(tasks, done);
      if ready == [] { break; }
      ReadyIsKnown(tasks, done);
      ExtendLayers(tasks, levels, ready);
      assert ready[0] in Elements(ready);
      groups := groups + 1;
      levels := levels + [ready];
      done := done + Elements(ready);
    }
    SubsetCardinality(done, Known(tasks));
    NothingLeft(tasks);
    forall other | IsLayering(tasks, other) ensures groups == |other| {
      LayeringUnique(tasks, levels, other);
    }
  }

  // ---------------------------------------------------------------- when raising means a cycle

  ghost predicate HasCycle(tasks: seq<Task>) {
    exists c :: IsCycle(tasks, c)
  }

  /** A grounded graph has no dependency outside itself ... */
  lemma GroundedIsKnown(tasks: seq<Task>)
    requires AllGrounded(tasks)
    ensures DependenciesKnown(tasks)
  {
    forall t, d | t in tasks && d in t.dependsOn ensures d in Known(tasks) {
      RecordIsKnown(tasks, t);
      assert DependsDirectly(tasks, t.id, d);
      var p := [t.id, d];
      assert ChainFrom(tasks, t.id, p) && p[1] in Elements(p);
    }
  }

  /** ... and no cycle. */
  lemma GroundedHasNoCycle(tasks: seq<Task>)
    requires AllGrounded(tasks)
    ensures !HasCycle(tasks)
  {
    if c :| IsCycle(tasks, c) {
      assert DependsDirectly(tasks, c[0], c[1]);
      var t :| t in tasks && t.id == c[0];
      RecordIsKnown(tasks, t);
      assert ChainFrom(tasks, c[0], c);
      assert c[0] == c[|c| - 1];
      assert !Distinct(c);
    }
  }

  lemma {:induction false} LayeringExists(tasks: seq<Task>, sofar: seq<seq<Id>>) returns (levels: seq<seq<Id>>)
    requires LayersSoFar(tasks, sofar)
    ensures IsLayering(tasks, levels)
    decreases Known(tasks) - Done(sofar)
  {
    var ready := ReadyIds(tasks, Done(sofar));
    if ready == [] {
      levels := sofar;
    } else {
      ReadyIsKnown(tasks, Done(sofar));
      ExtendLayers(tasks, sofar, ready);
      assert ready[0] in Elements(ready);
      levels := LayeringExists(tasks, sofar + [ready]);
    }
  }

  /**
   `recompute_ready_groups` always names a cycle when it raises. That message is right for a graph
   exactly when the graph has a cycle, or has unique ids and no dependency outside itself.
   */
  lemma RaisesOnlyOnCyclesIff(tasks: seq<Task>)
    ensures (UniqueIds(tasks) && AllGrounded(tasks) <==> !HasCycle(tasks)) <==>
            HasCycle(tasks) || (UniqueIds(tasks) && DependenciesKnown(tasks))
  {
    if AllGrounded(tasks) {
      GroundedIsKnown(tasks);
      GroundedHasNoCycle(tasks);
    }
    if UniqueIds(tasks) && DependenciesKnown(tasks) && !HasCycle(tasks) {
      var levels := LayeringExists(tasks, []);
      CompleteIffAcyclic(tasks, levels);
      DoneDecidesGrounded(tasks, levels);
    }
  }

  const REPEATED := Task("P01", "owner", [], NotStarted, [])
  const DANGLING := Task("P01", "owner", ["P02"], NotStarted, [])

  /** Two graphs without a cycle that raise: a repeated id ... */
  lemma RaisesOnRepeatedId(a: Task)
    requires a == REPEATED
    ensures !HasCycle([a, a]) && !UniqueIds([a, a])
  {
    assert TaskIds([a, a])[0] == TaskIds([a, a])[1];
    forall c ensures !IsCycle([a, a], c) {
      if |c| >= 2 { assert !DependsDirectly([a, a], c[0], c[1]); }
    }
  }

  lemma DanglingChain(b: Task, c: seq<Id>)
    requires b == DANGLING && IsChain([b], c) && |c| >= 2
    ensures c[0] == "P01" && c[|c| - 1] == "P02"
  {
    assert DependsDirectly([b], c[0], c[1]) && DependsDirectly([b], c[|c| - 2], c[|c| - 1]);
  }

  /** ... and a dependency outside the graph. */
  lemma RaisesOnUnknownDependency(b: Task)
    requires b == DANGLING
    ensures !HasCycle([b]) && UniqueIds([b]) && !AllGrounded([b])
  {
    forall c ensures !IsCycle([b], c) {
      if IsChain([b], c) && |c| >= 2 { DanglingChain(b, c); }
    }
    assert "P02" in b.dependsOn && "P02" !in Known([b]) && b in [b];
    if AllGrounded([b]) { GroundedIsKnown([b]); }
  }
}
