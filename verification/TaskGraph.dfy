/**
 The dependency graph of the planning pack and its readiness layering: the loop that peels ready
 tasks group by group, and what the groups mean.
 */
module TaskGraph {
  import opened Sequences
  import opened Board

  // ---------------------------------------------------------------- dependencies and chains

  ghost predicate DependsDirectly(tasks: seq<Task>, a: Id, b: Id) {
    exists t :: t in tasks && t.id == a && b in t.dependsOn
  }

  /** A walk along dependencies; every element but the last is a task of the graph. */
  ghost predicate IsChain(tasks: seq<Task>, p: seq<Id>) {
    p != [] && forall i :: 0 <= i < |p| - 1 ==> DependsDirectly(tasks, p[i], p[i + 1])
  }

  ghost predicate ChainFrom(tasks: seq<Task>, a: Id, p: seq<Id>) {
    IsChain(tasks, p) && p[0] == a
  }

  /** `d` is a dependency of `a`, direct or through other tasks. */
  ghost predicate DependsOn(tasks: seq<Task>, a: Id, d: Id) {
    exists p :: ChainFrom(tasks, a, p) && |p| >= 2 && p[|p| - 1] == d
  }

  ghost predicate IsCycle(tasks: seq<Task>, c: seq<Id>) {
    IsChain(tasks, c) && |c| >= 2 && c[0] == c[|c| - 1]
  }

  /** Every dependency chain that starts here stays inside the graph and never loops. */
  ghost predicate Grounded(tasks: seq<Task>, a: Id) {
    forall p :: ChainFrom(tasks, a, p) ==> Elements(p) <= Known(tasks) && Distinct(p)
  }

  /** The longest dependency chain that starts at `a` has `k` steps. */
  ghost predicate HasHeight(tasks: seq<Task>, a: Id, k: nat) {
    && (exists p :: ChainFrom(tasks, a, p) && |p| == k + 1)
    && (forall p :: ChainFrom(tasks, a, p) ==> |p| <= k + 1)
  }

  predicate DependenciesKnown(tasks: seq<Task>) {
    forall t, d :: t in tasks && d in t.dependsOn ==> d in Known(tasks)
  }

  // ---------------------------------------------------------------- the readiness layering

  predicate AllIn(deps: seq<Id>, done: set<Id>) {
    forall d :: d in deps ==> d in done
  }

  /** One pass of the comprehension: ids not done whose dependencies all are. */
  function ReadyIds(tasks: seq<Task>, done: set<Id>): seq<Id> {
    if tasks == [] then []
    else
      var t := tasks[0];
      (if t.id !in done && AllIn(t.dependsOn, done) then [t.id] else []) + ReadyIds(tasks[1..], done)
  }

  ghost predicate CanStart(tasks: seq<Task>, done: set<Id>, a: Id) {
    exists t :: t in tasks && t.id == a && AllIn(t.dependsOn, done)
  }

  lemma {:induction false} ReadyIff(tasks: seq<Task>, done: set<Id>, a: Id)
    ensures a in ReadyIds(tasks, done) <==> a !in done && CanStart(tasks, done, a)
  {
    if tasks == [] {
    } else {
      ReadyIff(tasks[1..], done, a);
      if t :| t in tasks && t.id == a && AllIn(t.dependsOn, done) && t != tasks[0] {
        assert t in tasks[1..];
      }
      if t :| t in tasks[1..] && t.id == a && AllIn(t.dependsOn, done) { assert t in tasks; }
    }
  }

  function Done(levels: seq<seq<Id>>): set<Id> {
    if levels == [] then {}
    else Done(levels[..|levels| - 1]) + Elements(levels[|levels| - 1])
  }

  ghost predicate LayerAt(tasks: seq<Task>, levels: seq<seq<Id>>, k: nat)
    requires k < |levels|
  {
    levels[k] != [] && levels[k] == ReadyIds(tasks, Done(levels[..k]))
  }

  /** Each group is what is ready once the earlier groups are done. */
  ghost predicate LayersSoFar(tasks: seq<Task>, levels: seq<seq<Id>>) {
    forall k :: 0 <= k < |levels| ==> LayerAt(tasks, levels, k)
  }

  /** ... and nothing is ready after the last one. */
  ghost predicate IsLayering(tasks: seq<Task>, levels: seq<seq<Id>>) {
    LayersSoFar(tasks, levels) && ReadyIds(tasks, Done(levels)) == []
  }

  lemma DoneAppend(levels: seq<seq<Id>>, ready: seq<Id>)
    ensures Done(levels + [ready]) == Done(levels) + Elements(ready)
  {
  }

  lemma ExtendLayers(tasks: seq<Task>, levels: seq<seq<Id>>, ready: seq<Id>)
    requires LayersSoFar(tasks, levels) && ready == ReadyIds(tasks, Done(levels)) && ready != []
    ensures LayersSoFar(tasks, levels + [ready])
    ensures Done(levels + [ready]) == Done(levels) + Elements(ready)
  {
    DoneAppend(levels, ready);
    var more := levels + [ready];
    forall k | 0 <= k < |more| ensures LayerAt(tasks, more, k) {
      assert more[..k] == levels[..k];
      if k < |levels| { assert LayerAt(tasks, levels, k); } else { assert levels[..k] == levels; }
    }
  }

  lemma ReadyIsKnown(tasks: seq<Task>, done: set<Id>)
    ensures Elements(ReadyIds(tasks, done)) <= Known(tasks) - done
  {
    forall a | a in ReadyIds(tasks, done) ensures a in Known(tasks) {
      ReadyIff(tasks, done, a);
      var t :| t in tasks && t.id == a;
      RecordIsKnown(tasks, t);
    }
    forall a | a in ReadyIds(tasks, done) ensures a !in done { ReadyIff(tasks, done, a); }
  }

  lemma NothingLeft(tasks: seq<Task>)
    ensures ReadyIds(tasks, Known(tasks)) == []
  {
    var r := ReadyIds(tasks, Known(tasks));
    assert r != [] ==> r[0] in Elements(r);
    ReadyIsKnown(tasks, Known(tasks));
  }

  /** The readiness loop, shared word for word by the validator and the fixture runner. */
  method ReadinessGroups(tasks: seq<Task>) returns (levels: seq<seq<Id>>, done: set<Id>)
    ensures IsLayering(tasks, levels) && done == Done(levels) && done <= Known(tasks)
  {
    done, levels := {}, [];
    while |done| < |Known(tasks)|
      invariant LayersSoFar(tasks, levels) && done == Done(levels) && done <= Known(tasks)
      decreases Known(tasks) - done
    {
      var ready := ReadyIds(tasks, done);
      if ready == [] { return; }
      ReadyIsKnown(tasks, done);
      ExtendLayers(tasks, levels, ready);
      assert ready[0] in Elements(ready);
      levels := levels + [ready];
      done := done + Elements(ready);
    }
    SubsetCardinality(done, Known(tasks));
    NothingLeft(tasks);
  }

  lemma {:induction false} AgreeUpTo(tasks: seq<Task>, a: seq<seq<Id>>, b: seq<seq<Id>>, n: nat)
    requires LayersSoFar(tasks, a) && LayersSoFar(tasks, b) && n <= |a| && n <= |b|
    ensures a[..n] == b[..n]
  {
    if n > 0 {
      AgreeUpTo(tasks, a, b, n - 1);
      assert LayerAt(tasks, a, n - 1) && LayerAt(tasks, b, n - 1);
      assert a[..n] == a[..n - 1] + [a[n - 1]] && b[..n] == b[..n - 1] + [b[n - 1]];
    }
  }

  lemma NotLonger(tasks: seq<Task>, a: seq<seq<Id>>, b: seq<seq<Id>>)
    requires IsLayering(tasks, a) && LayersSoFar(tasks, b)
    ensures |b| <= |a|
  {
    if |b| > |a| {
      assert LayerAt(tasks, b, |a|) && a[..|a|] == a;
      AgreeUpTo(tasks, a, b, |a|);
    }
  }

  /** The layering is unique, so any two runs agree group by group. */
  lemma {:induction false} LayeringUnique(tasks: seq<Task>, a: seq<seq<Id>>, b: seq<seq<Id>>)
    requires IsLayering(tasks, a) && IsLayering(tasks, b)
    ensures a == b
  {
    NotLonger(tasks, a, b);
    NotLonger(tasks, b, a);
    AgreeUpTo(tasks, a, b, |a|);
    assert a[..|a|] == a && b[..|a|] == b;
  }

  // ---------------------------------------------------------------- the group of a task

  /** The index of the last group that holds `a`; groups are disjoint, so it is the only one. */
  function LevelOf(levels: seq<seq<Id>>, a: Id): (k: nat)
    requires a in Done(levels)
    ensures k < |levels| && a in levels[k]
  {
    var n := |levels| - 1;
    if a in levels[n] then n else LevelOf(levels[..n], a)
  }

  lemma {:induction false} DoneContains(levels: seq<seq<Id>>, a: Id)
    ensures a in Done(levels) <==> exists k :: 0 <= k < |levels| && a in levels[k]
  {
    if levels == [] {
    } else {
      var n := |levels| - 1;
      DoneContains(levels[..n], a);
      if k :| 0 <= k < |levels| && a in levels[k] && k != n { assert a in levels[..n][k]; }
      if k :| 0 <= k < n && a in levels[..n][k] { assert a in levels[k]; }
    }
  }

  lemma GroupsDisjoint(tasks: seq<Task>, levels: seq<seq<Id>>, a: Id, j: nat, k: nat)
    requires LayersSoFar(tasks, levels) && j < k < |levels| && a in levels[j]
    ensures a !in levels[k]
  {
    assert LayerAt(tasks, levels, k);
    assert a in levels[..k][j];
    DoneContains(levels[..k], a);
    ReadyIff(tasks, Done(levels[..k]), a);
  }

  lemma TheGroup(tasks: seq<Task>, levels: seq<seq<Id>>, a: Id, k: nat)
    requires LayersSoFar(tasks, levels) && k < |levels| && a in levels[k]
    ensures a in Done(levels) && LevelOf(levels, a) == k
  {
    DoneContains(levels, a);
    var l := LevelOf(levels, a);
    if k < l { GroupsDisjoint(tasks, levels, a, k, l); }
    if l < k { GroupsDisjoint(tasks, levels, a, l, k); }
  }

  lemma TheRecord(tasks: seq<Task>, t: Task, u: Task)
    requires UniqueIds(tasks) && t in tasks && u in tasks && t.id == u.id
    ensures t == u
  {
    UniqueLookup(tasks, t);
    UniqueLookup(tasks, u);
  }

  lemma GroupMeans(tasks: seq<Task>, levels: seq<seq<Id>>, a: Id) returns (t: Task)
    requires UniqueIds(tasks) && LayersSoFar(tasks, levels) && a in Done(levels)
    ensures t in tasks && t.id == a && AllIn(t.dependsOn, Done(levels[..LevelOf(levels, a)]))
    ensures forall b :: DependsDirectly(tasks, a, b) <==> b in t.dependsOn
  {
    var k := LevelOf(levels, a);
    assert LayerAt(tasks, levels, k);
    ReadyIff(tasks, Done(levels[..k]), a);
    t :| t in tasks && t.id == a && AllIn(t.dependsOn, Done(levels[..k]));
    forall u | u in tasks && u.id == a ensures u == t { TheRecord(tasks, t, u); }
  }

  /** A dependency of a layered task is layered, in an earlier group. */
  lemma DependencyIsEarlier(tasks: seq<Task>, levels: seq<seq<Id>>, a: Id, b: Id)
    requires UniqueIds(tasks) && LayersSoFar(tasks, levels)
    requires a in Done(levels) && DependsDirectly(tasks, a, b)
    ensures b in Done(levels) && LevelOf(levels, b) < LevelOf(levels, a)
  {
    var k := LevelOf(levels, a);
    var t := GroupMeans(tasks, levels, a);
    DoneContains(levels[..k], b);
    var j :| 0 <= j < k && b in levels[..k][j];
    assert b in levels[j];
    TheGroup(tasks, levels, b, j);
  }

  /** Group indices fall strictly along every chain, so a chain is short, distinct and known. */
  lemma {:induction false} ChainDescends(tasks: seq<Task>, levels: seq<seq<Id>>, p: seq<Id>, n: nat)
    requires UniqueIds(tasks) && LayersSoFar(tasks, levels)
    requires IsChain(tasks, p) && p[0] in Done(levels) && n < |p|
    ensures p[n] in Done(levels) && LevelOf(levels, p[n]) + n <= LevelOf(levels, p[0])
  {
    if n > 0 {
      ChainDescends(tasks, levels, p, n - 1);
      assert DependsDirectly(tasks, p[n - 1], p[n]);
      DependencyIsEarlier(tasks, levels, p[n - 1], p[n]);
    }
  }

  lemma {:induction false} DoneWithinKnown(tasks: seq<Task>, levels: seq<seq<Id>>)
    requires LayersSoFar(tasks, levels)
    ensures Done(levels) <= Known(tasks)
  {
    forall a | a in Done(levels) ensures a in Known(tasks) {
      var k := LevelOf(levels, a);
      assert LayerAt(tasks, levels, k);
      ReadyIsKnown(tasks, Done(levels[..k]));
      assert a in Elements(levels[k]);
    }
  }

  lemma LayeredIsGrounded(tasks: seq<Task>, levels: seq<seq<Id>>, a: Id)
    requires UniqueIds(tasks) && LayersSoFar(tasks, levels) && a in Done(levels)
    ensures Grounded(tasks, a)
  {
    DoneWithinKnown(tasks, levels);
    forall p | ChainFrom(tasks, a, p) ensures Elements(p) <= Known(tasks) && Distinct(p) {
      forall n | 0 <= n < |p| ensures p[n] in Done(levels) {
        ChainDescends(tasks, levels, p, n);
      }
      forall i, j | 0 <= i < j < |p| ensures p[i] != p[j] {
        var q := p[i..];
        forall n | 0 <= n < |q| - 1 ensures DependsDirectly(tasks, q[n], q[n + 1]) {
          assert q[n] == p[i + n] && q[n + 1] == p[(i + n) + 1];
        }
        ChainDescends(tasks, levels, q, j - i);
      }
    }
  }

  /** A task the loop never reaches has a dependency the loop never reaches. */
  lemma StuckOn(tasks: seq<Task>, levels: seq<seq<Id>>, a: Id) returns (b: Id)
    requires IsLayering(tasks, levels) && a in Known(tasks) && a !in Done(levels)
    ensures DependsDirectly(tasks, a, b) && b !in Done(levels)
  {
    var t := KnownIsARecord(tasks, a);
    ReadyIff(tasks, Done(levels), a);
    b :| b in t.dependsOn && b !in Done(levels);
  }

  /** From such a task there are chains of every length, unless one leaves the graph. */
  lemma StuckChain(tasks: seq<Task>, levels: seq<seq<Id>>, a: Id, n: nat) returns (p: seq<Id>)
    requires IsLayering(tasks, levels) && a in Known(tasks) && a !in Done(levels)
    ensures ChainFrom(tasks, a, p)
    ensures |p| == n + 1 || p[|p| - 1] !in Known(tasks)
  {
    p := [a];
    for k := 0 to n
      invariant ChainFrom(tasks, a, p) && |p| == k + 1
      invariant p[k] in Known(tasks) && p[k] !in Done(levels)
    {
      var b := StuckOn(tasks, levels, p[k]);
      p := p + [b];
      if b !in Known(tasks) { return; }
    }
  }

  /** Main result: what the loop marks done is exactly the grounded part of the graph. */
  lemma DoneIsGrounded(tasks: seq<Task>, levels: seq<seq<Id>>, a: Id)
    requires UniqueIds(tasks) && IsLayering(tasks, levels)
    ensures a in Done(levels) <==> Grounded(tasks, a)
  {
    if a in Done(levels) {
      LayeredIsGrounded(tasks, levels, a);
    } else if a !in Known(tasks) {
      assert ChainFrom(tasks, a, [a]);
      assert a in Elements([a]);
    } else {
      var p := StuckChain(tasks, levels, a, |Known(tasks)|);
      if Grounded(tasks, a) {
        assert p[|p| - 1] in Elements(p);
        var i, j := Pigeonhole(p, Known(tasks));
      }
    }
  }

  /** When the loop stops short of a graph whose dependencies are all known, here is a cycle. */
  lemma ExhibitCycle(tasks: seq<Task>, levels: seq<seq<Id>>, a: Id) returns (c: seq<Id>)
    requires IsLayering(tasks, levels) && DependenciesKnown(tasks)
    requires a in Known(tasks) && a !in Done(levels)
    ensures IsCycle(tasks, c)
  {
    var p := StuckChain(tasks, levels, a, |Known(tasks)|);
    forall n | 0 <= n < |p| ensures p[n] in Known(tasks) {
      if n > 0 { assert DependsDirectly(tasks, p[n - 1], p[n]); }
    }
    var i, j := Pigeonhole(p, Known(tasks));
    c := p[i..j + 1];
    forall k | 0 <= k < |c| - 1 ensures DependsDirectly(tasks, c[k], c[k + 1]) {
      assert c[k] == p[i + k] && c[k + 1] == p[(i + k) + 1];
    }
  }

  /** The check "Dependency graph has no cycle" decides exactly that. */
  lemma CompleteIffAcyclic(tasks: seq<Task>, levels: seq<seq<Id>>)
    requires UniqueIds(tasks) && IsLayering(tasks, levels) && DependenciesKnown(tasks)
    ensures Done(levels) == Known(tasks) <==> !exists c :: IsCycle(tasks, c)
  {
    DoneWithinKnown(tasks, levels);
    if Done(levels) == Known(tasks) {
      forall c | IsCycle(tasks, c) ensures false {
        assert DependsDirectly(tasks, c[0], c[1]);
        var t :| t in tasks && t.id == c[0];
        RecordIsKnown(tasks, t);
        ChainDescends(tasks, levels, c, |c| - 1);
      }
    } else {
      var a :| a in Known(tasks) && a !in Done(levels);
      var c := ExhibitCycle(tasks, levels, a);
    }
  }

  // ---------------------------------------------------------------- longest chains

  lemma NotYetReady(tasks: seq<Task>, levels: seq<seq<Id>>, a: Id)
    requires LayersSoFar(tasks, levels) && a in Done(levels) && LevelOf(levels, a) > 0
    ensures !CanStart(tasks, Done(levels[..LevelOf(levels, a) - 1]), a)
  {
    var k := LevelOf(levels, a);
    var earlier := levels[..k - 1];
    if a in Done(earlier) {
      var j := LevelOf(earlier, a);
      GroupsDisjoint(tasks, levels, a, j, k);
    }
    if a in levels[k - 1] { GroupsDisjoint(tasks, levels, a, k - 1, k); }
    assert LayerAt(tasks, levels, k - 1);
    ReadyIff(tasks, Done(earlier), a);
  }

  /** A task beyond the first group waits for something in the group just before its own. */
  lemma WaitsForPreviousGroup(tasks: seq<Task>, levels: seq<seq<Id>>, a: Id) returns (b: Id)
    requires UniqueIds(tasks) && LayersSoFar(tasks, levels)
    requires a in Done(levels) && LevelOf(levels, a) > 0
    ensures DependsDirectly(tasks, a, b) && b in Done(levels)
    ensures LevelOf(levels, b) + 1 == LevelOf(levels, a)
  {
    var k := LevelOf(levels, a);
    var earlier := Done(levels[..k - 1]);
    DoneAppend(levels[..k - 1], levels[k - 1]);
    assert levels[..k - 1] + [levels[k - 1]] == levels[..k];
    var t := GroupMeans(tasks, levels, a);
    NotYetReady(tasks, levels, a);
    b :| b in t.dependsOn && b !in earlier;
    TheGroup(tasks, levels, b, k - 1);
  }

  lemma {:induction false} LongestChain(tasks: seq<Task>, levels: seq<seq<Id>>, a: Id) returns (p: seq<Id>)
    requires UniqueIds(tasks) && LayersSoFar(tasks, levels) && a in Done(levels)
    ensures ChainFrom(tasks, a, p) && |p| == LevelOf(levels, a) + 1
    decreases LevelOf(levels, a)
  {
    if LevelOf(levels, a) == 0 {
      p := [a];
    } else {
      var b := WaitsForPreviousGroup(tasks, levels, a);
      var q := LongestChain(tasks, levels, b);
      p := [a] + q;
      assert forall i :: 0 < i < |p| ==> p[i] == q[i - 1];
    }
  }

  /** Main result: the group index is the length of the longest dependency chain. */
  lemma GroupIndexIsHeight(tasks: seq<Task>, levels: seq<seq<Id>>, a: Id, k: nat)
    requires UniqueIds(tasks) && LayersSoFar(tasks, levels) && a in Done(levels)
    ensures HasHeight(tasks, a, k) <==> LevelOf(levels, a) == k
  {
    var p := LongestChain(tasks, levels, a);
    forall q | ChainFrom(tasks, a, q) ensures |q| <= LevelOf(levels, a) + 1 {
      ChainDescends(tasks, levels, q, |q| - 1);
    }
  }

  /** An arbitrary assignment of ranks in which every task comes after its dependencies. */
  ghost predicate RespectsDependencies(tasks: seq<Task>, rank: map<Id, nat>) {
    forall a, b :: DependsDirectly(tasks, a, b) ==> a in rank && b in rank && rank[b] < rank[a]
  }

  lemma {:induction false} RankFallsAlong(tasks: seq<Task>, rank: map<Id, nat>, p: seq<Id>, n: nat)
    requires RespectsDependencies(tasks, rank) && IsChain(tasks, p) && n < |p| && p[0] in rank
    ensures p[n] in rank && rank[p[n]] + n <= rank[p[0]]
  {
    if n > 0 {
      RankFallsAlong(tasks, rank, p, n - 1);
      assert DependsDirectly(tasks, p[n - 1], p[n]);
    }
  }

  /** No dependency-respecting layering places any task earlier than the loop does. */
  lemma EarliestPossible(tasks: seq<Task>, levels: seq<seq<Id>>, rank: map<Id, nat>, a: Id)
    requires UniqueIds(tasks) && LayersSoFar(tasks, levels) && a in Done(levels)
    requires RespectsDependencies(tasks, rank) && a in rank
    ensures LevelOf(levels, a) <= rank[a]
  {
    var p := LongestChain(tasks, levels, a);
    RankFallsAlong(tasks, rank, p, |p| - 1);
  }
}
