/** What a board the status checks accept guarantees, across all tasks and cases at once. */
module BoardTheorems {
  import opened Sequences
  import opened Board
  import opened TaskGraph
  import opened Summary
  import opened StatusChecks

  /** A recorded result means its task has no dependency short of PASS. */
  lemma RecordedTaskIsComplete(p: Pack, c: Case, r: Row, t: Task)
    requires Consistent(p) && c in p.cases && c.rows.List? && r in c.rows.value && r.Row? && r.status != NotRun
    requires t in p.tasks && t.id == r.taskId
    ensures !Incomplete(p.tasks, t.dependsOn)
  {
  }

  lemma {:induction false} ChainAllPass(p: Pack, t: Task, chain: seq<Id>, n: nat)
    requires Consistent(p) && t in p.tasks && !Incomplete(p.tasks, t.dependsOn)
    requires ChainFrom(p.tasks, t.id, chain) && 0 < n < |chain|
    ensures StatusOf(p.tasks, chain[n]) == Some(TaskPass)
  {
    assert DependsDirectly(p.tasks, chain[n - 1], chain[n]);
    var u :| u in p.tasks && u.id == chain[n - 1] && chain[n] in u.dependsOn;
    if n == 1 {
      TheRecord(p.tasks, t, u);
    } else {
      ChainAllPass(p, t, chain, n - 1);
      UniqueLookup(p.tasks, u);
    }
  }

  lemma PassedTaskPasses(p: Pack, d: Id, c: Case, r: Row)
    requires Consistent(p) && StatusOf(p.tasks, d) == Some(TaskPass)
    requires c in p.cases && c.rows.List? && r in c.rows.value && r.Row? && r.taskId == d
    ensures r.status == Pass
  {
  }

  /**
   Main result: once any result other than NOT_RUN is recorded for a task, every task it depends on,
   however indirectly, has passed, and so has every assignment of those tasks.
   */
  lemma RecordedResultNeedsPassedDependencies(p: Pack, c: Case, r: Row, d: Id)
    requires Consistent(p) && c in p.cases && c.rows.List? && r in c.rows.value && r.Row? && r.status != NotRun
    requires DependsOn(p.tasks, r.taskId, d)
    ensures StatusOf(p.tasks, d) == Some(TaskPass)
    ensures forall c', r' ::
              c' in p.cases && c'.rows.List? && r' in c'.rows.value && r'.Row? && r'.taskId == d ==> r'.status == Pass
  {
    var chain :| ChainFrom(p.tasks, r.taskId, chain) && |chain| >= 2 && chain[|chain| - 1] == d;
    assert DependsDirectly(p.tasks, chain[0], chain[1]);
    var t :| t in p.tasks && t.id == r.taskId;
    RecordedTaskIsComplete(p, c, r, t);
    ChainAllPass(p, t, chain, |chain| - 1);
    forall c', r' | c' in p.cases && c'.rows.List? && r' in c'.rows.value && r'.Row? && r'.taskId == d
      ensures r'.status == Pass
    {
      PassedTaskPasses(p, d, c', r');
    }
  }

  function AllRowStatuses(cases: seq<Case>): (groups: seq<seq<CaseStatus>>)
    requires forall c :: c in cases ==> c.rows.List? && WellFormed(c.rows.value)
    ensures |groups| == |cases|
  {
    seq(|cases|, i requires 0 <= i < |cases| => RowStatuses(cases[i].rows.value))
  }

  /**
   Main result: two levels of checked summaries pin the manifest status to the flat summary of every
   assignment row on the board.
   */
  lemma ManifestIsFlatSummary(p: Pack)
    requires Consistent(p)
    ensures forall c :: c in p.cases ==> c.rows.List? && WellFormed(c.rows.value)
    ensures p.manifestStatus == Summarize(Flatten(AllRowStatuses(p.cases)))
  {
    assert forall c :: c in p.cases ==> CaseAccepted(p.tasks, c);
    var groups := AllRowStatuses(p.cases);
    forall i | 0 <= i < |groups| ensures groups[i] != [] && Summarize(groups[i]) == p.cases[i].status {
      assert CaseAccepted(p.tasks, p.cases[i]);
      var ids := RowIds(p.cases[i].rows.value);
      assert Elements(ids) != {} && (ids == [] ==> Elements(ids) == {});
    }
    assert SummarizeEach(groups) == CaseStatuses(p.cases);
    SummaryComposes(groups);
  }
}
