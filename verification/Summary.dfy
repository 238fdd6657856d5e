/** Case-status summaries and how they compose. */
module Summary {
  import opened Sequences
  import opened Board

  predicate AllPass(statuses: seq<CaseStatus>) {
    forall i :: 0 <= i < |statuses| ==> statuses[i] == Pass
  }

  lemma AllPassConcat(a: seq<CaseStatus>, b: seq<CaseStatus>)
    ensures AllPass(a + b) <==> AllPass(a) && AllPass(b)
  {
    if AllPass(a + b) {
      forall i | 0 <= i < |a| ensures a[i] == Pass { assert (a + b)[i] == a[i]; }
      forall i | 0 <= i < |b| ensures b[i] == Pass { assert (a + b)[|a| + i] == b[i]; }
    }
  }

  /** `case_status_summary`, and `status_summary` in the fixture runner. */
  function Summarize(statuses: seq<CaseStatus>): CaseStatus {
    if Fail in statuses then Fail
    else if Blocked in statuses then Blocked
    else if statuses != [] && AllPass(statuses) then Pass
    else NotRun
  }

  function SummarizeEach(groups: seq<seq<CaseStatus>>): (r: seq<CaseStatus>)
    ensures |r| == |groups|
  {
    seq(|groups|, i requires 0 <= i < |groups| => Summarize(groups[i]))
  }

  lemma AllPassMembers(s: seq<CaseStatus>)
    ensures AllPass(s) <==> forall x :: x in s ==> x == Pass
  {
    if forall x :: x in s ==> x == Pass {
      forall i | 0 <= i < |s| ensures s[i] == Pass { assert s[i] in s; }
    }
  }

  /** What each summary says about the statuses, whatever order they come in. */
  lemma SummaryMeans(statuses: seq<CaseStatus>)
    ensures Summarize(statuses) == Fail <==> Fail in statuses
    ensures Summarize(statuses) == Blocked <==> Blocked in statuses && Fail !in statuses
    ensures Summarize(statuses) == Pass <==> statuses != [] && forall s :: s in statuses ==> s == Pass
    ensures Summarize(statuses) in [Fail, Blocked, Pass, NotRun]
  {
    AllPassMembers(statuses);
  }

  lemma SummaryByMembers(a: seq<CaseStatus>, b: seq<CaseStatus>)
    requires forall s :: s in a <==> s in b
    ensures Summarize(a) == Summarize(b)
  {
    AllPassMembers(a);
    AllPassMembers(b);
    assert a != [] ==> a[0] in b;
    assert b != [] ==> b[0] in a;
  }

  /** The order of the statuses does not matter. */
  lemma SummaryIgnoresOrder(a: seq<CaseStatus>, b: seq<CaseStatus>)
    requires multiset(a) == multiset(b)
    ensures Summarize(a) == Summarize(b)
  {
    forall s ensures s in a <==> s in b {
      assert s in a <==> s in multiset(a);
      assert s in b <==> s in multiset(b);
    }
    SummaryByMembers(a, b);
  }

  /** A FAIL or BLOCKED shows through one level of summarising. */
  lemma {:induction false} BadStatusesShow(groups: seq<seq<CaseStatus>>)
    ensures Fail in SummarizeEach(groups) <==> Fail in Flatten(groups)
    ensures Fail !in Flatten(groups) ==> (Blocked in SummarizeEach(groups) <==> Blocked in Flatten(groups))
  {
    if groups == [] {
    } else {
      BadStatusesShow(groups[1..]);
      assert SummarizeEach(groups) == [Summarize(groups[0])] + SummarizeEach(groups[1..]);
    }
  }

  lemma {:induction false} AllPassShows(groups: seq<seq<CaseStatus>>)
    requires [] !in groups
    ensures AllPass(SummarizeEach(groups)) <==> AllPass(Flatten(groups))
    ensures Flatten(groups) == [] <==> groups == []
  {
    if groups == [] {
    } else {
      var head, rest := groups[0], groups[1..];
      assert forall g :: g in rest ==> g in groups;
      AllPassShows(rest);
      assert SummarizeEach(groups) == [Summarize(head)] + SummarizeEach(rest);
      AllPassConcat([Summarize(head)], SummarizeEach(rest));
      AllPassConcat(head, Flatten(rest));
      assert [Summarize(head)][0] == Summarize(head);
      AllPassMembers(head);
      assert head != [];
    }
  }

  /** Summarising group by group equals summarising at once, when no group is empty. */
  lemma SummaryComposes(groups: seq<seq<CaseStatus>>)
    requires [] !in groups
    ensures Summarize(SummarizeEach(groups)) == Summarize(Flatten(groups))
  {
    BadStatusesShow(groups);
    AllPassShows(groups);
  }

  /** An empty group counts as NOT_RUN, so composition fails exactly when the rest of the board has passed. */
  lemma SummaryComposesExactlyWhen(groups: seq<seq<CaseStatus>>)
    ensures Summarize(SummarizeEach(groups)) == Summarize(Flatten(groups)) <==>
            [] !in groups || Flatten(groups) == [] || !AllPass(Flatten(groups))
  {
    if [] in groups {
      var k :| 0 <= k < |groups| && groups[k] == [];
      assert SummarizeEach(groups)[k] == NotRun && !AllPass(SummarizeEach(groups));
      BadStatusesShow(groups);
      AllPassMembers(Flatten(groups));
    } else {
      SummaryComposes(groups);
    }
  }

  /** One passed case beside one without rows. */
  lemma EmptyGroupBreaksComposition()
    ensures Summarize(SummarizeEach([[Pass], []])) == NotRun && Summarize(Flatten([[Pass], []])) == Pass
  {
    var groups: seq<seq<CaseStatus>> := [[Pass], []];
    assert SummarizeEach(groups) == [Pass, NotRun];
    assert groups[1..] == [[]] && groups[1..][1..] == [];
    assert Flatten(groups) == [Pass];
    assert SummarizeEach(groups)[1] == NotRun;
  }
}
