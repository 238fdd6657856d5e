/** What a reader of the validator's report learns about the run, field by field of the JSON document. */
module ReportOutcomes {
  import opened Sequences
  import opened Json
  import opened Report

  /** A JSON list of exactly these strings. */
  ghost predicate ListsStrings(j: Json, s: seq<string>) {
    j.Arr? && |j.items| == |s| && forall i :: 0 <= i < |s| ==> j.items[i] == Str(s[i])
  }

  lemma StringListLists(s: seq<string>)
    ensures ListsStrings(StringList(s), s)
  {
  }

  /** One entry of the `checks` list. */
  ghost predicate CheckReads(j: Json, name: string, passed: bool, detail: Json) {
    && j.Obj? && j.fields.Keys == {"check", "passed", "detail"}
    && Get(j, "check") == Some(Str(name)) && Get(j, "passed") == Some(Bool(passed)) && Get(j, "detail") == Some(detail)
  }

  // ---------------------------------------------------------------- the inventory check

  /** A failed inventory check says what was expected and what was recorded, and which is which. */
  lemma InventoryDetail(names: seq<string>, inventory: seq<string>)
    requires inventory != []
    ensures var c := InventoryCheck(names, inventory);
            && c.name == "Validator check inventory matches its canonical ordered sequence"
            && (c.passed <==> inventory == names + [inventory[|inventory| - 1]])
            && c.detail.Arr?
            && if c.passed then c.detail.items == []
               else
                 && |c.detail.items| == 1 && c.detail.items[0].Obj?
                 && c.detail.items[0].fields.Keys == {"expected", "actual"}
                 && ListsStrings(c.detail.items[0].fields["expected"], inventory[..|inventory| - 1])
                 && ListsStrings(c.detail.items[0].fields["actual"], names)
  {
    var expected, last := inventory[..|inventory| - 1], inventory[|inventory| - 1];
    assert inventory == expected + [last];
    if inventory == names + [last] { assert (names + [last])[..|names|] == names; }
    StringListLists(expected);
    StringListLists(names);
  }

  // ---------------------------------------------------------------- failures

  lemma {:induction false} FailedConcat(a: seq<Check>, b: seq<Check>)
    ensures Failed(a + b) == Failed(a) + Failed(b)
  {
    if b == [] {
      assert a + b == a;
    } else {
      var init, last := b[..|b| - 1], b[|b| - 1];
      assert b == init + [last] && a + b == (a + init) + [last];
      FailedConcat(a, init);
      FailedAppend(a + init, last);
      FailedAppend(init, last);
    }
  }

  /** The failed checks are listed under their names, each behind those that failed before it. */
  lemma FailedAt(checks: seq<Check>, i: nat)
    requires i < |checks| && !checks[i].passed
    ensures var k := |Failed(checks[..i])|;
            k < |Failed(checks)| && Failed(checks)[k] == checks[i].name
  {
    assert checks == checks[..i] + checks[i..] && checks[i..][0] == checks[i];
    FailedConcat(checks[..i], checks[i..]);
  }

  lemma {:induction false} FailedContains(checks: seq<Check>, name: string)
    ensures name in Failed(checks) <==> exists i :: 0 <= i < |checks| && !checks[i].passed && checks[i].name == name
  {
    if checks == [] {
    } else {
      var rest := checks[1..];
      FailedContains(rest, name);
      if i :| 0 <= i < |rest| && !rest[i].passed && rest[i].name == name { assert checks[i + 1] == rest[i]; }
      if i :| 0 <= i < |checks| && !checks[i].passed && checks[i].name == name {
        if i > 0 { assert rest[i - 1] == checks[i]; }
      }
    }
  }

  lemma NoneFailed(checks: seq<Check>)
    ensures Failed(checks) == [] <==> forall i :: 0 <= i < |checks| ==> checks[i].passed
  {
    if Failed(checks) == [] {
      forall i | 0 <= i < |checks| ensures checks[i].passed { FailedContains(checks, checks[i].name); }
    } else {
      FailedContains(checks, Failed(checks)[0]);
    }
  }

  // ---------------------------------------------------------------- the parts every report has

  lemma HeaderReads(e: Emission, initial: bool)
    ensures var r := Render(e, initial);
            && Get(r, "initial") == Some(Bool(initial))
            && Get(r, "scope") == Some(Str("Static planning-pack checks only"))
            && Get(r, "not_checked").Some?
            && ListsStrings(Get(r, "not_checked").value,
                            ["Product compilation", "Runtime capabilities", "Independent code review",
                             "Full ASD-STE100 dictionary conformity"])
  {
    StringListLists(NOT_CHECKED);
  }

  /** The verdict, the failures and the entries of `checks`, from the checks of a run. */
  ghost predicate BodyReads(r: Json, checks: seq<Check>) {
    && Get(r, "checks").Some? && Get(r, "checks").value.Arr? && |Get(r, "checks").value.items| == |checks|
    && (forall i :: 0 <= i < |checks| ==>
          CheckReads(Get(r, "checks").value.items[i], checks[i].name, checks[i].passed, checks[i].detail))
    && Get(r, "passed") == Some(Bool(forall i :: 0 <= i < |checks| ==> checks[i].passed))
    && Get(r, "failures").Some? && ListsStrings(Get(r, "failures").value, Failed(checks))
  }

  lemma RenderedEntry(c: Check)
    ensures CheckReads(RenderCheck(c), c.name, c.passed, c.detail)
  {
  }

  lemma RenderedBody(e: Emission, initial: bool)
    ensures BodyReads(Render(e, initial), ChecksOf(e))
  {
    var checks := ChecksOf(e);
    RenderedFields(e, initial);
    NoneFailed(checks);
    StringListLists(Failed(checks));
    forall i | 0 <= i < |checks|
      ensures CheckReads(RenderAll(checks)[i], checks[i].name, checks[i].passed, checks[i].detail)
    {
      RenderedEntry(checks[i]);
    }
  }

  ghost predicate CountsRead(j: Json, c: Counts) {
    && j.Obj?
    && j.fields.Keys == {"tasks", "cases", "specification_sections", "task_ready_groups", "checked_sentences"}
    && Get(j, "tasks") == Some(Int(c.tasks)) && Get(j, "cases") == Some(Int(c.cases))
    && Get(j, "specification_sections") == Some(Int(c.sections))
    && Get(j, "task_ready_groups") == Some(Int(c.groups)) && Get(j, "checked_sentences") == Some(Int(c.sentences))
  }

  lemma CountsFieldReads(c: Counts)
    ensures CountsRead(CountsField(c), c)
  {
  }

  // ---------------------------------------------------------------- run by run

  /** An exception: one failed check with the message, no counts, exit code 2. */
  lemma RaisedReads(message: string, required: seq<string>, initial: bool, inventory: seq<string>)
    requires inventory != []
    ensures var e := EmissionOf(Raised(message), required, inventory);
            && ExitCode(e) == 2 && Get(Render(e, initial), "counts") == Some(Obj(map[]))
            && BodyReads(Render(e, initial), [Check("Planning pack input is valid", false, Str(message))])
  {
    RenderedBody(InputError(message), initial);
  }

  lemma {:induction false} MissingInOrder(required: seq<string>, present: set<string>)
    ensures Missing(required, present) == [] <==> forall a :: a in required ==> a in present
  {
    if required == [] {
    } else {
      MissingInOrder(required[1..], present);
      assert required == [required[0]] + required[1..];
    }
  }

  /** A missing file: one failed check that names the required files that are not there, exit code 1. */
  lemma MissingReads(present: set<string>, results: seq<Check>, counts: Counts, required: seq<string>,
                     initial: bool, inventory: seq<string>) returns (missing: seq<string>)
    requires inventory != [] && exists a :: a in required && a !in present
    ensures var e := EmissionOf(Finished(present, results, counts), required, inventory);
            && ExitCode(e) == 1 && Get(Render(e, initial), "counts") == Some(Obj(map[]))
            && BodyReads(Render(e, initial), [Check("Required pack files exist", false, StringList(missing))])
    ensures forall a :: a in missing <==> a in required && a !in present
  {
    missing := Missing(required, present);
    MissingInOrder(required, present);
    forall a ensures a in missing <==> a in required && a !in present { MissingContains(required, present, a); }
    RenderedBody(MissingFiles(missing), initial);
    assert Failed(ChecksOf(MissingFiles(missing))) == ["Required pack files exist"];
  }

  /** All files there: every result in its place between the two fixed checks. */
  lemma FullRunChecks(present: set<string>, results: seq<Check>, counts: Counts, required: seq<string>,
                      inventory: seq<string>) returns (checks: seq<Check>)
    requires inventory != [] && forall a :: a in required ==> a in present
    ensures EmissionOf(Finished(present, results, counts), required, inventory) == Full(checks, counts)
    ensures |checks| == |results| + 2 && forall i :: 0 <= i < |results| ==> checks[i + 1] == results[i]
    ensures checks[0] == Check("Required pack files exist", true, Arr([]))
    ensures checks[|results| + 1] == InventoryCheck(Names(checks[..|results| + 1]), inventory)
  {
    MissingInOrder(required, present);
    var front := [FILES_PRESENT] + results;
    checks := front + [InventoryCheck(Names(front), inventory)];
    assert checks[..|results| + 1] == front;
  }

  /** Its report: the counts as they were, and exit code 0 exactly when every check passed. */
  lemma FullReads(checks: seq<Check>, counts: Counts, initial: bool)
    ensures var e := Full(checks, counts);
            && BodyReads(Render(e, initial), checks)
            && Get(Render(e, initial), "counts").Some? && CountsRead(Get(Render(e, initial), "counts").value, counts)
            && ExitCode(e) == if forall i :: 0 <= i < |checks| ==> checks[i].passed then 0 else 1
  {
    var e := Full(checks, counts);
    RenderedBody(e, initial);
    assert Get(Render(e, initial), "counts") == Some(CountsField(counts)) by { RenderedFields(e, initial); }
    CountsFieldReads(counts);
    NoneFailed(checks);
  }
}
