/**
 The validator's machine-readable report and its independent checker. `EmissionOf` is what a run of the
 validator reports; `InspectReport` is `inspect_report`, defined on arbitrary JSON. Neither covers the
 other: the theorems at the end say exactly which reports they share.
 */
module Report {
  import opened Sequences
  import opened Json

  const SCOPE := "Static planning-pack checks only"
  const NOT_CHECKED := ["Product compilation", "Runtime capabilities", "Independent code review",
                        "Full ASD-STE100 dictionary conformity"]
  const REQUIRED_FILES_CHECK := "Required pack files exist"
  const INPUT_CHECK := "Planning pack input is valid"
  const INVENTORY_CHECK := "Validator check inventory matches its canonical ordered sequence"
  const INITIAL_ONLY := ["Initial task, case, and assignment statuses claim no execution",
                         "Pack records no runtime tests or delegated reviews"]
  const FIELDS := {"passed", "initial", "scope", "not_checked", "counts", "checks", "failures"}
  const COUNT_NAMES := {"tasks", "cases", "specification_sections", "task_ready_groups", "checked_sentences"}

  datatype Check = Check(name: string, passed: bool, detail: Json)

  datatype Counts = Counts(tasks: nat, cases: nat, sections: nat, groups: nat, sentences: nat)

  /** The three shapes of report the validator prints. */
  datatype Emission =
    | MissingFiles(missing: seq<string>)
    | InputError(message: string)
    | Full(checks: seq<Check>, counts: Counts)

  // ---------------------------------------------------------------- the producer

  /** `canonical_check_inventory`, for a given list of ordinary check names. */
  function Inventory(ordinary: seq<string>, initial: bool): seq<string> {
    ordinary + (if initial then INITIAL_ONLY else []) + [INVENTORY_CHECK]
  }

  function Names(checks: seq<Check>): (names: seq<string>)
    ensures |names| == |checks|
  {
    seq(|checks|, i requires 0 <= i < |checks| => checks[i].name)
  }

  /** Names of the failed checks, in order. */
  function Failed(checks: seq<Check>): seq<string> {
    if checks == [] then []
    else (if checks[0].passed then [] else [checks[0].name]) + Failed(checks[1..])
  }

  lemma {:induction false} FailedAppend(checks: seq<Check>, c: Check)
    ensures Failed(checks + [c]) == Failed(checks) + (if c.passed then [] else [c.name])
  {
    if checks == [] {
    } else {
      FailedAppend(checks[1..], c);
      assert (checks + [c])[1..] == checks[1..] + [c];
    }
  }

  /** The two lists `check` appends to. */
  class Recorder {
    var checks: seq<Check>
    var failures: seq<string>

    constructor ()
      ensures checks == [] && failures == []
    {
      checks, failures := [], [];
    }

    method Record(name: string, good: bool, detail: Json)
      requires failures == Failed(checks)
      modifies this
      ensures checks == old(checks) + [Check(name, good, detail)]
      ensures failures == Failed(checks)
    {
      FailedAppend(checks, Check(name, good, detail));
      checks := checks + [Check(name, good, detail)];
      if !good {
        failures := failures + [name];
      }
    }
  }

  function ChecksOf(e: Emission): seq<Check> {
    match e
    case MissingFiles(missing) => [Check(REQUIRED_FILES_CHECK, false, StringList(missing))]
    case InputError(message) => [Check(INPUT_CHECK, false, Str(message))]
    case Full(checks, _) => checks
  }

  function RenderCheck(c: Check): Json {
    Obj(map["check" := Str(c.name), "passed" := Bool(c.passed), "detail" := c.detail])
  }

  function CountsField(c: Counts): Json {
    Obj(map["tasks" := Int(c.tasks), "cases" := Int(c.cases), "specification_sections" := Int(c.sections),
            "task_ready_groups" := Int(c.groups), "checked_sentences" := Int(c.sentences)])
  }

  function RenderCounts(e: Emission): Json {
    match e
    case Full(_, c) => CountsField(c)
    case _ => Obj(map[])
  }

  function RenderAll(checks: seq<Check>): (items: seq<Json>)
    ensures |items| == |checks|
  {
    seq(|checks|, i requires 0 <= i < |checks| => RenderCheck(checks[i]))
  }

  /** The report object, from the two lists and the counts. */
  function RenderWith(checks: seq<Check>, failures: seq<string>, counts: Json, initial: bool): Json {
    Obj(map["passed" := Bool(failures == []), "initial" := Bool(initial), "scope" := Str(SCOPE),
            "not_checked" := StringList(NOT_CHECKED), "counts" := counts,
            "checks" := Arr(RenderAll(checks)), "failures" := StringList(failures)])
  }

  function Render(e: Emission, initial: bool): Json {
    RenderWith(ChecksOf(e), Failed(ChecksOf(e)), RenderCounts(e), initial)
  }

  function ExitCode(e: Emission): int {
    if e.InputError? then 2 else if Failed(ChecksOf(e)) == [] then 0 else 1
  }

  /** `[name for name in required if not (root / name).is_file()]`; the list of required files is a parameter. */
  function Missing(required: seq<string>, present: set<string>): seq<string> {
    if required == [] then []
    else (if required[0] in present then [] else [required[0]]) + Missing(required[1..], present)
  }

  /**
   What a run of the validator goes through: an exception anywhere, or all its checks. `results` are the
   checks recorded between the one on required files and the one on the inventory.
   */
  datatype Run = Raised(message: string) | Finished(present: set<string>, results: seq<Check>, counts: Counts)

  const FILES_PRESENT := Check(REQUIRED_FILES_CHECK, true, Arr([]))

  /** The last check: the names recorded so far against the inventory without its last entry. */
  function InventoryCheck(names: seq<string>, inventory: seq<string>): Check
    requires inventory != []
  {
    var expected := inventory[..|inventory| - 1];
    if names == expected then Check(INVENTORY_CHECK, true, Arr([]))
    else Check(INVENTORY_CHECK, false,
               Arr([Obj(map["expected" := StringList(expected), "actual" := StringList(names)])]))
  }

  /** The report of a run. */
  function EmissionOf(run: Run, required: seq<string>, inventory: seq<string>): Emission
    requires inventory != []
  {
    match run
    case Raised(message) => InputError(message)
    case Finished(present, results, counts) =>
      var missing := Missing(required, present);
      if missing != [] then MissingFiles(missing)
      else
        var checks := [FILES_PRESENT] + results;
        Full(checks + [InventoryCheck(Names(checks), inventory)], counts)
  }

  // ---------------------------------------------------------------- the checker

  /** What the checker asks of a report: real reasons, and the canonical check names. */
  predicate Acceptable(e: Emission, inventory: seq<string>) {
    match e
    case MissingFiles(missing) => missing != [] && forall i :: 0 <= i < |missing| ==> missing[i] != ""
    case InputError(message) => message != ""
    case Full(checks, _) =>
      Names(checks) == inventory && inventory != [] && Distinct(inventory) && "" !in inventory
  }

  datatype ReportError =
    | NotAnObject | MissingFields | InvalidTypes | UnexpectedFields | WrongInitial | WrongScope
    | WrongNotChecked | InvalidCounts | EmptyCounts | MalformedChecks | WrongInventory
    | FailuresDiffer | PassedDiffers | WrongExitCode

  predicate TypesValid(r: Json)
    requires r.Obj? && FIELDS <= r.fields.Keys
  {
    && r.fields["passed"].Bool? && r.fields["initial"].Bool? && r.fields["scope"].Str?
    && IsStringList(r.fields["not_checked"]) && r.fields["counts"].Obj?
    && r.fields["checks"].Arr? && IsStringList(r.fields["failures"])
  }

  predicate Typed(r: Json) {
    r.Obj? && FIELDS <= r.fields.Keys && TypesValid(r)
  }

  /** The part the two one-check forms share. */
  predicate SingleFailure(r: Json, name: string)
    requires Typed(r)
  {
    var checks := r.fields["checks"].items;
    && !r.fields["passed"].flag
    && r.fields["counts"] == Obj(map[])
    && r.fields["failures"] == StringList([name])
    && |checks| == 1 && checks[0].Obj?
    && Get(checks[0], "check") == Some(Str(name))
    && Get(checks[0], "passed") == Some(Bool(false))
    && Get(checks[0], "detail").Some?
  }

  predicate MissingFilesForm(r: Json)
    requires Typed(r)
  {
    SingleFailure(r, REQUIRED_FILES_CHECK) &&
    var detail := r.fields["checks"].items[0].fields["detail"];
    IsStringList(detail) && detail.items != [] && forall i :: 0 <= i < |detail.items| ==> detail.items[i].text != ""
  }

  predicate InputErrorForm(r: Json)
    requires Typed(r)
  {
    SingleFailure(r, INPUT_CHECK) &&
    var detail := r.fields["checks"].items[0].fields["detail"];
    detail.Str? && detail.text != ""
  }

  predicate CountsValid(counts: map<string, Json>) {
    counts.Keys == COUNT_NAMES && forall k :: k in counts ==> counts[k].Int? && counts[k].number >= 0
  }

  predicate WellFormedCheck(c: Json) {
    && c.Obj? && c.fields.Keys == {"check", "passed", "detail"}
    && c.fields["check"].Str? && c.fields["check"].text != "" && c.fields["passed"].Bool?
  }

  predicate AllWellFormed(items: seq<Json>) {
    forall i :: 0 <= i < |items| ==> WellFormedCheck(items[i])
  }

  /** `failed_checks`: lenient, so that it also reads malformed records. */
  function FailedNames(items: seq<Json>): seq<string> {
    if items == [] then []
    else
      var passed, name := Get(items[0], "passed"), Get(items[0], "check");
      (if passed.Some? && passed.value == Bool(false) && name.Some? && name.value.Str? then [name.value.text] else [])
      + FailedNames(items[1..])
  }

  function ParseCheck(c: Json): Check
    requires WellFormedCheck(c)
  {
    Check(c.fields["check"].text, c.fields["passed"].flag, c.fields["detail"])
  }

  function ParseAll(items: seq<Json>): (checks: seq<Check>)
    requires AllWellFormed(items)
    ensures |checks| == |items|
  {
    seq(|items|, i requires 0 <= i < |items| => ParseCheck(items[i]))
  }

  ghost predicate ChecksAccepted(r: Json, inventory: seq<string>)
    requires Typed(r)
  {
    var items := r.fields["checks"].items;
    && AllWellFormed(items) && items != [] && Distinct(Names(ParseAll(items)))
    && (MissingFilesForm(r) || InputErrorForm(r) || Names(ParseAll(items)) == inventory)
  }

  ghost predicate HeaderAccepted(r: Json, initial: bool)
    requires Typed(r)
  {
    var f := r.fields;
    && f.Keys == FIELDS
    && f["initial"].flag == initial && f["scope"].text == SCOPE && Strings(f["not_checked"]) == NOT_CHECKED
  }

  ghost predicate CountsAccepted(r: Json)
    requires Typed(r)
  {
    var counts := r.fields["counts"].fields;
    if counts != map[] then CountsValid(counts) else MissingFilesForm(r) || InputErrorForm(r)
  }

  ghost predicate OutcomeAccepted(r: Json, exitCode: int)
    requires Typed(r)
  {
    var f := r.fields;
    && Strings(f["failures"]) == FailedNames(f["checks"].items)
    && (f["passed"].flag <==> Strings(f["failures"]) == [])
    && exitCode == (if InputErrorForm(r) then 2 else if f["passed"].flag then 0 else 1)
  }

  ghost predicate Accepted(r: Json, exitCode: int, initial: bool, inventory: seq<string>) {
    && Typed(r) && HeaderAccepted(r, initial) && CountsAccepted(r)
    && ChecksAccepted(r, inventory) && OutcomeAccepted(r, exitCode)
  }

  /** The loop that collects check names until a malformed record. */
  method CollectNames(items: seq<Json>) returns (names: seq<string>, malformed: bool)
    ensures malformed <==> !(AllWellFormed(items) && items != [] && Distinct(Names(ParseAll(items))))
    ensures !malformed ==> names == Names(ParseAll(items))
  {
    names, malformed := [], false;
    for i := 0 to |items|
      invariant AllWellFormed(items[..i]) && !malformed && names == Names(ParseAll(items[..i]))
    {
      assert items[..i + 1] == items[..i] + [items[i]];
      if !WellFormedCheck(items[i]) {
        malformed := true;
        break;
      }
      assert items[..i + 1][i] == items[i];
      names := names + [items[i].fields["check"].text];
    }
    if !malformed {
      assert items[..|items|] == items;
      CardinalityDetectsRepeats(names);
    }
    malformed := malformed || names == [] || |Elements(names)| != |names|;
  }

  method InspectHeader(r: Json, initial: bool) returns (errors: seq<ReportError>)
    requires Typed(r)
    ensures errors == [] <==> HeaderAccepted(r, initial)
  {
    var f := r.fields;
    errors := if f.Keys - FIELDS != {} then [UnexpectedFields] else [];
    assert f.Keys == FIELDS + (f.Keys - FIELDS);
    if f["initial"].flag != initial { errors := errors + [WrongInitial]; }
    if f["scope"].text != SCOPE { errors := errors + [WrongScope]; }
    if Strings(f["not_checked"]) != NOT_CHECKED { errors := errors + [WrongNotChecked]; }
  }

  method InspectBody(r: Json, inventory: seq<string>) returns (errors: seq<ReportError>)
    requires Typed(r)
    ensures errors == [] <==> CountsAccepted(r) && ChecksAccepted(r, inventory)
  {
    var early, structured := MissingFilesForm(r), InputErrorForm(r);
    errors := [];
    if r.fields["counts"].fields != map[] {
      if !CountsValid(r.fields["counts"].fields) { errors := errors + [InvalidCounts]; }
    } else if !early && !structured {
      errors := errors + [EmptyCounts];
    }
    var names, malformed := CollectNames(r.fields["checks"].items);
    if malformed {
      errors := errors + [MalformedChecks];
    } else if !early && !structured && names != inventory {
      errors := errors + [WrongInventory];
    }
  }

  method InspectOutcome(r: Json, exitCode: int) returns (errors: seq<ReportError>)
    requires Typed(r)
    ensures errors == [] <==> OutcomeAccepted(r, exitCode)
  {
    var f := r.fields;
    errors := [];
    if Strings(f["failures"]) != FailedNames(f["checks"].items) { errors := errors + [FailuresDiffer]; }
    if f["passed"].flag != (Strings(f["failures"]) == []) { errors := errors + [PassedDiffers]; }
    if InputErrorForm(r) {
      if exitCode != 2 { errors := errors + [WrongExitCode]; }
    } else if exitCode != (if f["passed"].flag then 0 else 1) {
      errors := errors + [WrongExitCode];
    }
  }

  /** `inspect_report` after parsing: the list of complaints, empty when there is none. */
  method InspectReport(r: Json, exitCode: int, initial: bool, inventory: seq<string>)
    returns (errors: seq<ReportError>)
    ensures errors == [] <==> Accepted(r, exitCode, initial, inventory)
  {
    if !r.Obj? { return [NotAnObject]; }
    if !(FIELDS <= r.fields.Keys) { return [MissingFields]; }
    if !TypesValid(r) { return [InvalidTypes]; }
    var header := InspectHeader(r, initial);
    var body := InspectBody(r, inventory);
    var outcome := InspectOutcome(r, exitCode);
    errors := header + body + outcome;
  }

  // ---------------------------------------------------------------- rendering and parsing

  lemma {:induction false} FailedNamesOfChecks(items: seq<Json>)
    requires AllWellFormed(items)
    ensures FailedNames(items) == Failed(ParseAll(items))
  {
    if items == [] {
    } else {
      var rest := items[1..];
      assert forall i :: 0 <= i < |rest| ==> rest[i] == items[i + 1];
      FailedNamesOfChecks(rest);
      assert ParseAll(items)[1..] == ParseAll(rest);
    }
  }

  lemma RenderParse(c: Check, j: Json)
    ensures c.name != "" ==> WellFormedCheck(RenderCheck(c)) && ParseCheck(RenderCheck(c)) == c
    ensures WellFormedCheck(j) ==> RenderCheck(ParseCheck(j)) == j
  {
    if WellFormedCheck(j) {
      assert RenderCheck(ParseCheck(j)).fields == j.fields;
    }
  }

  lemma RenderParseAll(checks: seq<Check>, items: seq<Json>)
    ensures "" !in Names(checks) ==> AllWellFormed(RenderAll(checks)) && ParseAll(RenderAll(checks)) == checks
    ensures AllWellFormed(items) ==> RenderAll(ParseAll(items)) == items
  {
    if "" !in Names(checks) {
      forall i | 0 <= i < |checks|
        ensures WellFormedCheck(RenderAll(checks)[i]) && ParseCheck(RenderAll(checks)[i]) == checks[i]
      {
        assert Names(checks)[i] in Names(checks);
        RenderParse(checks[i], Null);
      }
    }
    if AllWellFormed(items) {
      forall i | 0 <= i < |items| ensures RenderAll(ParseAll(items))[i] == items[i] {
        RenderParse(Check("", true, Null), items[i]);
      }
    }
  }

  lemma EmissionChecks(e: Emission, inventory: seq<string>)
    requires Acceptable(e, inventory)
    ensures "" !in Names(ChecksOf(e)) && ChecksOf(e) != [] && Distinct(Names(ChecksOf(e)))
  {
    assert e.Full? ==> Names(ChecksOf(e)) == inventory;
  }

  /** The fields of a rendered report, read back. */
  lemma RenderedFields(e: Emission, initial: bool)
    ensures var r := Render(e, initial);
            && Typed(r) && r.fields.Keys == FIELDS
            && r.fields["passed"] == Bool(Failed(ChecksOf(e)) == []) && r.fields["initial"] == Bool(initial)
            && r.fields["scope"] == Str(SCOPE) && Strings(r.fields["not_checked"]) == NOT_CHECKED
            && r.fields["counts"] == RenderCounts(e) && r.fields["checks"] == Arr(RenderAll(ChecksOf(e)))
            && r.fields["failures"] == StringList(Failed(ChecksOf(e)))
            && Strings(r.fields["failures"]) == Failed(ChecksOf(e))
  {
    StringListRoundTrip(Null, Failed(ChecksOf(e)));
    StringListRoundTrip(Null, NOT_CHECKED);
  }

  lemma RenderedForm(e: Emission, initial: bool, inventory: seq<string>)
    requires Acceptable(e, inventory) && Typed(Render(e, initial))
    ensures MissingFilesForm(Render(e, initial)) <==> e.MissingFiles?
    ensures InputErrorForm(Render(e, initial)) <==> e.InputError?
  {
    RenderedFields(e, initial);
    match e
    case MissingFiles(missing) => assert Failed(ChecksOf(e)) == [REQUIRED_FILES_CHECK];
    case InputError(message) => assert Failed(ChecksOf(e)) == [INPUT_CHECK];
    case Full(_, counts) => assert RenderCounts(e).fields["tasks"] == Int(counts.tasks);
  }

  lemma RenderedCounts(c: Counts, checks: seq<Check>)
    ensures CountsValid(RenderCounts(Full(checks, c)).fields) && RenderCounts(Full(checks, c)).fields != map[]
  {
    assert "tasks" in RenderCounts(Full(checks, c)).fields;
  }

  /** Whatever meets the checker's demands is accepted when rendered, with its exit code. */
  lemma AcceptableIsAccepted(e: Emission, initial: bool, inventory: seq<string>)
    requires Acceptable(e, inventory)
    ensures Accepted(Render(e, initial), ExitCode(e), initial, inventory)
  {
    var r, checks := Render(e, initial), ChecksOf(e);
    RenderedFields(e, initial);
    RenderedForm(e, initial, inventory);
    EmissionChecks(e, inventory);
    RenderParseAll(checks, []);
    FailedNamesOfChecks(RenderAll(checks));
    if e.Full? { RenderedCounts(e.counts, e.checks); }
    assert CountsAccepted(r) && ChecksAccepted(r, inventory) && HeaderAccepted(r, initial);
  }

  /** The emission an accepted report stands for. */
  function Parsed(r: Json): Emission
    requires Typed(r) && AllWellFormed(r.fields["checks"].items)
    requires !MissingFilesForm(r) && !InputErrorForm(r) ==> CountsValid(r.fields["counts"].fields)
  {
    var items := r.fields["checks"].items;
    if InputErrorForm(r) then InputError(items[0].fields["detail"].text)
    else if MissingFilesForm(r) then MissingFiles(Strings(items[0].fields["detail"]))
    else
      var c := r.fields["counts"].fields;
      Full(ParseAll(items), Counts(c["tasks"].number, c["cases"].number, c["specification_sections"].number,
                                   c["task_ready_groups"].number, c["checked_sentences"].number))
  }

  lemma ParsedChecks(r: Json, exitCode: int, initial: bool, inventory: seq<string>)
    requires Accepted(r, exitCode, initial, inventory)
    ensures ChecksOf(Parsed(r)) == ParseAll(r.fields["checks"].items)
    ensures RenderCounts(Parsed(r)) == r.fields["counts"]
  {
    var items := r.fields["checks"].items;
    if InputErrorForm(r) {
      assert ParseAll(items) == [ParseCheck(items[0])];
    } else if MissingFilesForm(r) {
      assert ParseAll(items) == [ParseCheck(items[0])];
      StringListRoundTrip(items[0].fields["detail"], []);
    } else {
      var counts := r.fields["counts"].fields;
      assert RenderCounts(Parsed(r)).fields == counts;
    }
  }

  lemma ParsedAcceptable(r: Json, exitCode: int, initial: bool, inventory: seq<string>)
    requires Accepted(r, exitCode, initial, inventory) && inventory != [] && "" !in inventory
    ensures Acceptable(Parsed(r), inventory)
  {
    if !InputErrorForm(r) && MissingFilesForm(r) {
      var detail := r.fields["checks"].items[0].fields["detail"];
      assert forall i :: 0 <= i < |detail.items| ==> Strings(detail)[i] == detail.items[i].text;
    }
  }

  lemma ParsedFailures(r: Json, exitCode: int, initial: bool, inventory: seq<string>)
    requires Accepted(r, exitCode, initial, inventory)
    ensures StringList(Failed(ChecksOf(Parsed(r)))) == r.fields["failures"]
    ensures r.fields["passed"] == Bool(Failed(ChecksOf(Parsed(r))) == [])
    ensures RenderAll(ChecksOf(Parsed(r))) == r.fields["checks"].items
    ensures exitCode == ExitCode(Parsed(r))
  {
    var items := r.fields["checks"].items;
    ParsedChecks(r, exitCode, initial, inventory);
    RenderParseAll([], items);
    FailedNamesOfChecks(items);
    StringListRoundTrip(r.fields["failures"], []);
  }

  /** A report is fixed by its seven fields. */
  lemma RenderedFieldByField(e: Emission, initial: bool, f: map<string, Json>)
    requires f.Keys == FIELDS
    requires f["passed"] == Bool(Failed(ChecksOf(e)) == []) && f["initial"] == Bool(initial)
    requires f["scope"] == Str(SCOPE) && f["not_checked"] == StringList(NOT_CHECKED)
    requires f["counts"] == RenderCounts(e) && f["checks"] == Arr(RenderAll(ChecksOf(e)))
    requires f["failures"] == StringList(Failed(ChecksOf(e)))
    ensures Render(e, initial) == Obj(f)
  {
  }

  /** Every accepted document is the rendering of what it parses to, with that exit code. */
  lemma AcceptedIsRendered(r: Json, exitCode: int, initial: bool, inventory: seq<string>)
    requires Accepted(r, exitCode, initial, inventory)
    ensures r == Render(Parsed(r), initial) && exitCode == ExitCode(Parsed(r))
  {
    var e := Parsed(r);
    assert r.fields["counts"] == RenderCounts(e) by { ParsedChecks(r, exitCode, initial, inventory); }
    ParsedFailures(r, exitCode, initial, inventory);
    assert r.fields["not_checked"] == StringList(NOT_CHECKED) by { StringListRoundTrip(r.fields["not_checked"], []); }
    RenderedFieldByField(e, initial, r.fields);
  }

  /** The checker accepts exactly the renderings of what meets its demands. */
  lemma AcceptedIffAcceptable(r: Json, exitCode: int, initial: bool, inventory: seq<string>)
    requires inventory != [] && "" !in inventory
    ensures Accepted(r, exitCode, initial, inventory) <==>
            exists e :: Acceptable(e, inventory) && r == Render(e, initial) && exitCode == ExitCode(e)
  {
    if Accepted(r, exitCode, initial, inventory) {
      ParsedAcceptable(r, exitCode, initial, inventory);
      AcceptedIsRendered(r, exitCode, initial, inventory);
    }
    if e :| Acceptable(e, inventory) && r == Render(e, initial) && exitCode == ExitCode(e) {
      AcceptableIsAccepted(e, initial, inventory);
    }
  }

  /** Parsing undoes rendering. */
  lemma ParsedRender(e: Emission, initial: bool, inventory: seq<string>)
    requires Acceptable(e, inventory)
    ensures var r := Render(e, initial);
            && Typed(r) && AllWellFormed(r.fields["checks"].items)
            && (!MissingFilesForm(r) && !InputErrorForm(r) ==> CountsValid(r.fields["counts"].fields))
            && Parsed(r) == e
  {
    var r, checks := Render(e, initial), ChecksOf(e);
    RenderedFields(e, initial);
    RenderedForm(e, initial, inventory);
    EmissionChecks(e, inventory);
    RenderParseAll(checks, []);
    match e
    case MissingFiles(missing) => StringListRoundTrip(Null, missing);
    case InputError(_) =>
    case Full(_, counts) => RenderedCounts(counts, checks);
  }

  lemma NamesSurviveRendering(checks: seq<Check>)
    requires AllWellFormed(RenderAll(checks))
    ensures Names(ParseAll(RenderAll(checks))) == Names(checks)
  {
  }

  /** A full report is accepted exactly when its checks are the canonical ones, in order. */
  lemma FullReportAcceptedIff(checks: seq<Check>, counts: Counts, initial: bool, inventory: seq<string>)
    requires inventory != [] && "" !in inventory && Distinct(inventory)
    ensures Accepted(Render(Full(checks, counts), initial), ExitCode(Full(checks, counts)), initial, inventory) <==>
            Names(checks) == inventory
  {
    var e := Full(checks, counts);
    if Names(checks) == inventory {
      AcceptableIsAccepted(e, initial, inventory);
    } else if Accepted(Render(e, initial), ExitCode(e), initial, inventory) {
      var r := Render(e, initial);
      assert r.fields["checks"].items == RenderAll(checks);
      assert r.fields["counts"] == RenderCounts(e) && "tasks" in r.fields["counts"].fields;
      NamesSurviveRendering(checks);
    }
  }

  /** An exception with an empty message is refused, whatever the exit code. */
  lemma EmptyMessageRefused(initial: bool, inventory: seq<string>, exitCode: int)
    ensures !Accepted(Render(InputError(""), initial), exitCode, initial, inventory)
  {
  }

  // ---------------------------------------------------------------- producer and checker

  /** The names of a full run are the inventory's exactly when its last check passed. */
  lemma InventoryCheckDecides(checks: seq<Check>, inventory: seq<string>)
    requires inventory != [] && inventory[|inventory| - 1] == INVENTORY_CHECK
    ensures var last := InventoryCheck(Names(checks), inventory);
            last.name == INVENTORY_CHECK && (Names(checks + [last]) == inventory <==> last.passed)
  {
    var last, expected := InventoryCheck(Names(checks), inventory), inventory[..|inventory| - 1];
    var names := Names(checks + [last]);
    assert names == Names(checks) + [INVENTORY_CHECK] && inventory == expected + [INVENTORY_CHECK];
    assert names == inventory ==> names[..|names| - 1] == expected;
    assert names[..|names| - 1] == Names(checks);
  }

  lemma {:induction false} MissingAreNames(required: seq<string>, present: set<string>)
    requires "" !in required
    ensures "" !in Missing(required, present)
  {
    if required == [] {
    } else {
      MissingAreNames(required[1..], present);
    }
  }

  predicate ProperInventory(inventory: seq<string>) {
    && inventory != [] && inventory[|inventory| - 1] == INVENTORY_CHECK
    && Distinct(inventory) && "" !in inventory
  }

  /** The runs whose report the checker takes: a reason is given, or a file is missing, or the names agree. */
  predicate RunAccepted(run: Run, required: seq<string>, inventory: seq<string>)
    requires inventory != []
  {
    match run
    case Raised(message) => message != ""
    case Finished(present, results, _) =>
      Missing(required, present) != [] || Names([FILES_PRESENT] + results) == inventory[..|inventory| - 1]
  }

  lemma RunAcceptedIffAcceptable(run: Run, required: seq<string>, inventory: seq<string>)
    requires ProperInventory(inventory) && "" !in required
    ensures RunAccepted(run, required, inventory) <==> Acceptable(EmissionOf(run, required, inventory), inventory)
  {
    if run.Finished? {
      var missing := Missing(required, run.present);
      MissingAreNames(required, run.present);
      assert forall i :: 0 <= i < |missing| ==> missing[i] in missing;
      InventoryCheckDecides([FILES_PRESENT] + run.results, inventory);
    }
  }

  /** Main result, one way: which reports of the validator the checker accepts. */
  lemma EmittedAcceptedIff(run: Run, initial: bool, required: seq<string>, inventory: seq<string>)
    requires ProperInventory(inventory) && "" !in required
    ensures var e := EmissionOf(run, required, inventory);
            Accepted(Render(e, initial), ExitCode(e), initial, inventory) <==> RunAccepted(run, required, inventory)
  {
    var e := EmissionOf(run, required, inventory);
    RunAcceptedIffAcceptable(run, required, inventory);
    match e
    case MissingFiles(_) => AcceptableIsAccepted(e, initial, inventory);
    case InputError(message) =>
      if message == "" { EmptyMessageRefused(initial, inventory, ExitCode(e)); }
      else { AcceptableIsAccepted(e, initial, inventory); }
    case Full(checks, counts) => FullReportAcceptedIff(checks, counts, initial, inventory);
  }

  /** The elements of the list that are in the set, in order. */
  function Kept(required: seq<string>, names: set<string>): seq<string> {
    if required == [] then []
    else (if required[0] in names then [required[0]] else []) + Kept(required[1..], names)
  }

  /**
   What tells an accepted report of a run from other accepted ones: missing files are required ones in
   their order, the first check found all files, and the last check passed without complaint.
   */
  predicate FromRun(e: Emission, required: seq<string>) {
    match e
    case MissingFiles(missing) => missing == Kept(required, Elements(missing))
    case InputError(_) => true
    case Full(checks, _) =>
      |checks| >= 2 && checks[0] == FILES_PRESENT && checks[|checks| - 1] == Check(INVENTORY_CHECK, true, Arr([]))
  }

  lemma {:induction false} MissingIsKept(required: seq<string>, present: set<string>, names: set<string>)
    requires forall a :: a in required ==> (a in names <==> a !in present)
    ensures Missing(required, present) == Kept(required, names)
  {
    if required == [] {
    } else {
      assert required[0] in required && forall a :: a in required[1..] ==> a in required;
      MissingIsKept(required[1..], present, names);
    }
  }

  lemma {:induction false} MissingContains(required: seq<string>, present: set<string>, a: string)
    ensures a in Missing(required, present) <==> a in required && a !in present
  {
    if required == [] {
    } else {
      MissingContains(required[1..], present, a);
      assert required == [required[0]] + required[1..];
    }
  }

  lemma RunIsFromRun(run: Run, required: seq<string>, inventory: seq<string>)
    requires inventory != [] && RunAccepted(run, required, inventory)
    ensures FromRun(EmissionOf(run, required, inventory), required)
  {
    if run.Finished? {
      var missing := Missing(required, run.present);
      forall a | a in required ensures a in Elements(missing) <==> a !in run.present {
        MissingContains(required, run.present, a);
      }
      MissingIsKept(required, run.present, Elements(missing));
    }
  }

  lemma NothingMissing(required: seq<string>)
    ensures Missing(required, Elements(required)) == []
  {
    var missing := Missing(required, Elements(required));
    if missing != [] { MissingContains(required, Elements(required), missing[0]); }
  }

  /** A run that reports the given emission. */
  lemma RunFor(e: Emission, required: seq<string>, inventory: seq<string>) returns (run: Run)
    requires ProperInventory(inventory) && Acceptable(e, inventory) && FromRun(e, required)
    ensures RunAccepted(run, required, inventory) && EmissionOf(run, required, inventory) == e
  {
    match e
    case InputError(message) =>
      run := Raised(message);
    case MissingFiles(missing) =>
      var present := Elements(required) - Elements(missing);
      MissingIsKept(required, present, Elements(missing));
      run := Finished(present, [], Counts(0, 0, 0, 0, 0));
    case Full(checks, counts) =>
      var n := |checks| - 1;
      run := Finished(Elements(required), checks[1..n], counts);
      NothingMissing(required);
      assert checks[..n] == [FILES_PRESENT] + checks[1..n] && checks == checks[..n] + [checks[n]];
      assert Names(checks[..n]) == inventory[..n];
  }

  ghost predicate Reports(run: Run, r: Json, exitCode: int, initial: bool, required: seq<string>,
                          inventory: seq<string>)
    requires inventory != []
  {
    var e := EmissionOf(run, required, inventory);
    r == Render(e, initial) && exitCode == ExitCode(e)
  }

  /** Some run of the validator prints this report and ends with this exit code. */
  ghost predicate Reported(r: Json, exitCode: int, initial: bool, required: seq<string>, inventory: seq<string>)
    requires inventory != []
  {
    exists run :: Reports(run, r, exitCode, initial, required, inventory)
  }

  /** Main result, the other way: which accepted documents are reports of a run. */
  lemma AcceptedEmittedIff(r: Json, exitCode: int, initial: bool, required: seq<string>, inventory: seq<string>)
    requires ProperInventory(inventory) && "" !in required && Accepted(r, exitCode, initial, inventory)
    ensures Reported(r, exitCode, initial, required, inventory) <==> FromRun(Parsed(r), required)
  {
    ParsedAcceptable(r, exitCode, initial, inventory);
    AcceptedIsRendered(r, exitCode, initial, inventory);
    if FromRun(Parsed(r), required) {
      var run := RunFor(Parsed(r), required, inventory);
      assert Reports(run, r, exitCode, initial, required, inventory);
    }
    if run :| Reports(run, r, exitCode, initial, required, inventory) {
      EmittedAcceptedIff(run, initial, required, inventory);
      RunAcceptedIffAcceptable(run, required, inventory);
      ParsedRender(EmissionOf(run, required, inventory), initial, inventory);
      RunIsFromRun(run, required, inventory);
    }
  }

  /** Main result: what a run reports and the checker accepts, from both sides. */
  lemma CheckerMatchesProducer(r: Json, exitCode: int, initial: bool, required: seq<string>, inventory: seq<string>)
    requires ProperInventory(inventory) && "" !in required
    ensures Accepted(r, exitCode, initial, inventory) && FromRun(Parsed(r), required) <==>
            exists run :: RunAccepted(run, required, inventory) &&
                          Reports(run, r, exitCode, initial, required, inventory)
  {
    if Accepted(r, exitCode, initial, inventory) && FromRun(Parsed(r), required) {
      ParsedAcceptable(r, exitCode, initial, inventory);
      AcceptedIsRendered(r, exitCode, initial, inventory);
      var run := RunFor(Parsed(r), required, inventory);
      assert Reports(run, r, exitCode, initial, required, inventory);
    }
    if run :| RunAccepted(run, required, inventory) && Reports(run, r, exitCode, initial, required, inventory) {
      EmittedAcceptedIff(run, initial, required, inventory);
      AcceptedEmittedIff(r, exitCode, initial, required, inventory);
    }
  }

  /** The checks `main` records: the one on required files and, when none is missing, all the others. */
  method RecordChecks(present: set<string>, results: seq<Check>, required: seq<string>, inventory: seq<string>)
    returns (checks: seq<Check>, failures: seq<string>)
    requires inventory != []
    ensures failures == Failed(checks)
    ensures forall counts :: checks == ChecksOf(EmissionOf(Finished(present, results, counts), required, inventory))
  {
    var recorder := new Recorder();
    var missing := Missing(required, present);
    recorder.Record(REQUIRED_FILES_CHECK, missing == [], StringList(missing));
    if missing != [] { return recorder.checks, recorder.failures; }
    for i := 0 to |results|
      invariant recorder.checks == [FILES_PRESENT] + results[..i] && recorder.failures == Failed(recorder.checks)
    {
      assert results[..i + 1] == results[..i] + [results[i]];
      recorder.Record(results[i].name, results[i].passed, results[i].detail);
    }
    assert results[..|results|] == results;
    var names, expected := Names(recorder.checks), inventory[..|inventory| - 1];
    recorder.Record(INVENTORY_CHECK, names == expected,
                    if names == expected then Arr([])
                    else Arr([Obj(map["expected" := StringList(expected), "actual" := StringList(names)])]));
    return recorder.checks, recorder.failures;
  }

  lemma ExceptionFails(message: string)
    ensures Failed(ChecksOf(InputError(message))) == [INPUT_CHECK]
  {
  }

  /** `main` and the handler around it: the checks of a run, or its exception, and the report. */
  method EmitReport(run: Run, required: seq<string>, initial: bool, inventory: seq<string>)
    returns (report: Json, exitCode: int)
    requires inventory != []
    ensures report == Render(EmissionOf(run, required, inventory), initial)
    ensures exitCode == ExitCode(EmissionOf(run, required, inventory))
    ensures ProperInventory(inventory) && "" !in required ==>
              (Accepted(report, exitCode, initial, inventory) <==> RunAccepted(run, required, inventory))
  {
    if ProperInventory(inventory) && "" !in required { EmittedAcceptedIff(run, initial, required, inventory); }
    match run
    case Raised(message) =>
      ExceptionFails(message);
      var checks := [Check(INPUT_CHECK, false, Str(message))];
      report, exitCode := RenderWith(checks, [INPUT_CHECK], Obj(map[]), initial), 2;
    case Finished(present, results, counts) =>
      var checks, failures := RecordChecks(present, results, required, inventory);
      var early := Missing(required, present) != [];
      report := RenderWith(checks, failures, if early then Obj(map[]) else CountsField(counts), initial);
      exitCode := if early || failures != [] then 1 else 0;
  }

  // ---------------------------------------------------------------- where they part

  const NO_COUNTS := Counts(0, 0, 0, 0, 0)

  /** A small inventory: the first check of `main` and the last. */
  lemma SmallInventory(inventory: seq<string>)
    requires inventory == [REQUIRED_FILES_CHECK, INVENTORY_CHECK]
    ensures ProperInventory(inventory) && Inventory([REQUIRED_FILES_CHECK], false) == inventory
  {
    assert |REQUIRED_FILES_CHECK| != |INVENTORY_CHECK|;
  }

  /** Emitted and refused: a run that recorded a check the inventory does not have. */
  lemma MisnamedRunRefused(inventory: seq<string>, required: seq<string>)
    requires inventory == [REQUIRED_FILES_CHECK, INVENTORY_CHECK] && "" !in required
    ensures var run := Finished(Elements(required), [Check("stray", true, Null)], NO_COUNTS);
            var e := EmissionOf(run, required, inventory);
            !Accepted(Render(e, false), ExitCode(e), false, inventory)
  {
    var run := Finished(Elements(required), [Check("stray", true, Null)], NO_COUNTS);
    SmallInventory(inventory);
    NothingMissing(required);
    EmittedAcceptedIff(run, false, required, inventory);
    assert |Names([FILES_PRESENT] + run.results)| == 2;
  }

  /** Accepted although no run reports it. */
  ghost predicate AcceptedUnreported(e: Emission, initial: bool, required: seq<string>, inventory: seq<string>)
    requires inventory != []
  {
    && Accepted(Render(e, initial), ExitCode(e), initial, inventory)
    && !Reported(Render(e, initial), ExitCode(e), initial, required, inventory)
  }

  lemma AcceptedWithoutRun(e: Emission, initial: bool, required: seq<string>, inventory: seq<string>)
    requires ProperInventory(inventory) && "" !in required && Acceptable(e, inventory) && !FromRun(e, required)
    ensures AcceptedUnreported(e, initial, required, inventory)
  {
    AcceptableIsAccepted(e, initial, inventory);
    ParsedRender(e, initial, inventory);
    AcceptedEmittedIff(Render(e, initial), ExitCode(e), initial, required, inventory);
  }

  /** The canonical names with a failed inventory check, which `main` records as passed. */
  lemma FailedInventoryAccepted(inventory: seq<string>, required: seq<string>)
    requires inventory == [REQUIRED_FILES_CHECK, INVENTORY_CHECK] && "" !in required
    ensures AcceptedUnreported(Full([FILES_PRESENT, Check(INVENTORY_CHECK, false, Null)], NO_COUNTS), false,
                               required, inventory)
  {
    var e := Full([FILES_PRESENT, Check(INVENTORY_CHECK, false, Null)], NO_COUNTS);
    SmallInventory(inventory);
    assert Names(e.checks) == inventory;
    AcceptedWithoutRun(e, false, required, inventory);
  }

  lemma {:induction false} KeptAreRequired(required: seq<string>, names: set<string>)
    ensures forall a :: a in Kept(required, names) ==> a in required
  {
    if required == [] {
    } else {
      KeptAreRequired(required[1..], names);
    }
  }

  /** A missing file that is not a required one, whatever the required ones are. */
  lemma ForeignFileAccepted(name: string, initial: bool, required: seq<string>, inventory: seq<string>)
    requires ProperInventory(inventory) && "" !in required && name != "" && name !in required
    ensures AcceptedUnreported(MissingFiles([name]), initial, required, inventory)
  {
    KeptAreRequired(required, Elements([name]));
    assert [name][0] == name;
    AcceptedWithoutRun(MissingFiles([name]), initial, required, inventory);
  }
}
