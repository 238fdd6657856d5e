/** Specification sections, the traceability manifest that maps them to tasks, and task citations. */
module Traceability {
  import opened Sequences
  import opened Board

  datatype Heading = Heading(line: nat, text: string)

  /** A derived section: inclusive 1-based line range and heading. */
  datatype Section = Section(start: nat, end: nat, heading: string)

  /** A manifest entry; `tasks` is None when the field is not a list. */
  datatype Entry = Entry(section: Section, tasks: Option<seq<Id>>)

  /** The SPEC line ranges one task cites. */
  datatype Citations = Citations(task: Id, ranges: seq<(nat, nat)>)

  // ---------------------------------------------------------------- derived sections

  /** `^#{1,2} `. */
  predicate IsHeading(line: string) {
    (|line| >= 2 && line[..2] == "# ") || (|line| >= 3 && line[..3] == "## ")
  }

  function HeadingText(line: string): string
    requires IsHeading(line)
  {
    if line[..2] == "# " then line[2..] else line[3..]
  }

  /** Headings from 0-based index `i` on, with 1-based line numbers. */
  function HeadingsFrom(lines: seq<string>, i: nat): (h: seq<Heading>)
    ensures forall k :: 0 <= k < |h| ==> i < h[k].line <= |lines|
    decreases |lines| - i
  {
    if i >= |lines| then []
    else (if IsHeading(lines[i]) then [Heading(i + 1, HeadingText(lines[i]))] else []) + HeadingsFrom(lines, i + 1)
  }

  function Sections(lines: seq<string>): (s: seq<Section>)
    ensures |s| == |HeadingsFrom(lines, 0)|
  {
    var h := HeadingsFrom(lines, 0);
    seq(|h|, k requires 0 <= k < |h| =>
      Section(h[k].line, if k + 1 < |h| then h[k + 1].line - 1 else |lines|, h[k].text))
  }

  predicate Covers(s: Section, line: nat) {
    s.start <= line <= s.end
  }

  ghost predicate Ascending(h: seq<Heading>) {
    forall k, l :: 0 <= k < l < |h| ==> h[k].line < h[l].line
  }

  lemma {:induction false} HeadingsAreOrdered(lines: seq<string>, i: nat)
    ensures Ascending(HeadingsFrom(lines, i))
    decreases |lines| - i
  {
    if i < |lines| {
      var h, rest := HeadingsFrom(lines, i), HeadingsFrom(lines, i + 1);
      HeadingsAreOrdered(lines, i + 1);
      if IsHeading(lines[i]) {
        assert forall k :: 0 < k < |h| ==> h[k] == rest[k - 1];
      } else {
        assert h == rest;
      }
    }
  }

  ghost predicate HeadedAt(h: seq<Heading>, n: nat) {
    exists k :: 0 <= k < |h| && h[k].line == n
  }

  lemma {:induction false} HeadingsAreComplete(lines: seq<string>, i: nat, n: nat)
    requires i < n <= |lines|
    ensures IsHeading(lines[n - 1]) <==> HeadedAt(HeadingsFrom(lines, i), n)
    decreases |lines| - i
  {
    var h, rest := HeadingsFrom(lines, i), HeadingsFrom(lines, i + 1);
    if n > i + 1 { HeadingsAreComplete(lines, i + 1, n); }
    if IsHeading(lines[i]) {
      assert h[0].line == i + 1;
      if k :| 0 <= k < |rest| && rest[k].line == n { assert h[k + 1] == rest[k]; }
      if k :| 0 < k < |h| && h[k].line == n { assert rest[k - 1] == h[k]; }
    } else {
      assert h == rest;
    }
  }

  /** Line `line` is at or after heading `k` and before heading `k + 1`. */
  ghost predicate Between(h: seq<Heading>, k: nat, line: nat) {
    k < |h| && h[k].line <= line && (k + 1 < |h| ==> line < h[k + 1].line)
  }

  lemma BetweenIsUnique(h: seq<Heading>, k: nat, l: nat, line: nat)
    requires Ascending(h) && Between(h, k, line) && l < |h| && l != k
    ensures !Between(h, l, line)
  {
  }

  lemma CoversIffBetween(lines: seq<string>, k: nat, line: nat)
    requires k < |Sections(lines)| && line <= |lines|
    ensures Covers(Sections(lines)[k], line) <==> Between(HeadingsFrom(lines, 0), k, line)
  {
  }

  lemma FindBetween(h: seq<Heading>, line: nat) returns (k: nat)
    requires h != [] && h[0].line <= line
    ensures Between(h, k, line)
  {
    k := 0;
    while k + 1 < |h| && h[k + 1].line <= line
      invariant k < |h| && h[k].line <= line
    {
      k := k + 1;
    }
  }

  /** Lines from the first heading to the end fall in one section; earlier lines in none. */
  lemma SectionsPartition(lines: seq<string>, line: nat) returns (k: nat)
    requires 1 <= line <= |lines| && Sections(lines) != [] && Sections(lines)[0].start <= line
    ensures k < |Sections(lines)| && Covers(Sections(lines)[k], line)
    ensures forall l :: 0 <= l < |Sections(lines)| && l != k ==> !Covers(Sections(lines)[l], line)
  {
    var h := HeadingsFrom(lines, 0);
    HeadingsAreOrdered(lines, 0);
    k := FindBetween(h, line);
    CoversIffBetween(lines, k, line);
    forall l | 0 <= l < |Sections(lines)| && l != k ensures !Covers(Sections(lines)[l], line) {
      CoversIffBetween(lines, l, line);
      BetweenIsUnique(h, k, l, line);
    }
  }

  lemma BeforeFirstHeading(lines: seq<string>, line: nat, k: nat)
    requires k < |Sections(lines)| && line < Sections(lines)[0].start
    ensures !Covers(Sections(lines)[k], line)
  {
    HeadingsAreOrdered(lines, 0);
    var h := HeadingsFrom(lines, 0);
    assert k == 0 || h[0].line < h[k].line;
  }

  /** Sections are never empty, and a section starts exactly where a heading line is. */
  lemma SectionsStartAtHeadings(lines: seq<string>, line: nat)
    requires 1 <= line <= |lines|
    ensures IsHeading(lines[line - 1]) <==> exists k :: 0 <= k < |Sections(lines)| && Sections(lines)[k].start == line
    ensures forall k :: 0 <= k < |Sections(lines)| ==> Sections(lines)[k].start <= Sections(lines)[k].end
  {
    HeadingsAreOrdered(lines, 0);
    HeadingsAreComplete(lines, 0, line);
    var h, s := HeadingsFrom(lines, 0), Sections(lines);
    assert forall k :: 0 <= k < |s| ==> s[k].start == h[k].line;
    if HeadedAt(h, line) {
      var k :| 0 <= k < |h| && h[k].line == line;
      assert s[k].start == line;
    }
  }

  /** One or two hashes and a space, then the text. */
  ghost predicate HeadingSays(line: string, text: string) {
    || (|line| >= 2 && line[0] == '#' && line[1] == ' ' && text == line[2..])
    || (|line| >= 3 && line[0] == '#' && line[1] == '#' && line[2] == ' ' && text == line[3..])
  }

  lemma HeadingReads(line: string, text: string)
    ensures IsHeading(line) && text == HeadingText(line) <==> HeadingSays(line, text)
  {
    if |line| >= 2 {
      var two := line[..2];
      assert two[0] == line[0] && two[1] == line[1];
      assert two == "# " <==> line[0] == '#' && line[1] == ' ';
    }
    if |line| >= 3 {
      var three := line[..3];
      assert three[0] == line[0] && three[1] == line[1] && three[2] == line[2];
      assert three == "## " <==> line[0] == '#' && line[1] == '#' && line[2] == ' ';
    }
  }

  lemma {:induction false} HeadingsRead(lines: seq<string>, i: nat, k: nat)
    requires k < |HeadingsFrom(lines, i)|
    ensures var h := HeadingsFrom(lines, i)[k]; IsHeading(lines[h.line - 1]) && h.text == HeadingText(lines[h.line - 1])
    decreases |lines| - i
  {
    var h, rest := HeadingsFrom(lines, i), HeadingsFrom(lines, i + 1);
    if IsHeading(lines[i]) {
      if k > 0 {
        assert h[k] == rest[k - 1];
        HeadingsRead(lines, i + 1, k - 1);
      }
    } else {
      assert h == rest;
      HeadingsRead(lines, i + 1, k);
    }
  }

  /** A section is called what its first line says after the hashes. */
  lemma SectionsReadHeadings(lines: seq<string>, k: nat)
    requires k < |Sections(lines)|
    ensures var s := Sections(lines)[k];
            1 <= s.start <= |lines| && HeadingSays(lines[s.start - 1], s.heading)
  {
    HeadingsRead(lines, 0, k);
    HeadingReads(lines[Sections(lines)[k].start - 1], Sections(lines)[k].heading);
  }

  // ---------------------------------------------------------------- the manifest checks

  ghost predicate RangesMatch(expected: seq<Section>, trace: seq<Entry>) {
    |trace| == |expected| && forall k :: 0 <= k < |trace| ==> trace[k].section == expected[k]
  }

  /** "Traceability ranges match exact specification sections": indices that disagree. */
  method RangeErrors(expected: seq<Section>, trace: seq<Entry>) returns (errors: seq<nat>)
    ensures errors == [] <==> RangesMatch(expected, trace)
  {
    errors := [];
    for k := 0 to |expected|
      invariant errors == [] <==>
                k <= |trace| && forall l :: 0 <= l < k ==> trace[l].section == expected[l]
    {
      if k >= |trace| || trace[k].section != expected[k] {
        errors := errors + [k];
      }
    }
    if |trace| > |expected| {
      errors := errors + seq(|trace| - |expected|, i requires 0 <= i < |trace| - |expected| => |expected| + i);
    }
  }

  /** The dictionary by heading: a later entry replaces an earlier one. */
  function ByHeading(trace: seq<Entry>, heading: string): Option<Entry> {
    if trace == [] then None
    else
      var n := |trace| - 1;
      if trace[n].section.heading == heading then Some(trace[n]) else ByHeading(trace[..n], heading)
  }

  predicate Lists(trace: seq<Entry>, heading: string, task: Id) {
    var e := ByHeading(trace, heading);
    e.Some? && e.value.tasks.Some? && task in e.value.tasks.value
  }

  predicate Overlaps(range: (nat, nat), s: Section) {
    range.0 <= s.end && range.1 >= s.start
  }

  predicate RangeRepresented(expected: seq<Section>, trace: seq<Entry>, task: Id, range: (nat, nat)) {
    forall k :: 0 <= k < |expected| && Overlaps(range, expected[k]) ==> Lists(trace, expected[k].heading, task)
  }

  predicate TaskRepresented(expected: seq<Section>, trace: seq<Entry>, c: Citations) {
    forall i :: 0 <= i < |c.ranges| ==> RangeRepresented(expected, trace, c.task, c.ranges[i])
  }

  predicate AllRepresented(expected: seq<Section>, trace: seq<Entry>, citations: seq<Citations>) {
    forall i :: 0 <= i < |citations| ==> TaskRepresented(expected, trace, citations[i])
  }

  method RangeCitationErrors(expected: seq<Section>, trace: seq<Entry>, task: Id, range: (nat, nat))
    returns (errors: seq<(Id, string)>)
    ensures errors == [] <==> RangeRepresented(expected, trace, task, range)
  {
    errors := [];
    for k := 0 to |expected|
      invariant errors == [] <==>
                forall l :: 0 <= l < k && Overlaps(range, expected[l]) ==> Lists(trace, expected[l].heading, task)
    {
      if Overlaps(range, expected[k]) && !Lists(trace, expected[k].heading, task) {
        errors := errors + [(task, expected[k].heading)];
      }
    }
  }

  /** "Task citations are represented in traceability". */
  method CitationErrors(expected: seq<Section>, trace: seq<Entry>, citations: seq<Citations>)
    returns (errors: seq<(Id, string)>)
    ensures errors == [] <==> AllRepresented(expected, trace, citations)
  {
    errors := [];
    for i := 0 to |citations|
      invariant errors == [] <==> forall n :: 0 <= n < i ==> TaskRepresented(expected, trace, citations[n])
    {
      var c := citations[i];
      ghost var before := errors;
      for j := 0 to |c.ranges|
        invariant errors == [] <==>
                  before == [] && forall n :: 0 <= n < j ==> RangeRepresented(expected, trace, c.task, c.ranges[n])
      {
        var more := RangeCitationErrors(expected, trace, c.task, c.ranges[j]);
        errors := errors + more;
      }
    }
  }

  // ---------------------------------------------------------------- what acceptance means

  function HeadingTexts(s: seq<Section>): (texts: seq<string>)
    ensures |texts| == |s|
  {
    seq(|s|, k requires 0 <= k < |s| => s[k].heading)
  }

  ghost predicate Accepted(lines: seq<string>, trace: seq<Entry>, citations: seq<Citations>) {
    RangesMatch(Sections(lines), trace) && AllRepresented(Sections(lines), trace, citations)
  }

  ghost predicate Cites(c: Citations, line: nat) {
    exists i :: 0 <= i < |c.ranges| && c.ranges[i].0 <= line <= c.ranges[i].1
  }

  /** The entry of the section around a cited line lists the citing task. */
  ghost predicate Traced(lines: seq<string>, trace: seq<Entry>, c: Citations, line: nat) {
    forall k :: 0 <= k < |Sections(lines)| && k < |trace| && Covers(Sections(lines)[k], line) ==>
                trace[k].tasks.Some? && c.task in trace[k].tasks.value
  }

  lemma {:induction false} ByHeadingDistinct(trace: seq<Entry>, k: nat)
    requires k < |trace|
    requires forall l :: k < l < |trace| ==> trace[l].section.heading != trace[k].section.heading
    ensures ByHeading(trace, trace[k].section.heading) == Some(trace[k])
  {
    var n := |trace| - 1;
    if k < n { ByHeadingDistinct(trace[..n], k); }
  }

  /** Main result: with distinct headings, acceptance traces every cited line to its own section. */
  lemma AcceptedIsTraced(lines: seq<string>, trace: seq<Entry>, citations: seq<Citations>, c: Citations, line: nat)
    requires Accepted(lines, trace, citations) && c in citations && Cites(c, line)
    requires Distinct(HeadingTexts(Sections(lines)))
    ensures Traced(lines, trace, c, line)
  {
    var s := Sections(lines);
    var i :| 0 <= i < |c.ranges| && c.ranges[i].0 <= line <= c.ranges[i].1;
    var n :| 0 <= n < |citations| && citations[n] == c;
    assert TaskRepresented(s, trace, citations[n]) && RangeRepresented(s, trace, c.task, c.ranges[i]);
    forall k | 0 <= k < |s| && Covers(s[k], line) ensures trace[k].tasks.Some? && c.task in trace[k].tasks.value {
      assert Overlaps(c.ranges[i], s[k]);
      forall l | k < l < |trace| ensures trace[l].section.heading != trace[k].section.heading {
        assert HeadingTexts(s)[k] != HeadingTexts(s)[l];
      }
      ByHeadingDistinct(trace, k);
    }
  }

  lemma OwnEntryAnswers(lines: seq<string>, trace: seq<Entry>, k: nat)
    requires RangesMatch(Sections(lines), trace) && Distinct(HeadingTexts(Sections(lines))) && k < |trace|
    ensures ByHeading(trace, Sections(lines)[k].heading) == Some(trace[k])
  {
    var s := Sections(lines);
    forall l | k < l < |trace| ensures trace[l].section.heading != trace[k].section.heading {
      assert HeadingTexts(s)[k] != HeadingTexts(s)[l];
    }
    ByHeadingDistinct(trace, k);
  }

  /** If the range touches the section, the section's own entry lists the task. */
  ghost predicate TouchedLists(s: Section, e: Entry, task: Id, range: (nat, nat)) {
    s.start <= range.1 && range.0 <= s.end ==> e.tasks.Some? && task in e.tasks.value
  }

  ghost predicate CitationTraced(s: seq<Section>, trace: seq<Entry>, c: Citations)
    requires |s| == |trace|
  {
    forall i, k :: 0 <= i < |c.ranges| && 0 <= k < |s| ==> TouchedLists(s[k], trace[k], c.task, c.ranges[i])
  }

  lemma RepresentedIff(lines: seq<string>, trace: seq<Entry>, c: Citations)
    requires RangesMatch(Sections(lines), trace) && Distinct(HeadingTexts(Sections(lines)))
    ensures TaskRepresented(Sections(lines), trace, c) <==> CitationTraced(Sections(lines), trace, c)
  {
    var s := Sections(lines);
    forall k | 0 <= k < |s|
      ensures Lists(trace, s[k].heading, c.task) <==> trace[k].tasks.Some? && c.task in trace[k].tasks.value
    {
      OwnEntryAnswers(lines, trace, k);
    }
    if TaskRepresented(s, trace, c) {
      forall i, k | 0 <= i < |c.ranges| && 0 <= k < |s| ensures TouchedLists(s[k], trace[k], c.task, c.ranges[i]) {
        assert RangeRepresented(s, trace, c.task, c.ranges[i]);
      }
    }
  }

  /**
   Main result: with distinct headings, acceptance means that the entries are the sections in order and
   that the entry of every section a cited range touches lists the citing task.
   */
  lemma AcceptedIff(lines: seq<string>, trace: seq<Entry>, citations: seq<Citations>)
    requires Distinct(HeadingTexts(Sections(lines)))
    ensures Accepted(lines, trace, citations) <==>
            && |trace| == |Sections(lines)|
            && (forall k :: 0 <= k < |trace| ==> trace[k].section == Sections(lines)[k])
            && (forall n :: 0 <= n < |citations| ==> CitationTraced(Sections(lines), trace, citations[n]))
  {
    if RangesMatch(Sections(lines), trace) {
      forall n | 0 <= n < |citations|
        ensures TaskRepresented(Sections(lines), trace, citations[n]) <==>
                CitationTraced(Sections(lines), trace, citations[n])
      {
        RepresentedIff(lines, trace, citations[n]);
      }
    }
  }

  /** The corollary in full: exactly one section, and it lists the citing task. */
  lemma CitedLineHasOneOwnerSection(lines: seq<string>, trace: seq<Entry>, citations: seq<Citations>,
                                    c: Citations, line: nat) returns (k: nat)
    requires Accepted(lines, trace, citations) && c in citations && Cites(c, line)
    requires Distinct(HeadingTexts(Sections(lines)))
    requires 1 <= line <= |lines| && Sections(lines) != [] && Sections(lines)[0].start <= line
    ensures k < |Sections(lines)| && k < |trace| && Covers(Sections(lines)[k], line)
    ensures trace[k].tasks.Some? && c.task in trace[k].tasks.value
    ensures forall l :: 0 <= l < |Sections(lines)| && l != k ==> !Covers(Sections(lines)[l], line)
  {
    k := SectionsPartition(lines, line);
    AcceptedIsTraced(lines, trace, citations, c, line);
  }

  /** Entry `i` names a bystander, every other entry the citing task. */
  function MisleadingTrace(s: seq<Section>, i: nat, task: Id, bystander: Id): (trace: seq<Entry>)
    ensures |trace| == |s|
  {
    seq(|s|, k requires 0 <= k < |s| => Entry(s[k], Some(if k == i then [bystander] else [task])))
  }

  /** The lookup answers with the entry at `j` or a later one of the same heading. */
  lemma {:induction false} LaterEntryAnswers(trace: seq<Entry>, heading: string, j: nat)
    requires j < |trace| && trace[j].section.heading == heading
    ensures exists k :: j <= k < |trace| && ByHeading(trace, heading) == Some(trace[k])
  {
    var n := |trace| - 1;
    if trace[n].section.heading != heading {
      LaterEntryAnswers(trace[..n], heading, j);
      var k :| j <= k < n && ByHeading(trace[..n], heading) == Some(trace[..n][k]);
      assert trace[..n][k] == trace[k];
    }
  }

  /** The lookup finds a later entry of the same heading, which names the citing task. */
  lemma MisleadingLists(s: seq<Section>, i: nat, j: nat, task: Id, bystander: Id)
    requires i < j < |s| && s[i].heading == s[j].heading
    ensures Lists(MisleadingTrace(s, i, task, bystander), s[i].heading, task)
  {
    var trace := MisleadingTrace(s, i, task, bystander);
    LaterEntryAnswers(trace, s[i].heading, j);
    var k :| j <= k < |trace| && ByHeading(trace, s[i].heading) == Some(trace[k]);
    assert trace[k].tasks == Some([task]);
  }

  lemma OnlyOwnSection(lines: seq<string>, i: nat)
    requires i < |Sections(lines)|
    ensures var s := Sections(lines);
            forall k :: 0 <= k < |s| ==> (Overlaps((s[i].start, s[i].start), s[k]) <==> k == i)
  {
    var s, h := Sections(lines), HeadingsFrom(lines, 0);
    HeadingsAreOrdered(lines, 0);
    assert i == 0 || h[0].line < h[i].line;
    assert i + 1 < |h| ==> h[i].line < h[i + 1].line;
    assert Covers(s[i], s[i].start);
    var unique := SectionsPartition(lines, s[i].start);
  }

  /**
   Distinct headings are necessary: for every specification with a repeated heading there are a
   manifest and a citation the two checks accept although the cited section does not list the citing task.
   */
  lemma RepeatedHeadingHidesSection(lines: seq<string>, i: nat, j: nat, task: Id, bystander: Id)
    returns (trace: seq<Entry>, c: Citations, line: nat)
    requires i < j < |Sections(lines)| && task != bystander
    requires Sections(lines)[i].heading == Sections(lines)[j].heading
    ensures Accepted(lines, trace, [c]) && Cites(c, line) && Covers(Sections(lines)[i], line)
    ensures forall k :: 0 <= k < |trace| ==> trace[k].tasks.Some? && trace[k].tasks.value != []
    ensures !Traced(lines, trace, c, line)
  {
    var s := Sections(lines);
    trace := MisleadingTrace(s, i, task, bystander);
    line := s[i].start;
    c := Citations(task, [(line, line)]);
    MisleadingLists(s, i, j, task, bystander);
    OnlyOwnSection(lines, i);
    assert RangeRepresented(s, trace, task, (line, line));
    assert c.ranges[0] == (line, line);
    assert trace[i].tasks == Some([bystander]);
  }
}
