/** The subagent-assignment table, with "X through Y" ranges, against the owners of the task graph. */
module Subagents {
  import opened Sequences
  import opened Board
  import Ordering

  type TwoDigits = n: int | 0 <= n < 100

  /** What the task-id patterns find in a responsibilities cell, left to right. */
  datatype Token = Single(id: Id) | Range(prefix: char, first: TwoDigits, last: TwoDigits)

  /** A table line; one without exactly two cells or without an owner is malformed. */
  datatype Line = MalformedLine | OwnerLine(owner: string, tokens: seq<Token>)

  datatype TableError =
    | BadHeader | BadLine | RepeatedOwner(owner: string) | DescendingRange(owner: string)
    | RepeatedTask(owner: string) | OwnershipDiffers(owner: string) | UnknownTasks(owner: string)

  // ---------------------------------------------------------------- expanding ranges

  function Digit(d: int): char
    requires 0 <= d < 10
  {
    ('0' as int + d) as char
  }

  /** `f"{prefix}{number:02d}"`. */
  function TaskName(prefix: char, n: TwoDigits): Id {
    [prefix, Digit(n / 10), Digit(n % 10)]
  }

  predicate Descending(t: Token) {
    t.Range? && t.last < t.first
  }

  /** A descending range stays in the text, where the id pattern then finds its two ends. */
  function Expand(t: Token): seq<Id> {
    match t
    case Single(id) => [id]
    case Range(prefix, first, last) =>
      if last < first then [TaskName(prefix, first), TaskName(prefix, last)]
      else
        seq(last - first + 1, i requires 0 <= i < last - first + 1 => TaskName(prefix, first + i))
  }

  function ExpandAll(tokens: seq<Token>): (groups: seq<seq<Id>>)
    ensures |groups| == |tokens|
  {
    seq(|tokens|, i requires 0 <= i < |tokens| => Expand(tokens[i]))
  }

  function Listed(l: Line): seq<Id> {
    if l.OwnerLine? then Flatten(ExpandAll(l.tokens)) else []
  }

  predicate IsDigit(c: char) {
    '0' <= c <= '9'
  }

  /** The number two digits spell. */
  function Number(tens: char, units: char): int {
    10 * (tens as int - '0' as int) + (units as int - '0' as int)
  }

  lemma NameSpells(prefix: char, n: TwoDigits, id: Id)
    ensures id == TaskName(prefix, n) <==>
            |id| == 3 && id[0] == prefix && IsDigit(id[1]) && IsDigit(id[2]) && Number(id[1], id[2]) == n
  {
  }

  /** A range names its ends and everything between, once each: read off the characters of an id. */
  lemma RangeExpands(prefix: char, first: TwoDigits, last: TwoDigits, id: Id)
    requires first <= last
    ensures id in Expand(Range(prefix, first, last)) <==>
            && |id| == 3 && id[0] == prefix && '0' <= id[1] <= '9' && '0' <= id[2] <= '9'
            && first <= 10 * (id[1] as int - '0' as int) + (id[2] as int - '0' as int) <= last
    ensures Distinct(Expand(Range(prefix, first, last)))
  {
    var ids := Expand(Range(prefix, first, last));
    forall i, j | 0 <= i < j < |ids| ensures ids[i] != ids[j] {
      NameSpells(prefix, first + i, ids[i]);
      NameSpells(prefix, first + j, ids[j]);
    }
    if |id| == 3 && IsDigit(id[1]) && IsDigit(id[2]) && first <= Number(id[1], id[2]) <= last && id[0] == prefix {
      var n := Number(id[1], id[2]);
      NameSpells(prefix, n, id);
      assert ids[n - first] == id;
    }
    if id in ids {
      var i :| 0 <= i < |ids| && ids[i] == id;
      NameSpells(prefix, first + i, id);
    }
  }

  // ---------------------------------------------------------------- what the code compares

  function OwnersOf(table: seq<Line>): (owners: seq<string>)
    requires forall i :: 0 <= i < |table| ==> table[i].OwnerLine?
    ensures |owners| == |table|
  {
    seq(|table|, i requires 0 <= i < |table| => table[i].owner)
  }

  function OwnedIds(tasks: seq<Task>, owner: string): seq<Id> {
    if tasks == [] then []
    else
      var n := |tasks| - 1;
      OwnedIds(tasks[..n], owner) + (if tasks[n].owner == owner then [tasks[n].id] else [])
  }

  predicate LineSound(l: Line) {
    && l.OwnerLine? && Distinct(Listed(l))
    && forall i :: 0 <= i < |l.tokens| ==> !Descending(l.tokens[i])
  }

  /** Every line readable, every owner once, no descending range, no id twice in a line. */
  ghost predicate Sound(table: seq<Line>) {
    (forall i :: 0 <= i < |table| ==> LineSound(table[i])) && Distinct(OwnersOf(table))
  }

  /** The dictionary from owner to expanded ids. */
  ghost predicate RowsOf(table: seq<Line>, rows: map<string, seq<Id>>) {
    && (forall i :: 0 <= i < |table| ==> table[i].OwnerLine? && table[i].owner in rows)
    && (forall i :: 0 <= i < |table| && table[i].OwnerLine? && table[i].owner in rows ==>
          rows[table[i].owner] == Listed(table[i]))
    && (forall o :: o in rows ==> exists i :: 0 <= i < |table| && table[i].OwnerLine? && table[i].owner == o)
  }

  /** Line by line, the ids listed are those the graph gives the owner; and no owner is missing. */
  ghost predicate Matches(table: seq<Line>, tasks: seq<Task>) {
    && (forall i :: 0 <= i < |table| ==>
          table[i].OwnerLine? && multiset(Listed(table[i])) == multiset(OwnedIds(tasks, table[i].owner)))
    && (forall t :: t in tasks ==> exists i :: 0 <= i < |table| && table[i].OwnerLine? && table[i].owner == t.owner)
  }

  method AnyDescending(tokens: seq<Token>) returns (found: bool)
    ensures found <==> exists i :: 0 <= i < |tokens| && Descending(tokens[i])
  {
    found := false;
    for i := 0 to |tokens|
      invariant found <==> exists j :: 0 <= j < i && Descending(tokens[j])
    {
      if Descending(tokens[i]) { found := true; }
    }
  }

  lemma SoundExtends(table: seq<Line>, l: Line)
    ensures Sound(table + [l]) <==> Sound(table) && LineSound(l) && l.owner !in Elements(OwnersOf(table))
  {
    var more := table + [l];
    assert more[|table|] == l;
    assert forall i :: 0 <= i < |table| ==> more[i] == table[i];
    if (forall i :: 0 <= i < |table| ==> table[i].OwnerLine?) && l.OwnerLine? {
      assert OwnersOf(more) == OwnersOf(table) + [l.owner];
      DistinctConcat(OwnersOf(table), [l.owner]);
    }
  }

  lemma RowsExtend(table: seq<Line>, rows: map<string, seq<Id>>, l: Line)
    requires RowsOf(table, rows) && l.OwnerLine? && l.owner !in rows
    ensures RowsOf(table + [l], rows[l.owner := Listed(l)])
  {
    var more, rows' := table + [l], rows[l.owner := Listed(l)];
    assert forall i :: 0 <= i < |table| ==> more[i] == table[i];
    forall o | o in rows' ensures exists i :: 0 <= i < |more| && more[i].OwnerLine? && more[i].owner == o {
      if o == l.owner {
        assert more[|table|].owner == o;
      } else {
        var i :| 0 <= i < |table| && table[i].OwnerLine? && table[i].owner == o;
        assert more[i].owner == o;
      }
    }
  }

  lemma RowsAreOwners(table: seq<Line>, rows: map<string, seq<Id>>, owner: string)
    requires Sound(table) && RowsOf(table, rows)
    ensures owner in rows <==> owner in Elements(OwnersOf(table))
  {
    if owner in rows {
      var i :| 0 <= i < |table| && table[i].owner == owner;
      assert OwnersOf(table)[i] == owner;
    }
    if owner in Elements(OwnersOf(table)) {
      var i :| 0 <= i < |table| && OwnersOf(table)[i] == owner;
      assert table[i].owner in rows;
    }
  }

  /** The loop over table lines. */
  method ReadTable(table: seq<Line>) returns (rows: map<string, seq<Id>>, errors: seq<TableError>)
    ensures errors == [] <==> Sound(table)
    ensures errors == [] ==> RowsOf(table, rows)
  {
    rows, errors := map[], [];
    for n := 0 to |table|
      invariant errors == [] <==> Sound(table[..n])
      invariant errors == [] ==> RowsOf(table[..n], rows)
    {
      var l := table[n];
      assert table[..n + 1] == table[..n] + [l];
      SoundExtends(table[..n], l);
      match l
      case MalformedLine =>
        errors := errors + [BadLine];
      case OwnerLine(owner, tokens) =>
        ghost var known := errors == [] ==> (owner in rows <==> owner in Elements(OwnersOf(table[..n])));
        assert known by {
          if errors == [] { RowsAreOwners(table[..n], rows, owner); }
        }
        if owner in rows {
          errors := errors + [RepeatedOwner(owner)];
        } else {
          var descending := AnyDescending(tokens);
          if descending { errors := errors + [DescendingRange(owner)]; }
          var listed := Listed(l);
          CardinalityDetectsRepeats(listed);
          if |listed| != |Elements(listed)| { errors := errors + [RepeatedTask(owner)]; }
          if errors == [] { RowsExtend(table[..n], rows, l); }
          rows := rows[owner := listed];
        }
    }
    assert table[..|table|] == table;
  }

  function RowFor(rows: map<string, seq<Id>>, owner: string): seq<Id> {
    if owner in rows then rows[owner] else []
  }

  /** One owner's row is a permutation of what the graph gives the owner. */
  ghost predicate OwnerAgrees(rows: map<string, seq<Id>>, tasks: seq<Task>, owner: string) {
    multiset(RowFor(rows, owner)) == multiset(OwnedIds(tasks, owner))
  }

  ghost predicate AgreeUpTo(rows: map<string, seq<Id>>, tasks: seq<Task>, owners: seq<string>, n: nat)
    requires n <= |owners|
  {
    forall j :: 0 <= j < n ==> OwnerAgrees(rows, tasks, owners[j])
  }

  ghost predicate OwnersAgree(rows: map<string, seq<Id>>, tasks: seq<Task>, owners: seq<string>) {
    AgreeUpTo(rows, tasks, owners, |owners|)
  }

  ghost predicate ExpectsOf(expected: map<string, seq<Id>>, tasks: seq<Task>, o: string) {
    OwnedIds(tasks, o) == RowFor(expected, o)
  }

  /** `expected` is the dictionary of what the graph gives each owner. */
  ghost predicate Expects(expected: map<string, seq<Id>>, tasks: seq<Task>) {
    && (forall o :: o in expected <==> exists t :: t in tasks && t.owner == o)
    && (forall o :: ExpectsOf(expected, tasks, o))
  }

  /** `sorted(row) == sorted(owned)` for one owner. */
  method CompareOwner(rows: map<string, seq<Id>>, expected: map<string, seq<Id>>, owner: string,
                      ghost tasks: seq<Task>) returns (same: bool)
    requires ExpectsOf(expected, tasks, owner)
    ensures same <==> OwnerAgrees(rows, tasks, owner)
  {
    Ordering.SortIsCanonical(RowFor(rows, owner), RowFor(expected, owner));
    same := Ordering.Sort(RowFor(rows, owner)) == Ordering.Sort(RowFor(expected, owner));
  }

  lemma OwnedGrows(init: seq<Task>, t: Task, o: string)
    ensures OwnedIds(init + [t], o) == OwnedIds(init, o) + (if t.owner == o then [t.id] else [])
  {
    assert (init + [t])[..|init|] == init;
  }

  lemma ExpectsGrows(expected: map<string, seq<Id>>, init: seq<Task>, t: Task)
    requires Expects(expected, init)
    ensures Expects(expected[t.owner := RowFor(expected, t.owner) + [t.id]], init + [t])
  {
    var after, tasks := expected[t.owner := RowFor(expected, t.owner) + [t.id]], init + [t];
    forall o ensures ExpectsOf(after, tasks, o) {
      assert ExpectsOf(expected, init, o);
      OwnedGrows(init, t, o);
    }
    forall o ensures o in after <==> exists u :: u in tasks && u.owner == o {
      if o in expected {
        var u :| u in init && u.owner == o;
        assert u in tasks;
      }
      assert t in tasks;
    }
  }

  /** `expected`: task ids by graph owner. */
  method GroupByOwner(tasks: seq<Task>) returns (expected: map<string, seq<Id>>)
    ensures Expects(expected, tasks)
  {
    expected := map[];
    for n := 0 to |tasks|
      invariant Expects(expected, tasks[..n])
    {
      var t := tasks[n];
      assert tasks[..n + 1] == tasks[..n] + [t];
      ExpectsGrows(expected, tasks[..n], t);
      expected := expected[t.owner := RowFor(expected, t.owner) + [t.id]];
    }
    assert tasks[..|tasks|] == tasks;
  }

  lemma AgreeOneMore(rows: map<string, seq<Id>>, tasks: seq<Task>, owners: seq<string>, n: nat)
    requires n < |owners|
    ensures AgreeUpTo(rows, tasks, owners, n + 1) <==>
            AgreeUpTo(rows, tasks, owners, n) && OwnerAgrees(rows, tasks, owners[n])
  {
  }

  /** The comparison of sorted lists, owner by owner. */
  method CompareOwners(rows: map<string, seq<Id>>, expected: map<string, seq<Id>>, owners: seq<string>,
                       ghost tasks: seq<Task>) returns (errors: seq<TableError>)
    requires forall o :: ExpectsOf(expected, tasks, o)
    ensures errors == [] <==> OwnersAgree(rows, tasks, owners)
  {
    errors := [];
    for i := 0 to |owners|
      invariant errors == [] <==> AgreeUpTo(rows, tasks, owners, i)
    {
      var owner := owners[i];
      AgreeOneMore(rows, tasks, owners, i);
      var same := CompareOwner(rows, expected, owner, tasks);
      if !same {
        errors := errors + [OwnershipDiffers(owner)];
      }
    }
  }

  method UnknownErrors(rows: map<string, seq<Id>>, tasks: seq<Task>) returns (errors: seq<TableError>)
    ensures errors == [] <==> forall o :: o in rows ==> Elements(rows[o]) <= Known(tasks)
  {
    errors := [];
    var left := rows.Keys;
    while left != {}
      invariant left <= rows.Keys
      invariant errors == [] <==> forall o :: o in rows && o !in left ==> Elements(rows[o]) <= Known(tasks)
    {
      var o :| o in left;
      var unknown := Elements(rows[o]) - Known(tasks);
      assert Elements(rows[o]) <= Known(tasks) + unknown;
      if unknown != {} { errors := errors + [UnknownTasks(o)]; }
      left := left - {o};
    }
  }

  lemma {:induction false} OwnedContains(tasks: seq<Task>, owner: string, a: Id)
    ensures a in OwnedIds(tasks, owner) <==> exists t :: t in tasks && t.owner == owner && t.id == a
  {
    if tasks == [] {
    } else {
      var n := |tasks| - 1;
      OwnedContains(tasks[..n], owner, a);
      assert tasks == tasks[..n] + [tasks[n]];
      if t :| t in tasks && t.owner == owner && t.id == a && t != tasks[n] { assert t in tasks[..n]; }
      if t :| t in tasks[..n] && t.owner == owner && t.id == a { assert t in tasks; }
    }
  }

  lemma OwnedIsKnown(tasks: seq<Task>, owner: string, ids: seq<Id>)
    requires multiset(ids) == multiset(OwnedIds(tasks, owner))
    ensures Elements(ids) <= Known(tasks)
  {
    forall a | a in ids ensures a in Known(tasks) {
      assert a in multiset(ids) && a in multiset(OwnedIds(tasks, owner));
      OwnedContains(tasks, owner, a);
      var t :| t in tasks && t.id == a;
      RecordIsKnown(tasks, t);
    }
  }

  /** Once owners agree, the last loop has nothing left to find. */
  lemma AgreementIsKnown(rows: map<string, seq<Id>>, tasks: seq<Task>, owners: seq<string>)
    requires OwnersAgree(rows, tasks, owners) && rows.Keys <= Elements(owners)
    ensures forall o :: o in rows ==> Elements(rows[o]) <= Known(tasks)
  {
    forall o | o in rows ensures Elements(rows[o]) <= Known(tasks) {
      assert o in Elements(owners);
      var j :| 0 <= j < |owners| && owners[j] == o;
      OwnedIsKnown(tasks, o, rows[o]);
    }
  }

  lemma AgreementAt(rows: map<string, seq<Id>>, tasks: seq<Task>, owners: seq<string>, o: string)
    requires OwnersAgree(rows, tasks, owners) && o in Elements(owners)
    ensures OwnerAgrees(rows, tasks, o)
  {
    var j :| 0 <= j < |owners| && owners[j] == o;
  }

  /** An owner with a task has a row when the owner agrees. */
  lemma OwnerHasRow(rows: map<string, seq<Id>>, tasks: seq<Task>, t: Task)
    requires t in tasks && OwnerAgrees(rows, tasks, t.owner)
    ensures t.owner in rows
  {
    OwnedContains(tasks, t.owner, t.id);
    assert t.id in multiset(OwnedIds(tasks, t.owner)) && t.id in multiset(RowFor(rows, t.owner));
  }

  lemma AgreementMatches(table: seq<Line>, tasks: seq<Task>, rows: map<string, seq<Id>>,
                         expected: map<string, seq<Id>>, owners: seq<string>)
    requires RowsOf(table, rows) && Elements(owners) == rows.Keys + expected.Keys && Expects(expected, tasks)
    requires OwnersAgree(rows, tasks, owners)
    ensures Matches(table, tasks)
  {
    forall i | 0 <= i < |table|
      ensures table[i].OwnerLine? && multiset(Listed(table[i])) == multiset(OwnedIds(tasks, table[i].owner))
    {
      AgreementAt(rows, tasks, owners, table[i].owner);
    }
    forall t | t in tasks ensures exists i :: 0 <= i < |table| && table[i].OwnerLine? && table[i].owner == t.owner {
      assert t.owner in expected;
      AgreementAt(rows, tasks, owners, t.owner);
      OwnerHasRow(rows, tasks, t);
    }
  }

  lemma MatchedOwnerHasRow(table: seq<Line>, tasks: seq<Task>, rows: map<string, seq<Id>>, t: Task)
    requires RowsOf(table, rows) && Matches(table, tasks) && t in tasks
    ensures t.owner in rows
  {
    var i :| 0 <= i < |table| && table[i].OwnerLine? && table[i].owner == t.owner;
  }

  lemma MatchAgrees(table: seq<Line>, tasks: seq<Task>, rows: map<string, seq<Id>>,
                    expected: map<string, seq<Id>>, o: string)
    requires RowsOf(table, rows) && Expects(expected, tasks) && Matches(table, tasks)
    requires o in rows.Keys + expected.Keys
    ensures OwnerAgrees(rows, tasks, o)
  {
    if o in expected {
      var t :| t in tasks && t.owner == o;
      MatchedOwnerHasRow(table, tasks, rows, t);
    }
    var i :| 0 <= i < |table| && table[i].OwnerLine? && table[i].owner == o;
  }

  lemma ComparedIff(table: seq<Line>, tasks: seq<Task>, rows: map<string, seq<Id>>,
                    expected: map<string, seq<Id>>, owners: seq<string>)
    requires RowsOf(table, rows) && Elements(owners) == rows.Keys + expected.Keys && Expects(expected, tasks)
    ensures OwnersAgree(rows, tasks, owners) <==> Matches(table, tasks)
  {
    if OwnersAgree(rows, tasks, owners) { AgreementMatches(table, tasks, rows, expected, owners); }
    if Matches(table, tasks) {
      forall j | 0 <= j < |owners| ensures OwnerAgrees(rows, tasks, owners[j]) {
        assert owners[j] in Elements(owners);
        MatchAgrees(table, tasks, rows, expected, owners[j]);
      }
    }
  }

  /** The whole check, as the list of its complaints. */
  method AssignmentErrors(headerOk: bool, table: seq<Line>, tasks: seq<Task>) returns (errors: seq<TableError>)
    ensures errors == [] <==> headerOk && Sound(table) && Matches(table, tasks)
  {
    var rows, lineErrors := ReadTable(table);
    var expected := GroupByOwner(tasks);
    var owners := Ordering.SortedIds(rows.Keys + expected.Keys);
    var ownerErrors := CompareOwners(rows, expected, owners, tasks);
    var unknownErrors := UnknownErrors(rows, tasks);
    if ownerErrors == [] { AgreementIsKnown(rows, tasks, owners); }
    if lineErrors == [] { ComparedIff(table, tasks, rows, expected, owners); }
    errors := (if headerOk then [] else [BadHeader]) + lineErrors + ownerErrors + unknownErrors;
  }

  // ---------------------------------------------------------------- what acceptance means

  function AllListed(table: seq<Line>): (groups: seq<seq<Id>>)
    ensures |groups| == |table|
  {
    seq(|table|, i requires 0 <= i < |table| => Listed(table[i]))
  }

  /** Each graph task exactly once in the whole table, in its owner's line, and nothing else. */
  ghost predicate AssignsEachOnce(table: seq<Line>, tasks: seq<Task>) {
    && multiset(Flatten(AllListed(table))) == multiset(TaskIds(tasks))
    && forall i, t :: 0 <= i < |table| && t in tasks && t.id in Listed(table[i]) ==>
                      table[i].OwnerLine? && table[i].owner == t.owner
  }

  lemma {:induction false} OwnedDistinct(tasks: seq<Task>, owner: string)
    requires UniqueIds(tasks)
    ensures Distinct(OwnedIds(tasks, owner))
  {
    if tasks == [] {
    } else {
      var n := |tasks| - 1;
      var init, last := tasks[..n], tasks[n];
      assert TaskIds(init) == TaskIds(tasks)[..n];
      OwnedDistinct(init, owner);
      DistinctConcat(OwnedIds(init, owner), [last.id]);
      OwnedContains(init, owner, last.id);
      forall t | t in init ensures t.id != last.id {
        var i :| 0 <= i < n && init[i] == t;
        assert TaskIds(tasks)[i] != TaskIds(tasks)[n];
      }
    }
  }

  lemma TheOwner(tasks: seq<Task>, t: Task, owner: string)
    requires UniqueIds(tasks) && t in tasks
    ensures t.id in OwnedIds(tasks, owner) <==> t.owner == owner
  {
    OwnedContains(tasks, owner, t.id);
    if u :| u in tasks && u.owner == owner && u.id == t.id {
      UniqueLookup(tasks, t);
      UniqueLookup(tasks, u);
    }
  }

  lemma ListedIsOwned(table: seq<Line>, tasks: seq<Task>, i: nat, a: Id)
    requires Matches(table, tasks) && i < |table|
    ensures a in Listed(table[i]) <==> a in OwnedIds(tasks, table[i].owner)
  {
    assert a in Listed(table[i]) <==> a in multiset(Listed(table[i]));
    assert a in OwnedIds(tasks, table[i].owner) <==> a in multiset(OwnedIds(tasks, table[i].owner));
  }

  lemma LinesDisjoint(table: seq<Line>, tasks: seq<Task>)
    requires UniqueIds(tasks) && Sound(table) && Matches(table, tasks)
    ensures Distinct(Flatten(AllListed(table)))
  {
    var groups := AllListed(table);
    forall i, j, a | 0 <= i < j < |groups| && a in groups[i] ensures a !in groups[j] {
      ListedIsOwned(table, tasks, i, a);
      ListedIsOwned(table, tasks, j, a);
      OwnedContains(tasks, table[i].owner, a);
      var t :| t in tasks && t.owner == table[i].owner && t.id == a;
      TheOwner(tasks, t, table[j].owner);
      assert OwnersOf(table)[i] != OwnersOf(table)[j];
    }
    assert forall i :: 0 <= i < |groups| ==> LineSound(table[i]) && Distinct(groups[i]);
    FlattenDistinct(groups);
  }

  lemma ListedIffKnown(table: seq<Line>, tasks: seq<Task>, a: Id)
    requires UniqueIds(tasks) && Matches(table, tasks)
    ensures a in Flatten(AllListed(table)) <==> a in Known(tasks)
  {
    var groups := AllListed(table);
    FlattenContains(groups, a);
    if a in Flatten(groups) {
      var i :| 0 <= i < |groups| && a in groups[i];
      ListedIsOwned(table, tasks, i, a);
      OwnedContains(tasks, table[i].owner, a);
      var t :| t in tasks && t.id == a;
      RecordIsKnown(tasks, t);
    }
    if a in Known(tasks) {
      var t := KnownIsARecord(tasks, a);
      var i :| 0 <= i < |table| && table[i].owner == t.owner;
      TheOwner(tasks, t, t.owner);
      ListedIsOwned(table, tasks, i, a);
      assert a in groups[i];
    }
  }

  /** Line by line agreement assigns each task once over the whole table ... */
  lemma MatchesAssigns(table: seq<Line>, tasks: seq<Task>)
    requires UniqueIds(tasks) && Sound(table) && Matches(table, tasks)
    ensures AssignsEachOnce(table, tasks)
  {
    var flat := Flatten(AllListed(table));
    LinesDisjoint(table, tasks);
    forall a ensures a in Elements(flat) <==> a in Elements(TaskIds(tasks)) { ListedIffKnown(table, tasks, a); }
    DistinctSameElements(flat, TaskIds(tasks));
    forall i, t | 0 <= i < |table| && t in tasks && t.id in Listed(table[i]) ensures table[i].owner == t.owner {
      ListedIsOwned(table, tasks, i, t.id);
      TheOwner(tasks, t, table[i].owner);
    }
  }

  lemma FlatIsKnown(table: seq<Line>, tasks: seq<Task>, a: Id)
    requires AssignsEachOnce(table, tasks)
    ensures a in Known(tasks) <==> exists j :: 0 <= j < |table| && a in Listed(table[j])
  {
    var groups := AllListed(table);
    FlattenContains(groups, a);
    assert a in Flatten(groups) <==> a in multiset(Flatten(groups));
    assert a in TaskIds(tasks) <==> a in multiset(TaskIds(tasks));
    assert forall j :: 0 <= j < |table| ==> groups[j] == Listed(table[j]);
  }

  lemma OwnersDiffer(table: seq<Line>, i: nat, j: nat)
    requires Sound(table) && i < |table| && j < |table|
    ensures table[i].owner == table[j].owner <==> i == j
  {
    assert OwnersOf(table)[i] == table[i].owner && OwnersOf(table)[j] == table[j].owner;
  }

  lemma LineHoldsOwned(table: seq<Line>, tasks: seq<Task>, i: nat, a: Id)
    requires UniqueIds(tasks) && Sound(table) && AssignsEachOnce(table, tasks) && i < |table|
    ensures a in Listed(table[i]) <==> a in OwnedIds(tasks, table[i].owner)
  {
    FlatIsKnown(table, tasks, a);
    OwnedContains(tasks, table[i].owner, a);
    if a in Listed(table[i]) {
      var t := KnownIsARecord(tasks, a);
    }
    if t :| t in tasks && t.owner == table[i].owner && t.id == a {
      RecordIsKnown(tasks, t);
      var j :| 0 <= j < |table| && a in Listed(table[j]);
      OwnersDiffer(table, i, j);
    }
  }

  /** ... and conversely. */
  lemma AssignsMatches(table: seq<Line>, tasks: seq<Task>)
    requires UniqueIds(tasks) && Sound(table) && AssignsEachOnce(table, tasks)
    ensures Matches(table, tasks)
  {
    var groups := AllListed(table);
    var flat := Flatten(groups);
    forall a ensures a in flat <==> a in Known(tasks) {
      assert a in flat <==> a in multiset(flat);
      assert a in Known(tasks) <==> a in multiset(TaskIds(tasks));
    }
    forall t | t in tasks ensures exists i :: 0 <= i < |table| && table[i].owner == t.owner && t.id in groups[i] {
      RecordIsKnown(tasks, t);
      FlattenContains(groups, t.id);
      var i :| 0 <= i < |groups| && t.id in groups[i];
    }
    forall i | 0 <= i < |table| ensures multiset(Listed(table[i])) == multiset(OwnedIds(tasks, table[i].owner)) {
      var owned := OwnedIds(tasks, table[i].owner);
      OwnedDistinct(tasks, table[i].owner);
      forall a ensures a in Elements(groups[i]) <==> a in Elements(owned) {
        LineHoldsOwned(table, tasks, i, a);
      }
      DistinctSameElements(groups[i], owned);
    }
  }

  /** Main result: on a readable table the check accepts exactly the complete, exact assignments. */
  lemma AcceptedIffAssignsEachOnce(table: seq<Line>, tasks: seq<Task>)
    requires UniqueIds(tasks) && Sound(table)
    ensures Matches(table, tasks) <==> AssignsEachOnce(table, tasks)
  {
    if Matches(table, tasks) { MatchesAssigns(table, tasks); }
    if AssignsEachOnce(table, tasks) { AssignsMatches(table, tasks); }
  }

  // ---------------------------------------------------------------- acceptance, character by character

  /** The ids a token of the table stands for. */
  ghost predicate Names(t: Token, id: Id) {
    match t
    case Single(a) => id == a
    case Range(prefix, first, last) =>
      && |id| == 3 && id[0] == prefix && '0' <= id[1] <= '9' && '0' <= id[2] <= '9'
      && first <= 10 * (id[1] as int - '0' as int) + (id[2] as int - '0' as int) <= last
  }

  ghost predicate LineNames(l: Line, id: Id) {
    l.OwnerLine? && exists k :: 0 <= k < |l.tokens| && Names(l.tokens[k], id)
  }

  ghost predicate NoRangeDescends(l: Line) {
    l.OwnerLine? && forall k :: 0 <= k < |l.tokens| && l.tokens[k].Range? ==> l.tokens[k].first <= l.tokens[k].last
  }

  /** Readable, ascending, and no id named by two of its tokens. */
  ghost predicate LineReads(l: Line) {
    && NoRangeDescends(l)
    && forall k, m, id :: 0 <= k < m < |l.tokens| && Names(l.tokens[k], id) ==> !Names(l.tokens[m], id)
  }

  /** The line names exactly the tasks of its owner. */
  ghost predicate LineOwns(l: Line, tasks: seq<Task>) {
    l.OwnerLine? && forall id :: LineNames(l, id) <==> exists t :: t in tasks && t.owner == l.owner && t.id == id
  }

  lemma ExpandNames(t: Token, id: Id)
    requires t.Range? ==> t.first <= t.last
    ensures id in Expand(t) <==> Names(t, id)
    ensures Distinct(Expand(t))
  {
    if t.Range? { RangeExpands(t.prefix, t.first, t.last, id); }
  }

  lemma ListedNames(l: Line, id: Id)
    requires NoRangeDescends(l)
    ensures id in Listed(l) <==> LineNames(l, id)
  {
    var groups := ExpandAll(l.tokens);
    FlattenContains(groups, id);
    forall k | 0 <= k < |groups| ensures id in groups[k] <==> Names(l.tokens[k], id) { ExpandNames(l.tokens[k], id); }
  }

  lemma LineSoundIff(l: Line)
    ensures LineSound(l) <==> LineReads(l)
  {
    if NoRangeDescends(l) {
      var groups := ExpandAll(l.tokens);
      FlattenDistinct(groups);
      forall k | 0 <= k < |groups| ensures Distinct(groups[k]) { ExpandNames(l.tokens[k], []); }
      forall k, id | 0 <= k < |groups| ensures id in groups[k] <==> Names(l.tokens[k], id) {
        ExpandNames(l.tokens[k], id);
      }
      if LineReads(l) {
        forall k, m, id | 0 <= k < m < |groups| && id in groups[k] ensures id !in groups[m] {
          assert Names(l.tokens[k], id) && !Names(l.tokens[m], id);
        }
      }
      if LineSound(l) {
        forall k, m, id | 0 <= k < m < |l.tokens| && Names(l.tokens[k], id) ensures !Names(l.tokens[m], id) {
          assert id in groups[k] && id !in groups[m];
        }
      }
    }
  }

  lemma LineOwnsIff(l: Line, tasks: seq<Task>)
    requires UniqueIds(tasks) && LineSound(l)
    ensures LineOwns(l, tasks) <==> multiset(Listed(l)) == multiset(OwnedIds(tasks, l.owner))
  {
    LineSoundIff(l);
    var owned := OwnedIds(tasks, l.owner);
    OwnedDistinct(tasks, l.owner);
    DistinctSameElements(Listed(l), owned);
    forall id
      ensures id in Elements(Listed(l)) <==> LineNames(l, id)
      ensures id in Elements(owned) <==> exists t :: t in tasks && t.owner == l.owner && t.id == id
    {
      ListedNames(l, id);
      OwnedContains(tasks, l.owner, id);
    }
    if LineOwns(l, tasks) { assert Elements(Listed(l)) == Elements(owned); }
  }

  ghost predicate LinesFit(table: seq<Line>, tasks: seq<Task>) {
    && (forall i :: 0 <= i < |table| ==> LineReads(table[i]) && LineOwns(table[i], tasks))
    && (forall i, j :: 0 <= i < j < |table| && table[i].OwnerLine? && table[j].OwnerLine? ==>
          table[i].owner != table[j].owner)
    && (forall t :: t in tasks ==> exists i :: 0 <= i < |table| && table[i].OwnerLine? && table[i].owner == t.owner)
  }

  /** Main result: the check accepts a table exactly when each line names its owner's tasks and no others. */
  lemma AcceptedIffLinesFit(table: seq<Line>, tasks: seq<Task>)
    requires UniqueIds(tasks)
    ensures Sound(table) && Matches(table, tasks) <==> LinesFit(table, tasks)
  {
    forall i | 0 <= i < |table|
      ensures LineSound(table[i]) <==> LineReads(table[i])
      ensures LineSound(table[i]) ==>
              (LineOwns(table[i], tasks) <==>
               multiset(Listed(table[i])) == multiset(OwnedIds(tasks, table[i].owner)))
    {
      LineSoundIff(table[i]);
      if LineSound(table[i]) { LineOwnsIff(table[i], tasks); }
    }
    if forall i :: 0 <= i < |table| ==> table[i].OwnerLine? {
      var owners := OwnersOf(table);
      if Distinct(owners) {
        forall i, j | 0 <= i < j < |table| ensures table[i].owner != table[j].owner { assert owners[i] != owners[j]; }
      }
    }
  }
}
