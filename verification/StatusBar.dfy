/**
 The status-bar controller: it reconciles a keyed map of status items with the rows to show, while the
 user clicks items and the system dismisses the popover. Items are identified by numbers handed out in
 creation order; `live` is what the system status bar holds, oldest first.
 */
module StatusBar {
  import opened Sequences

  datatype Bar = Bar(
    providers: map<string, nat>, fallback: Option<nat>, order: seq<string>,
    anchor: Option<nat>, shown: bool, monitors: set<nat>, popover: Option<string>,
    live: seq<nat>, nextItem: nat)

  datatype Event =
    | Apply(rows: seq<string>)
    | Click(item: nat)
    | Dismissed
    | OpenedUsage
    | SelectionChanged(selection: Option<string>)

  const EMPTY := Bar(map[], None, [], None, false, {}, None, [], 0)

  // ---------------------------------------------------------------- sequences of items

  function FilterOut(items: seq<nat>, gone: set<nat>): seq<nat> {
    if items == [] then []
    else (if items[0] in gone then [] else [items[0]]) + FilterOut(items[1..], gone)
  }

  /** The ids in order of first occurrence. */
  function Dedup(rows: seq<string>): seq<string>
    decreases |rows|
  {
    if rows == [] then []
    else
      var before, last := Dedup(rows[..|rows| - 1]), rows[|rows| - 1];
      if last in before then before else before + [last]
  }

  function ItemsInOrder(providers: map<string, nat>, ids: seq<string>): (items: seq<nat>)
    requires forall i :: 0 <= i < |ids| ==> ids[i] in providers
    ensures |items| == |ids|
  {
    seq(|ids|, i requires 0 <= i < |ids| => providers[ids[i]])
  }

  predicate Ascending(items: seq<nat>) {
    forall i, j :: 0 <= i < j < |items| ==> items[i] < items[j]
  }

  // ---------------------------------------------------------------- the operations on values

  function Discard(b: Bar, gone: set<nat>): Bar {
    var lost := b.anchor.Some? && b.anchor.value in gone;
    b.(monitors := b.monitors - gone, live := FilterOut(b.live, gone),
       anchor := if lost then None else b.anchor, shown := b.shown && !lost)
  }

  function ItemsOf(providers: map<string, nat>, keys: set<string>): set<nat> {
    set k | k in keys && k in providers :: providers[k]
  }

  /** `removeProviderItem` for each of these keys, in any order. */
  function RemoveKeys(b: Bar, keys: set<string>): Bar {
    Discard(b, ItemsOf(b.providers, keys)).(providers := b.providers - keys)
  }

  function RemoveFallback(b: Bar): Bar {
    if b.fallback.None? then b else Discard(b, {b.fallback.value}).(fallback := None)
  }

  /** A new system item with its right-click monitor. */
  function NewItem(b: Bar): Bar {
    b.(live := b.live + [b.nextItem], monitors := b.monitors + {b.nextItem}, nextItem := b.nextItem + 1)
  }

  function EnsureFallback(b: Bar): Bar {
    if b.fallback.Some? then b else NewItem(b).(fallback := Some(b.nextItem))
  }

  function EnsureProvider(b: Bar, id: string): Bar {
    if id in b.providers then b else NewItem(b).(providers := b.providers[id := b.nextItem])
  }

  function EnsureAll(b: Bar, rows: seq<string>): Bar
    decreases |rows|
  {
    if rows == [] then b else EnsureProvider(EnsureAll(b, rows[..|rows| - 1]), rows[|rows| - 1])
  }

  /** The items the pass over the rows starts from. */
  function Pruned(b: Bar, rows: seq<string>): Bar {
    var c := RemoveFallback(b);
    if b.order != rows then RemoveKeys(c, c.providers.Keys)
    else RemoveKeys(c, set id | id in c.providers && id !in rows)
  }

  function ApplyRows(b: Bar, rows: seq<string>): Bar {
    if rows == [] then EnsureFallback(RemoveKeys(b, b.providers.Keys))
    else EnsureAll(Pruned(b, rows).(order := rows), rows)
  }

  ghost predicate Owns(b: Bar, item: nat) {
    exists id :: id in b.providers && b.providers[id] == item
  }

  /** What a click on this item focuses: the provider it belongs to, or the overview. */
  ghost function Focus(b: Bar, item: nat): Option<string> {
    if Owns(b, item) then
      var id :| id in b.providers && b.providers[id] == item;
      if id == "" then None else Some(id)
    else None
  }

  ghost function Toggled(b: Bar, item: nat): Bar {
    if b.shown && b.anchor == Some(item) then b.(shown := false, anchor := None)
    else b.(shown := true, anchor := Some(item), popover := Focus(b, item))
  }

  ghost function Step(b: Bar, e: Event): Bar {
    match e
    case Apply(rows) => ApplyRows(b, rows)
    case Click(item) => if item in b.live then Toggled(b, item) else b
    case Dismissed => b.(shown := false)
    case OpenedUsage => b.(shown := false, anchor := None)
    case SelectionChanged(selection) => b.(popover := selection)
  }

  // ---------------------------------------------------------------- the invariant

  /** Items, monitors, anchor and the system bar agree. */
  ghost predicate Wired(b: Bar) {
    && Ascending(b.live) && (forall x :: x in b.live ==> x < b.nextItem)
    && (forall x :: x in b.live <==> Owns(b, x) || b.fallback == Some(x))
    && (forall x :: x in b.monitors <==> x in b.live)
    && (forall i, j :: i in b.providers && j in b.providers && b.providers[i] == b.providers[j] ==> i == j)
    && (b.fallback.Some? ==> !Owns(b, b.fallback.value))
    && (b.anchor.Some? ==> b.anchor.value in b.live)
    && (b.shown ==> b.anchor.Some?)
  }

  ghost predicate KeyedBy(b: Bar, rows: seq<string>) {
    && b.providers.Keys == Elements(rows)
    && (forall i :: 0 <= i < |Dedup(rows)| ==> Dedup(rows)[i] in b.providers)
    && b.live == ItemsInOrder(b.providers, Dedup(rows))
  }

  /** The provider items are those of the canonical order, created in that order; or there are none. */
  ghost predicate InOrder(b: Bar) {
    b.providers == map[] || (b.fallback == None && KeyedBy(b, b.order))
  }

  ghost predicate Inv(b: Bar) {
    Wired(b) && InOrder(b)
  }

  /** What is on the bar after the given rows were applied. */
  ghost predicate InSync(b: Bar, rows: seq<string>) {
    && Inv(b)
    && (b.fallback.Some? <==> rows == [])
    && if rows == [] then b.providers == map[] && b.live == [b.fallback.value]
       else b.order == rows && KeyedBy(b, rows)
  }

  // ---------------------------------------------------------------- lemmas about removal

  lemma {:induction false} FilterOutContains(items: seq<nat>, gone: set<nat>, x: nat)
    ensures x in FilterOut(items, gone) <==> x in items && x !in gone
  {
    if items == [] {
    } else {
      FilterOutContains(items[1..], gone, x);
    }
  }

  lemma {:induction false} FilterOutAscending(items: seq<nat>, gone: set<nat>)
    requires Ascending(items)
    ensures Ascending(FilterOut(items, gone))
  {
    if items == [] {
    } else {
      var rest := FilterOut(items[1..], gone);
      FilterOutAscending(items[1..], gone);
      forall k | 0 <= k < |rest| ensures items[0] < rest[k] {
        FilterOutContains(items[1..], gone, rest[k]);
        var j :| 0 <= j < |items[1..]| && items[1..][j] == rest[k];
        assert items[j + 1] == rest[k];
      }
    }
  }

  lemma {:induction false} FilterOutTwice(items: seq<nat>, a: set<nat>, b: set<nat>)
    ensures FilterOut(FilterOut(items, a), b) == FilterOut(items, a + b)
  {
    if items == [] {
    } else {
      FilterOutTwice(items[1..], a, b);
      if items[0] !in a {
        assert FilterOut(items, a)[1..] == FilterOut(items[1..], a);
      } else {
        assert FilterOut(items, a) == FilterOut(items[1..], a);
      }
    }
  }

  lemma {:induction false} FilterOutNothing(items: seq<nat>)
    ensures FilterOut(items, {}) == items
  {
    if items == [] {
    } else {
      FilterOutNothing(items[1..]);
    }
  }

  lemma DiscardWires(b: Bar, gone: set<nat>)
    requires Wired(b)
    ensures var c := Discard(b, gone);
            && Ascending(c.live) && (forall x :: x in c.live ==> x < c.nextItem)
            && (forall x :: x in c.live <==> x in b.live && x !in gone)
            && (forall x :: x in c.monitors <==> x in c.live)
            && (c.anchor.Some? ==> c.anchor.value in c.live) && (c.shown ==> c.anchor.Some?)
  {
    FilterOutAscending(b.live, gone);
    forall x ensures x in FilterOut(b.live, gone) <==> x in b.live && x !in gone {
      FilterOutContains(b.live, gone, x);
    }
  }

  /** Removing keys removes their items, monitors and anchor, and nothing else. */
  lemma RemoveKeysWires(b: Bar, keys: set<string>)
    requires Wired(b)
    ensures Wired(RemoveKeys(b, keys))
  {
    var gone, c := ItemsOf(b.providers, keys), RemoveKeys(b, keys);
    DiscardWires(b, gone);
    forall x ensures Owns(c, x) <==> Owns(b, x) && x !in gone {
      if Owns(b, x) && x !in gone {
        var id :| id in b.providers && b.providers[id] == x;
        assert id !in keys && c.providers[id] == x;
      }
      if Owns(c, x) {
        var id :| id in c.providers && c.providers[id] == x;
        assert b.providers[id] == x;
      }
    }
    forall x | x in gone ensures b.fallback != Some(x) {
      assert Owns(b, x);
    }
  }

  lemma RemoveFallbackWires(b: Bar)
    requires Wired(b)
    ensures Wired(RemoveFallback(b)) && RemoveFallback(b).fallback == None
  {
    var c := RemoveFallback(b);
    if b.fallback.Some? {
      DiscardWires(b, {b.fallback.value});
      forall x ensures Owns(c, x) <==> Owns(b, x) {}
    }
  }

  lemma NoProvidersNoItems(b: Bar)
    requires Wired(b) && b.providers == map[]
    ensures b.fallback == None ==> b.live == []
    ensures b.fallback.Some? ==> b.live == [b.fallback.value]
  {
    assert b.live != [] ==> b.live[0] in b.live;
    assert |b.live| >= 2 ==> b.live[0] < b.live[1];
    assert b.fallback.Some? ==> b.fallback.value in b.live;
    forall i | 0 <= i < |b.live| ensures b.fallback == Some(b.live[i]) { assert b.live[i] in b.live; }
  }

  /** When the order is unchanged there is nothing to remove. */
  lemma SameOrderRemovesNothing(b: Bar, rows: seq<string>)
    requires Inv(b) && b.order == rows && rows != []
    ensures Pruned(b, rows) == RemoveFallback(b)
    ensures b.fallback == None ==> Pruned(b, rows) == b
  {
    var c := RemoveFallback(b);
    assert c.providers == b.providers;
    var extra := set id | id in c.providers && id !in rows;
    assert extra == {} by {
      forall id | id in c.providers ensures id in rows { assert id in Elements(rows); }
    }
    assert ItemsOf(c.providers, extra) == {};
    FilterOutNothing(c.live);
    assert c.monitors - {} == c.monitors && c.providers - {} == c.providers;
  }

  // ---------------------------------------------------------------- lemmas about creation

  lemma {:induction false} DedupElements(rows: seq<string>)
    ensures Elements(Dedup(rows)) == Elements(rows) && Distinct(Dedup(rows))
  {
    if rows == [] {
    } else {
      var n := |rows| - 1;
      DedupElements(rows[..n]);
      assert rows == rows[..n] + [rows[n]];
      assert Elements(rows) == Elements(rows[..n]) + {rows[n]};
      DistinctConcat(Dedup(rows[..n]), [rows[n]]);
      assert rows[n] in Dedup(rows[..n]) <==> rows[n] in Elements(Dedup(rows[..n]));
      assert Elements(Dedup(rows[..n]) + [rows[n]]) == Elements(Dedup(rows[..n])) + {rows[n]};
    }
  }

  lemma NewItemIsFresh(b: Bar)
    requires Wired(b)
    ensures b.nextItem !in b.live && !Owns(b, b.nextItem) && b.fallback != Some(b.nextItem)
    ensures Ascending(b.live + [b.nextItem])
  {
    forall i | 0 <= i < |b.live| ensures b.live[i] < b.nextItem { assert b.live[i] in b.live; }
    assert Owns(b, b.nextItem) ==> b.nextItem in b.live;
  }

  lemma AllOwnedNotFresh(b: Bar)
    requires Wired(b)
    ensures forall k :: k in b.providers ==> b.providers[k] != b.nextItem
  {
    forall k | k in b.providers ensures b.providers[k] != b.nextItem {
      assert Owns(b, b.providers[k]);
    }
  }

  lemma EnsureProviderWires(b: Bar, id: string)
    requires Wired(b)
    ensures Wired(EnsureProvider(b, id))
  {
    if id !in b.providers {
      var c := EnsureProvider(b, id);
      NewItemIsFresh(b);
      forall x ensures Owns(c, x) <==> Owns(b, x) || x == b.nextItem {
        if Owns(b, x) {
          var k :| k in b.providers && b.providers[k] == x;
          assert c.providers[k] == x;
        }
        if Owns(c, x) {
          var k :| k in c.providers && c.providers[k] == x;
          assert k == id || b.providers[k] == x;
        }
        assert c.providers[id] == b.nextItem;
      }
      AllOwnedNotFresh(b);
    }
  }

  lemma EnsureFallbackWires(b: Bar)
    requires Wired(b)
    ensures Wired(EnsureFallback(b)) && EnsureFallback(b).fallback.Some?
  {
    if b.fallback.None? {
      var c := EnsureFallback(b);
      NewItemIsFresh(b);
      forall x ensures Owns(c, x) <==> Owns(b, x) {}
    }
  }

  lemma {:induction false} EnsureAllWires(b: Bar, rows: seq<string>)
    requires Wired(b)
    ensures Wired(EnsureAll(b, rows))
    ensures EnsureAll(b, rows).fallback == b.fallback && EnsureAll(b, rows).order == b.order
  {
    if rows == [] {
    } else {
      var n := |rows| - 1;
      EnsureAllWires(b, rows[..n]);
      EnsureProviderWires(EnsureAll(b, rows[..n]), rows[n]);
    }
  }

  /** From a bare bar the pass creates one item per id, in order of first occurrence. */
  lemma {:induction false} EnsureAllFromEmpty(b: Bar, rows: seq<string>)
    requires b.providers == map[] && b.live == []
    ensures KeyedBy(EnsureAll(b, rows), rows)
  {
    if rows == [] {
      assert Elements(rows) == {};
    } else {
      var n := |rows| - 1;
      var c, id := EnsureAll(b, rows[..n]), rows[n];
      EnsureAllFromEmpty(b, rows[..n]);
      DedupElements(rows[..n]);
      var before := Dedup(rows[..n]);
      assert Elements(rows) == Elements(rows[..n]) + {id} by { assert rows == rows[..n] + [id]; }
      assert id in before <==> id in Elements(before);
      var d := EnsureProvider(c, id);
      if id !in c.providers {
        assert Dedup(rows) == before + [id];
        forall i | 0 <= i < |before| ensures d.providers[before[i]] == c.providers[before[i]] {
          assert before[i] in c.providers;
        }
        assert ItemsInOrder(d.providers, Dedup(rows)) == ItemsInOrder(c.providers, before) + [c.nextItem];
      }
    }
  }

  /** When every id already has an item the pass changes nothing. */
  lemma {:induction false} EnsureAllPresent(b: Bar, rows: seq<string>)
    requires Elements(rows) <= b.providers.Keys
    ensures EnsureAll(b, rows) == b
  {
    if rows == [] {
    } else {
      var n := |rows| - 1;
      assert rows == rows[..n] + [rows[n]];
      assert rows[n] in Elements(rows) && Elements(rows[..n]) <= Elements(rows);
      EnsureAllPresent(b, rows[..n]);
    }
  }

  // ---------------------------------------------------------------- every run

  lemma ApplyEmptySyncs(b: Bar)
    requires Inv(b)
    ensures InSync(ApplyRows(b, []), [])
  {
    var c := RemoveKeys(b, b.providers.Keys);
    RemoveKeysWires(b, b.providers.Keys);
    assert c.providers == map[];
    EnsureFallbackWires(c);
    NoProvidersNoItems(EnsureFallback(c));
  }

  lemma ApplyRowsSyncs(b: Bar, rows: seq<string>)
    requires Inv(b) && rows != []
    ensures InSync(ApplyRows(b, rows), rows)
  {
    var c := RemoveFallback(b);
    RemoveFallbackWires(b);
    var d := Pruned(b, rows);
    if b.order == rows {
      SameOrderRemovesNothing(b, rows);
    } else {
      RemoveKeysWires(c, c.providers.Keys);
      assert d.providers == map[];
    }
    var start := d.(order := rows);
    assert Wired(start) by { assert forall x :: Owns(start, x) <==> Owns(d, x); }
    EnsureAllWires(start, rows);
    if start.providers == map[] {
      NoProvidersNoItems(start);
      EnsureAllFromEmpty(start, rows);
    } else {
      EnsureAllPresent(start, rows);
    }
  }

  /** Applying rows from any reachable bar brings it in sync with them. */
  lemma ApplySyncs(b: Bar, rows: seq<string>)
    requires Inv(b)
    ensures InSync(ApplyRows(b, rows), rows)
  {
    if rows == [] { ApplyEmptySyncs(b); } else { ApplyRowsSyncs(b, rows); }
  }

  lemma NothingToRemove(b: Bar, keys: set<string>)
    requires keys !! b.providers.Keys
    ensures RemoveKeys(b, keys) == b
  {
    assert ItemsOf(b.providers, keys) == {};
    FilterOutNothing(b.live);
    assert b.monitors - {} == b.monitors && b.providers - keys == b.providers;
  }

  /** Unchanged rows leave every item, monitor and anchor alone. */
  lemma ApplySameRowsIsNoOp(b: Bar, rows: seq<string>)
    requires InSync(b, rows)
    ensures ApplyRows(b, rows) == b
  {
    if rows == [] {
      assert b.providers.Keys == {};
      NothingToRemove(b, {});
    } else {
      SameOrderRemovesNothing(b, rows);
      EnsureAllPresent(b, rows);
    }
  }

  ghost function LastRows(events: seq<Event>): Option<seq<string>>
    decreases |events|
  {
    if events == [] then None
    else
      var e := events[|events| - 1];
      if e.Apply? then Some(e.rows) else LastRows(events[..|events| - 1])
  }

  ghost function Run(events: seq<Event>): Bar
    decreases |events|
  {
    if events == [] then EMPTY else Step(Run(events[..|events| - 1]), events[|events| - 1])
  }

  lemma ClickKeepsWiring(b: Bar, e: Event)
    requires !e.Apply?
    ensures var c := Step(b, e);
            c.providers == b.providers && c.fallback == b.fallback && c.order == b.order && c.live == b.live
            && c.monitors == b.monitors && c.nextItem == b.nextItem
    ensures Wired(b) ==> Wired(Step(b, e))
  {
  }

  /**
   Main result: after every sequence of row updates, clicks and dismissals the bar is wired up, the
   popover hangs on a live item, and the items are exactly those of the last rows, created in row order.
   */
  lemma {:induction false} BarAlwaysInSync(events: seq<Event>)
    ensures Inv(Run(events))
    ensures LastRows(events).Some? ==> InSync(Run(events), LastRows(events).value)
  {
    if events == [] {
      assert forall x :: !Owns(EMPTY, x);
    } else {
      var init, e := events[..|events| - 1], events[|events| - 1];
      BarAlwaysInSync(init);
      if e.Apply? {
        ApplySyncs(Run(init), e.rows);
      } else {
        ClickKeepsWiring(Run(init), e);
      }
    }
  }

  /** The click shows what was clicked: a provider's item focuses that provider, the fallback the overview. */
  lemma ClickFocusesItsRow(b: Bar, id: string)
    requires Wired(b) && id in b.providers && !(b.shown && b.anchor == Some(b.providers[id]))
    ensures var c := Step(b, Click(b.providers[id]));
            && c.shown && c.anchor == Some(b.providers[id])
            && c.popover == if id == "" then None else Some(id)
  {
  }

  lemma ClickFallbackShowsOverview(b: Bar, item: nat)
    requires Wired(b) && b.fallback == Some(item) && !(b.shown && b.anchor == Some(item))
    ensures Step(b, Click(item)).popover == None && Step(b, Click(item)).shown
  {
  }

  // ---------------------------------------------------------------- the controller

  /** Removing in two goes is removing at once, so the order of removals is immaterial. */
  lemma RemoveKeysTwice(b: Bar, a: set<string>, c: set<string>)
    ensures RemoveKeys(RemoveKeys(b, a), c) == RemoveKeys(b, a + c)
  {
    var ga, gc := ItemsOf(b.providers, a), ItemsOf(b.providers - a, c);
    FilterOutTwice(b.live, ga, gc);
    assert ga + gc == ItemsOf(b.providers, a + c);
    assert b.providers - a - c == b.providers - (a + c);
    assert b.monitors - ga - gc == b.monitors - (ga + gc);
  }

  class StatusBarController {
    var providers: map<string, nat>
    var fallback: Option<nat>
    var order: seq<string>
    var anchor: Option<nat>
    var shown: bool
    var monitors: set<nat>
    var popover: Option<string>
    var live: seq<nat>
    var nextItem: nat

    ghost function View(): Bar
      reads this
    {
      Bar(providers, fallback, order, anchor, shown, monitors, popover, live, nextItem)
    }

    constructor ()
      ensures View() == EMPTY
    {
      providers, fallback, order, anchor, shown := map[], None, [], None, false;
      monitors, popover, live, nextItem := {}, None, [], 0;
    }

    /** Drop the monitor, close a popover anchored here, hand the item back to the system. */
    method ReleaseItem(item: nat)
      modifies this`monitors, this`anchor, this`shown, this`live
      ensures View() == Discard(old(View()), {item})
    {
      monitors := monitors - {item};
      if anchor == Some(item) {
        shown := false;
        anchor := None;
      }
      live := FilterOut(live, {item});
    }

    method RemoveProviderItem(id: string)
      modifies this
      ensures View() == RemoveKeys(old(View()), {id})
    {
      if id !in providers {
        NothingToRemove(View(), {id});
        return;
      }
      var item := providers[id];
      assert ItemsOf(providers, {id}) == {item};
      providers := providers - {id};
      ReleaseItem(item);
    }

    /** The two removal loops: over all keys, or over those no longer in the rows. */
    method RemoveProviderItems(keys: set<string>)
      modifies this
      ensures View() == RemoveKeys(old(View()), keys)
    {
      var left := keys;
      NothingToRemove(View(), {});
      assert keys - left == {};
      while left != {}
        invariant left <= keys
        invariant View() == RemoveKeys(old(View()), keys - left)
      {
        var id :| id in left;
        RemoveKeysTwice(old(View()), keys - left, {id});
        assert (keys - left) + {id} == keys - (left - {id});
        RemoveProviderItem(id);
        left := left - {id};
      }
      assert keys - left == keys;
    }

    method RemoveFallbackItem()
      modifies this
      ensures View() == RemoveFallback(old(View()))
    {
      if fallback.None? { return; }
      ReleaseItem(fallback.value);
      fallback := None;
    }

    method MakeItem() returns (item: nat)
      modifies this`live, this`monitors, this`nextItem
      ensures item == old(nextItem) && View() == NewItem(old(View()))
    {
      item := nextItem;
      live := live + [item];
      nextItem := nextItem + 1;
      monitors := monitors + {item};
    }

    method EnsureFallbackItem()
      modifies this
      ensures View() == EnsureFallback(old(View()))
    {
      if fallback.Some? { return; }
      var item := MakeItem();
      fallback := Some(item);
    }

    method EnsureProviderItem(id: string)
      modifies this
      ensures View() == EnsureProvider(old(View()), id)
    {
      if id in providers { return; }
      var item := MakeItem();
      providers := providers[id := item];
    }

    method EnsureProviderItems(rows: seq<string>)
      modifies this
      ensures View() == EnsureAll(old(View()), rows)
    {
      for i := 0 to |rows|
        invariant View() == EnsureAll(old(View()), rows[..i])
      {
        assert rows[..i + 1][..i] == rows[..i];
        EnsureProviderItem(rows[i]);
      }
      assert rows[..|rows|] == rows;
    }

    /** `apply(rows:)`. */
    method ApplyRowIds(rows: seq<string>)
      requires Inv(View())
      modifies this
      ensures View() == Step(old(View()), Apply(rows)) && InSync(View(), rows)
    {
      ApplySyncs(View(), rows);
      if rows == [] {
        RemoveProviderItems(providers.Keys);
        EnsureFallbackItem();
        return;
      }
      RemoveFallbackItem();
      if order != rows {
        RemoveProviderItems(providers.Keys);
      } else {
        RemoveProviderItems(set id | id in providers && id !in rows);
      }
      order := rows;
      EnsureProviderItems(rows);
    }

    /** `clickTarget`: search the provider items for the clicked button. */
    method ClickTarget(item: nat) returns (surface: Option<string>)
      requires Wired(View())
      ensures Owns(View(), item) <==> surface.Some?
      ensures surface.Some? ==> surface.value in providers && providers[surface.value] == item
    {
      var left := providers.Keys;
      while left != {}
        invariant left <= providers.Keys
        invariant forall id :: id in providers && id !in left ==> providers[id] != item
      {
        var id :| id in left;
        if providers[id] == item { return Some(id); }
        left := left - {id};
      }
      return None;
    }

    /** `togglePopover`, from a click on a live item. */
    method TogglePopover(item: nat)
      requires Wired(View()) && item in live
      modifies this`shown, this`anchor, this`popover
      ensures View() == Step(old(View()), Click(item)) && Wired(View())
    {
      ClickKeepsWiring(View(), Click(item));
      if shown && anchor == Some(item) {
        shown := false;
        anchor := None;
        return;
      }
      var surface := ClickTarget(item);
      popover := if surface.Some? && surface.value != "" then surface else None;
      anchor := Some(item);
      shown := true;
    }

    /** `invalidate`: nothing is left on the system bar, no monitor, no anchor. */
    method Invalidate()
      requires Inv(View())
      modifies this
      ensures live == [] && monitors == {} && anchor == None && !shown
      ensures providers == map[] && fallback == None
      ensures order == old(order) && popover == old(popover) && nextItem == old(nextItem)
    {
      shown := false;
      anchor := None;
      assert Wired(View()) by { assert forall x :: Owns(View(), x) <==> Owns(old(View()), x); }
      RemoveKeysWires(View(), providers.Keys);
      RemoveProviderItems(providers.Keys);
      assert providers == map[];
      RemoveFallbackWires(View());
      RemoveFallbackItem();
      NoProvidersNoItems(View());
      assert monitors == {};
    }
  }
}
