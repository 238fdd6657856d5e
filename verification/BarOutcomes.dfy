/** What a run of the status bar shows the user: when the popover closes, and in which order items stand. */
module BarOutcomes {
  import opened Sequences
  import opened StatusBar

  // ---------------------------------------------------------------- clicks

  /** A click on the item the open popover hangs on closes it, and touches nothing else. */
  lemma ClickAnchoredCloses(b: Bar, item: nat)
    requires Wired(b) && b.shown && b.anchor == Some(item)
    ensures var c := Step(b, Click(item));
            !c.shown && c.anchor == None && c == b.(shown := c.shown, anchor := c.anchor)
  {
  }

  /** A click anywhere else opens it there, even while it is open on another item. */
  lemma ClickElsewhereMoves(b: Bar, item: nat)
    requires Wired(b) && item in b.live && !(b.shown && b.anchor == Some(item))
    ensures var c := Step(b, Click(item));
            c.shown && c.anchor == Some(item) && c == b.(shown := true, anchor := c.anchor, popover := c.popover)
  {
  }

  /** Clicking one item twice leaves the popover closed or open, whichever it was not after the first click. */
  lemma SecondClickReverses(b: Bar, item: nat)
    requires Wired(b) && item in b.live
    ensures var once := Step(b, Click(item));
            var twice := Step(once, Click(item));
            twice.shown <==> !once.shown
  {
    ClickKeepsWiring(b, Click(item));
  }

  // ---------------------------------------------------------------- row updates and the open popover

  ghost predicate SamePopover(b: Bar, c: Bar) {
    c.anchor == b.anchor && c.shown == b.shown && c.popover == b.popover
  }

  lemma {:induction false} EnsureAllKeepsPopover(b: Bar, rows: seq<string>)
    ensures SamePopover(b, EnsureAll(b, rows))
  {
    if rows == [] {
    } else {
      EnsureAllKeepsPopover(b, rows[..|rows| - 1]);
    }
  }

  ghost predicate OnProvider(b: Bar) {
    b.anchor.Some? && Owns(b, b.anchor.value)
  }

  ghost predicate OnFallback(b: Bar) {
    b.anchor.Some? && b.fallback == b.anchor
  }

  lemma AllItemsOwned(b: Bar, x: nat)
    ensures x in ItemsOf(b.providers, b.providers.Keys) <==> Owns(b, x)
  {
  }

  /** Removing every provider closes a popover that hangs on one of them. */
  lemma RemoveAllCloses(b: Bar)
    requires Wired(b)
    ensures var c := RemoveKeys(b, b.providers.Keys);
            && (c.shown <==> b.shown && OnFallback(b)) && c.popover == b.popover
            && c.anchor == if OnFallback(b) then b.anchor else None
  {
    if b.anchor.Some? { AllItemsOwned(b, b.anchor.value); }
  }

  lemma RemoveFallbackCloses(b: Bar)
    requires Wired(b)
    ensures var c := RemoveFallback(b);
            && (c.shown <==> b.shown && OnProvider(b)) && c.popover == b.popover
            && c.anchor == if OnProvider(b) then b.anchor else None
  {
  }

  /**
   Main result: an update leaves an open popover open exactly when the item it hangs on stays: the
   fallback while there are no rows, a provider's item while the rows are unchanged.
   */
  lemma PopoverSurvivesIff(b: Bar, rows: seq<string>)
    requires Inv(b)
    ensures var c := Step(b, Apply(rows));
            var stays := if rows == [] then OnFallback(b) else OnProvider(b) && b.order == rows;
            && (c.shown <==> b.shown && stays) && c.popover == b.popover
            && c.anchor == if stays then b.anchor else None
  {
    if rows == [] {
      RemoveAllCloses(b);
    } else {
      var c, d := RemoveFallback(b), Pruned(b, rows);
      RemoveFallbackWires(b);
      RemoveFallbackCloses(b);
      if b.order == rows {
        SameOrderRemovesNothing(b, rows);
      } else {
        RemoveAllCloses(c);
      }
      EnsureAllKeepsPopover(d.(order := rows), rows);
    }
  }

  /** The usage window takes over and drops the anchor; the system hides the popover and a click brings it back. */
  lemma OtherClosings(b: Bar, item: nat)
    requires Wired(b) && item in b.live
    ensures var c := Step(b, OpenedUsage); !c.shown && c.anchor == None && c.popover == b.popover
    ensures var c := Step(b, Dismissed); !c.shown && c.anchor == b.anchor && c.popover == b.popover
    ensures var c := Step(Step(b, Dismissed), Click(item)); c.shown && c.anchor == Some(item)
  {
  }

  // ---------------------------------------------------------------- order on the bar

  ghost predicate FirstAt(rows: seq<string>, i: nat) {
    i < |rows| && forall k :: 0 <= k < i ==> rows[k] != rows[i]
  }

  /** Ids come in the order of their first occurrence. */
  lemma {:induction false} DedupKeepsOrder(rows: seq<string>, i: nat, j: nat) returns (a: nat, b: nat)
    requires FirstAt(rows, i) && FirstAt(rows, j) && i < j
    ensures a < b < |Dedup(rows)| && Dedup(rows)[a] == rows[i] && Dedup(rows)[b] == rows[j]
  {
    var n := |rows| - 1;
    var init, last := rows[..n], rows[n];
    DedupElements(init);
    if j < n {
      assert FirstAt(init, i) && FirstAt(init, j);
      a, b := DedupKeepsOrder(init, i, j);
    } else {
      assert last !in init;
      assert last in Dedup(init) <==> last in Elements(Dedup(init));
      b := |Dedup(init)|;
      assert init[i] in Elements(Dedup(init));
      a :| 0 <= a < |Dedup(init)| && Dedup(init)[a] == init[i];
    }
  }

  /** Main result: after any run the items of the last rows stand in the order in which the rows first name them. */
  lemma ItemsFollowRows(events: seq<Event>, i: nat, j: nat)
    requires LastRows(events).Some?
    requires FirstAt(LastRows(events).value, i) && FirstAt(LastRows(events).value, j) && i < j
    ensures var b, rows := Run(events), LastRows(events).value;
            rows[i] in b.providers && rows[j] in b.providers && b.providers[rows[i]] < b.providers[rows[j]]
  {
    var bar, rows := Run(events), LastRows(events).value;
    BarAlwaysInSync(events);
    var a, b := DedupKeepsOrder(rows, i, j);
    assert bar.live[a] < bar.live[b];
  }
}
