/**
 What the store's fields are after a run, said in terms of the events and of the projections they carry:
 which selections survive an answer, which rows the bar shows, which text the error field holds.
 */
module StoreOutcomes {
  import opened Sequences
  import opened PresentationStore

  // ---------------------------------------------------------------- what a projection offers

  ghost predicate Listed(p: Projection, id: string) {
    exists i :: 0 <= i < |p.glances| && p.glances[i].surfaceId == id
  }

  /** The surface has a glance and is enabled. */
  ghost predicate Offered(p: Projection, id: string) {
    Listed(p, id) && exists i :: 0 <= i < |p.surfaces| && p.surfaces[i].id == id && p.surfaces[i].enabled
  }

  ghost predicate AccountListed(p: Projection, id: string, key: string) {
    exists g, i :: 0 <= g < |p.groups| && 0 <= i < |p.groups[g].accounts|
                   && p.groups[g].accounts[i].surfaceId == id && p.groups[g].accounts[i].key == key
  }

  /** The first group of the surface says that its selected account is unavailable. */
  ghost predicate FirstGroupUnavailable(p: Projection, id: string) {
    exists g :: 0 <= g < |p.groups| && p.groups[g].surfaceId == id
                && (forall h :: 0 <= h < g ==> p.groups[h].surfaceId != id)
                && p.groups[g].route.Some? && p.groups[g].route.value.Unavailable?
  }

  lemma NavigableIff(p: Projection, id: string)
    ensures Navigable(p.glances, p.surfaces, id) <==> Offered(p, id)
  {
    if Surface(id, true) in p.surfaces {
      var i :| 0 <= i < |p.surfaces| && p.surfaces[i] == Surface(id, true);
      assert p.surfaces[i].id == id;
    }
    if i :| 0 <= i < |p.surfaces| && p.surfaces[i].id == id && p.surfaces[i].enabled {
      assert p.surfaces[i] == Surface(id, true);
    }
  }

  lemma {:induction false} InGroups(groups: seq<Group>, a: Account)
    ensures a in AccountsOf(groups) <==> exists g :: 0 <= g < |groups| && a in groups[g].accounts
  {
    if groups == [] {
    } else {
      var rest := groups[1..];
      InGroups(rest, a);
      if g :| 0 <= g < |rest| && a in rest[g].accounts { assert groups[g + 1] == rest[g]; }
      if g :| 0 <= g < |groups| && a in groups[g].accounts {
        if g > 0 { assert rest[g - 1] == groups[g]; }
      }
    }
  }

  lemma AccountIff(p: Projection, id: string, key: string)
    ensures Account(id, key) in AccountsOf(p.groups) <==> AccountListed(p, id, key)
  {
    var a := Account(id, key);
    InGroups(p.groups, a);
    if a in AccountsOf(p.groups) {
      var g :| 0 <= g < |p.groups| && a in p.groups[g].accounts;
      var i :| 0 <= i < |p.groups[g].accounts| && p.groups[g].accounts[i] == a;
      assert p.groups[g].accounts[i].surfaceId == id;
    }
    if g, i :| 0 <= g < |p.groups| && 0 <= i < |p.groups[g].accounts|
               && p.groups[g].accounts[i].surfaceId == id && p.groups[g].accounts[i].key == key {
      assert p.groups[g].accounts[i] == a;
    }
  }

  ghost predicate FirstOf(groups: seq<Group>, id: string, g: nat) {
    g < |groups| && groups[g].surfaceId == id && forall h :: 0 <= h < g ==> groups[h].surfaceId != id
  }

  lemma {:induction false} FirstRouteOf(groups: seq<Group>, id: string, g: nat)
    requires FirstOf(groups, id, g)
    ensures FirstRoute(groups, id) == groups[g].route
  {
    if g == 0 {
    } else {
      var rest := groups[1..];
      assert FirstOf(rest, id, g - 1) by {
        forall h | 0 <= h < g - 1 ensures rest[h].surfaceId != id { assert groups[h + 1] == rest[h]; }
      }
      FirstRouteOf(rest, id, g - 1);
    }
  }

  lemma {:induction false} RouteHasFirst(groups: seq<Group>, id: string) returns (g: nat)
    requires FirstRoute(groups, id).Some?
    ensures FirstOf(groups, id, g)
  {
    if groups[0].surfaceId == id {
      g := 0;
    } else {
      var rest := groups[1..];
      var f := RouteHasFirst(rest, id);
      g := f + 1;
      forall h | 0 <= h < g ensures groups[h].surfaceId != id { if h > 0 { assert rest[h - 1] == groups[h]; } }
    }
  }

  lemma UnavailableIff(p: Projection, id: string)
    ensures FirstGroupUnavailable(p, id) <==>
            FirstRoute(p.groups, id).Some? && FirstRoute(p.groups, id).value.Unavailable?
  {
    if FirstRoute(p.groups, id).Some? {
      var g := RouteHasFirst(p.groups, id);
      FirstRouteOf(p.groups, id, g);
    }
    if FirstGroupUnavailable(p, id) {
      var g :| 0 <= g < |p.groups| && p.groups[g].surfaceId == id
               && (forall h :: 0 <= h < g ==> p.groups[h].surfaceId != id)
               && p.groups[g].route.Some? && p.groups[g].route.value.Unavailable?;
      FirstRouteOf(p.groups, id, g);
    }
  }

  // ---------------------------------------------------------------- which answers are accepted

  /** An answer is accepted exactly when no accepted one is newer, in number or in generation. */
  lemma AcceptedIffNoneNewer(events: seq<Event>, request: nat, p: Projection)
    ensures NoOlder(AcceptedLog(events), Deliver(request, p)) <==>
            forall d :: d in AcceptedLog(events) && d.Deliver? ==>
              d.request <= request && d.projection.generation <= p.generation
  {
    var log := AcceptedLog(events);
    LogComesFromRun(events);
    if log != [] {
      var last := log[|log| - 1];
      assert last in log;
      if NoOlder(log, Deliver(request, p)) {
        forall d | d in log && d.Deliver? ensures d.request <= request && d.projection.generation <= p.generation {
          var i :| 0 <= i < |log| && log[i] == d;
          AcceptedNeverGoesBack(events, i, |log| - 1);
        }
      }
    }
  }

  // ---------------------------------------------------------------- selections across an answer

  /** What an accepted answer leaves of the selected surface and account. */
  ghost predicate UsageSettled(p: Projection, before: State, after: State) {
    if before.usage.None? then after.usage.None? && after.usageAccount.None?
    else
      var id, account := before.usage.value, before.usageAccount;
      if !Offered(p, id) then after.usage.None? && after.usageAccount.None?
      else if account.None? || AccountListed(p, id, account.value) then
        after.usage == before.usage && after.usageAccount == before.usageAccount
      else if FirstGroupUnavailable(p, id) then after.usage == before.usage && after.usageAccount.None?
      else after.usage.None? && after.usageAccount.None?
  }

  /** A listed provider keeps the popover; otherwise the first glance takes over, if there is one. */
  ghost predicate PopoverSettled(p: Projection, before: State, after: State) {
    if before.popover.None? || Listed(p, before.popover.value) then after.popover == before.popover
    else if |p.glances| > 0 then after.popover == Some(p.glances[0].surfaceId)
    else after.popover.None?
  }

  lemma ReconciledUsage(p: Projection, s: State)
    requires s.screen == ScreenOf(p) && (s.usageAccount.Some? ==> s.usage.Some?)
    ensures UsageSettled(p, s, Reconciled(s)) && PopoverSettled(p, s, Reconciled(s))
  {
    if s.usage.Some? {
      NavigableIff(p, s.usage.value);
      UnavailableIff(p, s.usage.value);
      if s.usageAccount.Some? { AccountIff(p, s.usage.value, s.usageAccount.value); }
    }
  }

  /** The fields an answer does not touch. */
  ghost predicate SameSettings(s: State, t: State) {
    && t.nextRequest == s.nextRequest && t.mode == s.mode && t.pinned == s.pinned && t.stripMax == s.stripMax
    && t.isOpen == s.isOpen && t.isOpening == s.isOpening
  }

  lemma AppliedOutcome(s: State, request: nat, p: Projection)
    requires SelectionsValid(s)
    ensures var t := Applied(s, request, p);
            UsageSettled(p, s, t) && PopoverSettled(p, s, t) && SameSettings(s, t) && t.error == p.error
  {
    var loaded := Refreshed(Loaded(s, request, p));
    ReconciledUsage(p, loaded);
    ReconcileTouchesSelections(loaded);
  }

  /**
   Main result: after any run, an answer that is accepted keeps the selected surface and account exactly
   when the projection it carries still offers them, and settles the popover on a provider it lists.
   */
  lemma AnswerSettlesSelections(mode: DisplayMode, pinned: string, strip: int,
                                events: seq<Event>, request: nat, p: Projection)
    requires NoOlder(AcceptedLog(events), Deliver(request, p))
    ensures var s0 := Initial(mode, pinned, strip);
            var s, t := Run(s0, events), Run(s0, events + [Deliver(request, p)]);
            && UsageSettled(p, s, t) && PopoverSettled(p, s, t) && SameSettings(s, t)
            && t.error == p.error && t.lastRequest == request && t.lastGeneration == p.generation
  {
    var s0 := Initial(mode, pinned, strip);
    var s := Run(s0, events);
    SelectionsAlwaysValid(mode, pinned, strip, events);
    StoreShowsLastAccepted(mode, pinned, strip, events);
    LogComesFromRun(events);
    var log := AcceptedLog(events);
    assert log != [] ==> log[|log| - 1] in log;
    AcceptedWhenNoOlder(s, log, Deliver(request, p));
    RunSnoc(s0, events, Deliver(request, p));
    AppliedOutcome(s, request, p);
    AppliedShows(s, request, p);
  }

  /** The same, as the answer to when nothing moves. */
  lemma SelectionKeptIff(p: Projection, before: State, after: State)
    requires UsageSettled(p, before, after) && (before.usageAccount.Some? ==> before.usage.Some?)
    ensures after.usage == before.usage && after.usageAccount == before.usageAccount <==>
            before.usage.None? ||
            (Offered(p, before.usage.value) &&
             (before.usageAccount.None? || AccountListed(p, before.usage.value, before.usageAccount.value)))
  {
  }

  ghost predicate Provides(p: Projection, id: string) {
    exists g :: 0 <= g < |p.groups| && p.groups[g].surfaceId == id
  }

  /** After an accepted answer a provider is expanded when it is new or was expanded, and gone when it is gone. */
  lemma ExpandedIff(mode: DisplayMode, pinned: string, strip: int,
                    events: seq<Event>, request: nat, p: Projection, id: string)
    requires NoOlder(AcceptedLog(events), Deliver(request, p))
    ensures var s0, shown := Initial(mode, pinned, strip), LastShown(AcceptedLog(events));
            id in Run(s0, events + [Deliver(request, p)]).expanded <==>
            Provides(p, id) && (Provides(shown, id) ==> id in Run(s0, events).expanded)
  {
    var s0 := Initial(mode, pinned, strip);
    StoreShowsLastAccepted(mode, pinned, strip, events);
    LogComesFromRun(events);
    var log := AcceptedLog(events);
    assert log != [] ==> log[|log| - 1] in log;
    AcceptedWhenNoOlder(Run(s0, events), log, Deliver(request, p));
    RunSnoc(s0, events, Deliver(request, p));
    ExpansionFollowsProviders(mode, pinned, strip, events, request, p, id);
  }

  // ---------------------------------------------------------------- the rows on the bar

  /** The first `n` of these, or all of them. */
  ghost predicate FirstOnes(all: seq<Glance>, n: nat, rows: seq<Glance>) {
    && |rows| == (if n < |all| then n else |all|)
    && forall i :: 0 <= i < |rows| ==> rows[i] == all[i]
  }

  ghost predicate Rising(positions: seq<nat>) {
    forall k, l :: 0 <= k < l < |positions| ==> positions[k] < positions[l]
  }

  ghost predicate StandAt(all: seq<Glance>, rows: seq<Glance>, positions: seq<nat>) {
    && |positions| == |rows|
    && forall k :: 0 <= k < |positions| ==> positions[k] < |all| && rows[k] == all[positions[k]]
  }

  ghost predicate HoldsId(all: seq<Glance>, id: string, i: nat) {
    i < |all| && all[i].surfaceId == id
  }

  /** The rows stand at these positions, in order, and these are the positions that have the id. */
  ghost predicate PickedAt(all: seq<Glance>, id: string, rows: seq<Glance>, positions: seq<nat>) {
    && Rising(positions) && StandAt(all, rows, positions)
    && forall i: nat :: i in positions <==> HoldsId(all, id, i)
  }

  ghost predicate Picked(all: seq<Glance>, id: string, rows: seq<Glance>) {
    exists positions :: PickedAt(all, id, rows, positions)
  }

  function Shifted(positions: seq<nat>): (r: seq<nat>)
    ensures |r| == |positions|
  {
    seq(|positions|, k requires 0 <= k < |positions| => positions[k] + 1)
  }

  lemma ShiftedHas(positions: seq<nat>, i: nat)
    ensures i in Shifted(positions) <==> i > 0 && i - 1 in positions
  {
    var s := Shifted(positions);
    if i > 0 && i - 1 in positions {
      var k :| 0 <= k < |positions| && positions[k] == i - 1;
      assert s[k] == i;
    }
    if i in s {
      var k :| 0 <= k < |s| && s[k] == i;
      assert positions[k] == i - 1;
    }
  }

  /** One more glance in front, which is not picked ... */
  lemma PickedShift(all: seq<Glance>, id: string, rows: seq<Glance>, positions: seq<nat>)
    requires all != [] && PickedAt(all[1..], id, rows, positions)
    ensures Rising(Shifted(positions)) && StandAt(all, rows, Shifted(positions))
    ensures forall i: nat :: i in Shifted(positions) <==> i > 0 && HoldsId(all, id, i)
  {
    var rest, s := all[1..], Shifted(positions);
    forall k | 0 <= k < |positions| ensures s[k] < |all| && rows[k] == all[s[k]] {
      assert rest[positions[k]] == all[positions[k] + 1];
    }
    forall i: nat ensures i in s <==> i > 0 && HoldsId(all, id, i) {
      ShiftedHas(positions, i);
      if 0 < i < |all| {
        assert rest[i - 1] == all[i];
        assert i - 1 in positions <==> HoldsId(rest, id, i - 1);
      }
    }
  }

  /** ... or is. */
  lemma PickedCons(all: seq<Glance>, id: string, rows: seq<Glance>, later: seq<nat>)
    requires HoldsId(all, id, 0) && Rising(later) && StandAt(all, rows, later)
    requires forall i: nat :: i in later <==> i > 0 && HoldsId(all, id, i)
    ensures PickedAt(all, id, [all[0]] + rows, [0] + later)
  {
    var positions := [0] + later;
    forall k, l | 0 <= k < l < |positions| ensures positions[k] < positions[l] {
      if k == 0 { assert positions[l] in later; } else { assert later[k - 1] < later[l - 1]; }
    }
    forall i: nat ensures i in positions <==> HoldsId(all, id, i) {
      assert i in positions <==> i == 0 || i in later;
    }
  }

  lemma {:induction false} FilterPicks(all: seq<Glance>, id: string) returns (positions: seq<nat>)
    ensures PickedAt(all, id, Filter(all, id), positions)
  {
    if all == [] {
      positions := [];
    } else {
      var rest := Filter(all[1..], id);
      var later := FilterPicks(all[1..], id);
      PickedShift(all, id, rest, later);
      positions := Shifted(later);
      if all[0].surfaceId == id {
        PickedCons(all, id, rest, positions);
        positions := [0] + positions;
      } else {
        assert Filter(all, id) == rest;
      }
    }
  }

  /** What each display mode puts on the bar. */
  ghost predicate RowsFollow(mode: DisplayMode, pinned: string, strip: nat, p: Projection, rows: seq<Glance>) {
    match mode
    case IconOnly => rows == []
    case FocusPercent => FirstOnes(p.statusGlances, 1, rows)
    case PinnedSurface => Picked(p.glances, pinned, rows)
    case Strip => FirstOnes(p.statusGlances, strip, rows)
  }

  lemma VisibleRowsFollow(mode: DisplayMode, pinned: string, strip: nat, p: Projection)
    ensures RowsFollow(mode, pinned, strip, p, VisibleRows(mode, pinned, strip, p.glances, p.statusGlances))
  {
    if mode == PinnedSurface {
      var positions := FilterPicks(p.glances, pinned);
    }
  }

  /** Main result: after any run the bar's rows are those of the mode, out of the last accepted projection. */
  lemma BarRowsFollowShown(mode: DisplayMode, pinned: string, strip: int, events: seq<Event>)
    ensures var s := Run(Initial(mode, pinned, strip), events);
            RowsFollow(s.mode, s.pinned, CutSize(strip, events), LastShown(AcceptedLog(events)), s.statusRows)
  {
    var s := Run(Initial(mode, pinned, strip), events);
    StatusRowsFromShown(mode, pinned, strip, events);
    StoreShowsLastAccepted(mode, pinned, strip, events);
    VisibleRowsFollow(s.mode, s.pinned, CutSize(strip, events), LastShown(AcceptedLog(events)));
  }

  // ---------------------------------------------------------------- the user's choices

  /** A choice is taken exactly when the projection on screen offers the surface; otherwise nothing is selected. */
  lemma ChoiceTakenIffOffered(mode: DisplayMode, pinned: string, strip: int, events: seq<Event>,
                              surface: Option<string>, account: Option<string>)
    ensures var s0, p := Initial(mode, pinned, strip), LastShown(AcceptedLog(events));
            var t := Run(s0, events + [Select(surface, account)]);
            if surface.Some? && Offered(p, surface.value) then t.usage == surface && t.usageAccount == account
            else t.usage.None? && t.usageAccount.None?
  {
    var p := LastShown(AcceptedLog(events));
    StoreShowsLastAccepted(mode, pinned, strip, events);
    RunSnoc(Initial(mode, pinned, strip), events, Select(surface, account));
    if surface.Some? { NavigableIff(p, surface.value); }
  }

  /** A recorded account reaches the selection only while its surface is still the selected one. */
  lemma LateAccountIgnored(mode: DisplayMode, pinned: string, strip: int, events: seq<Event>, id: string, key: string)
    ensures var s0 := Initial(mode, pinned, strip);
            var s, t := Run(s0, events), Run(s0, events + [RecordAccount(id, key)]);
            t.usage == s.usage && t.usageAccount == if s.usage == Some(id) then Some(key) else s.usageAccount
  {
    RunSnoc(Initial(mode, pinned, strip), events, RecordAccount(id, key));
  }

  /** Events that leave the selected surface and account alone. */
  predicate LeavesUsage(e: Event) {
    !e.Deliver? && !e.Select? && !e.RecordAccount?
  }

  lemma OnlyChoicesMoveSelection(mode: DisplayMode, pinned: string, strip: int, events: seq<Event>, e: Event)
    requires LeavesUsage(e)
    ensures var s0 := Initial(mode, pinned, strip);
            var s, t := Run(s0, events), Run(s0, events + [e]);
            && t.usage == s.usage && t.usageAccount == s.usageAccount
            && t.popover == (if e.SetPopover? then e.selection else s.popover)
            && t.expanded == (if e.SetExpanded? then e.ids else s.expanded)
            && t.mode == (if e.SetMode? then e.mode else s.mode)
            && t.pinned == (if e.SetPinned? then e.surfaceId else s.pinned)
  {
    RunSnoc(Initial(mode, pinned, strip), events, e);
  }

  // ---------------------------------------------------------------- the error text

  /** What the last event of a run does to the error text. */
  ghost function ErrorAfter(events: seq<Event>, e: Event, before: Option<string>): Option<string> {
    match e
    case Deliver(request, p) => if NoOlder(AcceptedLog(events), e) then p.error else before
    case Failure(request) =>
      if LastNumber(AcceptedLog(events)) <= request then Some("Usage could not be updated. Try again.") else before
    case Report(message) => Some(message)
    case ReportIfClear(message) => if before.Some? then before else Some(message)
    case Opened => None
    case OpenFailed => Some("Usage could not start. Try again.")
    case _ => before
  }

  lemma ErrorFollowsEvents(mode: DisplayMode, pinned: string, strip: int, events: seq<Event>, e: Event)
    ensures var s0 := Initial(mode, pinned, strip);
            Run(s0, events + [e]).error == ErrorAfter(events, e, Run(s0, events).error)
  {
    var s0 := Initial(mode, pinned, strip);
    var s, log := Run(s0, events), AcceptedLog(events);
    RunSnoc(s0, events, e);
    StoreShowsLastAccepted(mode, pinned, strip, events);
    LogComesFromRun(events);
    assert log != [] ==> log[|log| - 1] in log;
    if e.Deliver? {
      AcceptedWhenNoOlder(s, log, e);
      AppliedShows(s, e.request, e.projection);
    }
  }

  /** A failure stays on display until a newer answer without an error, or a successful opening. */
  lemma ErrorClearedOnlyBy(mode: DisplayMode, pinned: string, strip: int, events: seq<Event>, e: Event)
    requires Run(Initial(mode, pinned, strip), events).error.Some?
    requires Run(Initial(mode, pinned, strip), events + [e]).error.None?
    ensures e.Opened? || (e.Deliver? && NoOlder(AcceptedLog(events), e) && e.projection.error.None?)
  {
    ErrorFollowsEvents(mode, pinned, strip, events, e);
  }

  // ---------------------------------------------------------------- opening

  lemma StepOpens(s: State, e: Event)
    ensures var t := Step(s, e);
            && (t.isOpen <==> e.Opened? || (s.isOpen && !e.OpenFailed? && !e.Shutdown?))
            && (t.isOpening <==> (e.Open? && !s.isOpen) ||
                                 (s.isOpening && !e.Opened? && !e.OpenFailed? && !e.Shutdown?))
  {
    if e.Deliver? { ReconcileTouchesSelections(Refreshed(Loaded(s, e.request, e.projection))); }
  }

  /** The store is never open and opening at once, whatever order the answers of the runtime come in. */
  lemma {:induction false} NeverOpenAndOpening(mode: DisplayMode, pinned: string, strip: int, events: seq<Event>)
    ensures var s := Run(Initial(mode, pinned, strip), events); !(s.isOpen && s.isOpening)
  {
    if events == [] {
    } else {
      var init, e := events[..|events| - 1], events[|events| - 1];
      var s := Run(Initial(mode, pinned, strip), init);
      NeverOpenAndOpening(mode, pinned, strip, init);
      StepOpens(s, e);
    }
  }

  /** Open exactly when the last event that concerns it was a successful opening. */
  ghost predicate OpenedLast(events: seq<Event>)
    decreases |events|
  {
    events != [] &&
    (var e := events[|events| - 1];
     e.Opened? || (!e.OpenFailed? && !e.Shutdown? && OpenedLast(events[..|events| - 1])))
  }

  lemma {:induction false} OpenIffOpenedLast(mode: DisplayMode, pinned: string, strip: int, events: seq<Event>)
    ensures Run(Initial(mode, pinned, strip), events).isOpen <==> OpenedLast(events)
  {
    if events == [] {
    } else {
      var init, e := events[..|events| - 1], events[|events| - 1];
      var s := Run(Initial(mode, pinned, strip), init);
      OpenIffOpenedLast(mode, pinned, strip, init);
      StepOpens(s, e);
    }
  }

  /** Opening exactly when an `Open` found the store closed and no answer of the runtime came since. */
  ghost predicate OpeningPending(events: seq<Event>)
    decreases |events|
  {
    events != [] &&
    (var init, e := events[..|events| - 1], events[|events| - 1];
     (e.Open? && !OpenedLast(init)) || (!e.Opened? && !e.OpenFailed? && !e.Shutdown? && OpeningPending(init)))
  }

  lemma {:induction false} OpeningIffPending(mode: DisplayMode, pinned: string, strip: int, events: seq<Event>)
    ensures Run(Initial(mode, pinned, strip), events).isOpening <==> OpeningPending(events)
  {
    if events == [] {
    } else {
      var init, e := events[..|events| - 1], events[|events| - 1];
      var s := Run(Initial(mode, pinned, strip), init);
      OpeningIffPending(mode, pinned, strip, init);
      OpenIffOpenedLast(mode, pinned, strip, init);
      StepOpens(s, e);
    }
  }
}
