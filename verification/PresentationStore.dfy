/**
 The desktop store's projection protocol in live mode. Requests are numbered when issued and answered
 in any order, possibly with a failure; the user changes selections in between.
 */
module PresentationStore {
  import opened Sequences

  const UINT64 := 0x1_0000_0000_0000_0000
  const MAX_CHIPS := 3
  const UPDATE_FAILED := "Usage could not be updated. Try again."
  const START_FAILED := "Usage could not start. Try again."

  datatype DisplayMode = IconOnly | FocusPercent | PinnedSurface | Strip

  datatype Route =
    | Unselected | Resolving(key: string) | Available(key: string) | Unavailable(key: string, notice: string)

  datatype Surface = Surface(id: string, enabled: bool)
  datatype Account = Account(surfaceId: string, key: string)
  datatype Group = Group(surfaceId: string, accounts: seq<Account>, route: Option<Route>)
  /** `content` stands for the display fields, which are copied unchanged. */
  datatype Glance = Glance(surfaceId: string, content: string)

  datatype Projection = Projection(
    generation: nat, surfaces: seq<Surface>, groups: seq<Group>,
    glances: seq<Glance>, statusGlances: seq<Glance>, error: Option<string>)

  /** The fields that hold the projection on screen. */
  datatype Screen = Screen(
    surfaces: seq<Surface>, groups: seq<Group>, accounts: seq<Account>,
    glances: seq<Glance>, projectedStatus: seq<Glance>, known: set<string>)

  /** The fields of the store this protocol reads or writes. */
  datatype State = State(
    nextRequest: nat, lastRequest: nat, lastGeneration: nat,
    screen: Screen, statusRows: seq<Glance>,
    usage: Option<string>, usageAccount: Option<string>, popover: Option<string>,
    error: Option<string>, expanded: set<string>,
    mode: DisplayMode, pinned: string, stripMax: nat, isOpen: bool, isOpening: bool)

  /** One uninterrupted turn of the main actor. */
  datatype Event =
    | Issue
    | Deliver(request: nat, projection: Projection)
    | Failure(request: nat)
    | Select(surface: Option<string>, account: Option<string>)
    | RecordAccount(surfaceId: string, key: string)
    | SetPopover(selection: Option<string>)
    | SetExpanded(ids: set<string>)
    | SetMode(mode: DisplayMode)
    | SetPinned(surfaceId: string)
    | SetStripMax(count: int)
    | Report(message: string)
    | ReportIfClear(message: string)
    | Open
    | Opened
    | OpenFailed
    | Shutdown

  // ---------------------------------------------------------------- pure parts

  predicate HasGlance(glances: seq<Glance>, id: string) {
    exists i :: 0 <= i < |glances| && glances[i].surfaceId == id
  }

  predicate Navigable(glances: seq<Glance>, surfaces: seq<Surface>, id: string) {
    HasGlance(glances, id) && Surface(id, true) in surfaces
  }

  function Filter(glances: seq<Glance>, id: string): seq<Glance> {
    if glances == [] then []
    else (if glances[0].surfaceId == id then [glances[0]] else []) + Filter(glances[1..], id)
  }

  function Prefix(glances: seq<Glance>, n: nat): seq<Glance> {
    if n < |glances| then glances[..n] else glances
  }

  function VisibleRows(mode: DisplayMode, pinned: string, stripMax: nat,
                       glances: seq<Glance>, projected: seq<Glance>): seq<Glance>
  {
    match mode
    case IconOnly => []
    case FocusPercent => Prefix(projected, 1)
    case PinnedSurface => Filter(glances, pinned)
    case Strip => Prefix(projected, stripMax)
  }

  function FirstRoute(groups: seq<Group>, id: string): Option<Route> {
    if groups == [] then None
    else if groups[0].surfaceId == id then groups[0].route
    else FirstRoute(groups[1..], id)
  }

  function AccountsOf(groups: seq<Group>): seq<Account> {
    if groups == [] then [] else groups[0].accounts + AccountsOf(groups[1..])
  }

  function GroupIds(groups: seq<Group>): set<string> {
    set i | 0 <= i < |groups| :: groups[i].surfaceId
  }

  /** Providers already known keep the user's choice; new ones start expanded; others are forgotten. */
  function Expanded(before: set<string>, known: set<string>, ids: set<string>): (after: set<string>)
    ensures forall id :: id in after <==> id in ids && (id in known ==> id in before)
  {
    (before + (ids - known)) * ids
  }

  function ClampStrip(n: int): (r: nat)
    ensures 1 <= r <= MAX_CHIPS && (1 <= n <= MAX_CHIPS ==> r == n)
    ensures (n < 1 ==> r == 1) && (n > 3 ==> r == 3)
  {
    if n < 1 then 1 else if n > MAX_CHIPS then MAX_CHIPS else n
  }

  predicate Accepts(s: State, request: nat, p: Projection) {
    request >= s.lastRequest && p.generation >= s.lastGeneration
  }

  /** `reconcileSelections`, on a state that already holds the new projection. */
  function Reconciled(s: State): State {
    var t :=
      if s.usage.Some? && !Navigable(s.screen.glances, s.screen.surfaces, s.usage.value) then
        s.(usage := None, usageAccount := None)
      else if s.usage.Some? && s.usageAccount.Some?
              && Account(s.usage.value, s.usageAccount.value) !in s.screen.accounts then
        var route := FirstRoute(s.screen.groups, s.usage.value);
        if route.Some? && route.value.Unavailable? then s.(usageAccount := None)
        else s.(usage := None, usageAccount := None)
      else s;
    if t.popover.Some? && !HasGlance(t.screen.glances, t.popover.value) then
      t.(popover := if t.screen.glances == [] then None else Some(t.screen.glances[0].surfaceId))
    else t
  }

  function Refreshed(s: State): State {
    s.(statusRows := VisibleRows(s.mode, s.pinned, s.stripMax, s.screen.glances, s.screen.projectedStatus))
  }

  function ScreenOf(p: Projection): Screen {
    Screen(p.surfaces, p.groups, AccountsOf(p.groups), p.glances, p.statusGlances, GroupIds(p.groups))
  }

  function Loaded(s: State, request: nat, p: Projection): State {
    s.(lastRequest := request, lastGeneration := p.generation, screen := ScreenOf(p),
       expanded := Expanded(s.expanded, s.screen.known, GroupIds(p.groups)))
  }

  function Applied(s: State, request: nat, p: Projection): State {
    Reconciled(Refreshed(Loaded(s, request, p))).(error := p.error)
  }

  function Step(s: State, e: Event): State {
    match e
    case Issue => s.(nextRequest := (s.nextRequest + 1) % UINT64)
    case Deliver(request, p) => if Accepts(s, request, p) then Applied(s, request, p) else s
    case Failure(request) => if request >= s.lastRequest then s.(error := Some(UPDATE_FAILED)) else s
    case Select(surface, account) =>
      if surface.Some? && Navigable(s.screen.glances, s.screen.surfaces, surface.value)
      then s.(usage := surface, usageAccount := account)
      else s.(usage := None, usageAccount := None)
    case RecordAccount(id, key) => if s.usage == Some(id) then s.(usageAccount := Some(key)) else s
    case SetPopover(selection) => s.(popover := selection)
    case SetExpanded(ids) => s.(expanded := ids)
    case SetMode(mode) => Refreshed(s.(mode := mode))
    case SetPinned(id) => Refreshed(s.(pinned := id))
    case SetStripMax(n) => s.(stripMax := ClampStrip(n))
    case Report(message) => s.(error := Some(message))
    case ReportIfClear(message) => if s.error == None then s.(error := Some(message)) else s
    case Open => if s.isOpen || s.isOpening then s else s.(isOpening := true)
    case Opened => s.(isOpen := true, isOpening := false, error := None)
    case OpenFailed => s.(isOpen := false, isOpening := false, error := Some(START_FAILED))
    case Shutdown => s.(isOpen := false, isOpening := false)
  }

  function Initial(mode: DisplayMode, pinned: string, strip: int): State {
    State(0, 0, 0, Screen([], [], [], [], [], {}), [], None, None, None, None, {}, mode, pinned, ClampStrip(strip),
          false, false)
  }

  function Run(s: State, events: seq<Event>): State
    decreases |events|
  {
    if events == [] then s else Step(Run(s, events[..|events| - 1]), events[|events| - 1])
  }

  // ---------------------------------------------------------------- what one step keeps

  /** What the screen shows is this projection and nothing else. */
  ghost predicate Shows(s: State, p: Projection) {
    s.screen == ScreenOf(p)
  }

  /** What holds of the selections in every state. */
  ghost predicate SelectionsValid(s: State) {
    && (s.usage.Some? ==> Navigable(s.screen.glances, s.screen.surfaces, s.usage.value))
    && (s.usageAccount.Some? ==> s.usage.Some?)
    && 1 <= s.stripMax <= MAX_CHIPS
  }

  /** What also holds right after a projection was accepted. */
  ghost predicate Settled(s: State) {
    && SelectionsValid(s)
    && (s.usageAccount.Some? ==> Account(s.usage.value, s.usageAccount.value) in s.screen.accounts)
    && (s.popover.Some? ==> HasGlance(s.screen.glances, s.popover.value))
    && s.statusRows == VisibleRows(s.mode, s.pinned, s.stripMax, s.screen.glances, s.screen.projectedStatus)
  }

  lemma ReconcileTouchesSelections(s: State)
    ensures Reconciled(s).(usage := s.usage, usageAccount := s.usageAccount, popover := s.popover) == s
  {
  }

  lemma AppliedShows(s: State, request: nat, p: Projection)
    ensures var t := Applied(s, request, p);
            && Shows(t, p) && t.lastRequest == request && t.lastGeneration == p.generation && t.error == p.error
            && t.expanded == Expanded(s.expanded, s.screen.known, GroupIds(p.groups))
  {
    ReconcileTouchesSelections(Refreshed(Loaded(s, request, p)));
  }

  lemma ReconcileSettles(s: State)
    requires s.usageAccount.Some? ==> s.usage.Some?
    ensures var t := Reconciled(s);
            && (t.usage.Some? ==> Navigable(s.screen.glances, s.screen.surfaces, t.usage.value))
            && (t.usageAccount.Some? ==>
                  t.usage.Some? && Account(t.usage.value, t.usageAccount.value) in s.screen.accounts)
            && (t.popover.Some? ==> HasGlance(s.screen.glances, t.popover.value))
  {
    assert s.screen.glances != [] ==> HasGlance(s.screen.glances, s.screen.glances[0].surfaceId);
  }

  lemma AppliedSettles(s: State, request: nat, p: Projection)
    requires s.usageAccount.Some? ==> s.usage.Some?
    requires 1 <= s.stripMax <= MAX_CHIPS
    ensures Settled(Applied(s, request, p))
  {
    var loaded := Refreshed(Loaded(s, request, p));
    ReconcileSettles(loaded);
    ReconcileTouchesSelections(loaded);
  }

  lemma StepKeepsSelections(s: State, e: Event)
    requires SelectionsValid(s)
    ensures SelectionsValid(Step(s, e))
  {
    if e.Deliver? && Accepts(s, e.request, e.projection) { AppliedSettles(s, e.request, e.projection); }
  }

  // ---------------------------------------------------------------- the store itself

  class PresentationStore {
    var nextRequest: nat
    var lastRequest: nat
    var lastGeneration: nat
    var surfaces: seq<Surface>
    var groups: seq<Group>
    var accounts: seq<Account>
    var glances: seq<Glance>
    var projectedStatus: seq<Glance>
    var statusRows: seq<Glance>
    var usage: Option<string>
    var usageAccount: Option<string>
    var popover: Option<string>
    var error: Option<string>
    var expanded: set<string>
    var known: set<string>
    var mode: DisplayMode
    var pinned: string
    var stripMax: nat
    var isOpen: bool
    var isOpening: bool

    ghost function View(): State
      reads this
    {
      State(nextRequest, lastRequest, lastGeneration,
            Screen(surfaces, groups, accounts, glances, projectedStatus, known),
            statusRows, usage, usageAccount, popover, error, expanded, mode, pinned, stripMax, isOpen, isOpening)
    }

    ghost predicate Valid()
      reads this
    {
      SelectionsValid(View())
    }

    constructor (mode: DisplayMode, pinned: string, strip: int)
      ensures View() == Initial(mode, pinned, strip) && Valid()
    {
      nextRequest, lastRequest, lastGeneration := 0, 0, 0;
      surfaces, groups, accounts, glances, projectedStatus, statusRows := [], [], [], [], [], [];
      usage, usageAccount, popover, error := None, None, None, None;
      expanded, known := {}, {};
      this.mode, this.pinned, this.stripMax := mode, pinned, ClampStrip(strip);
      isOpen, isOpening := false, false;
    }

    /** The first half of `applySnapshots`, up to the await. */
    method IssueRequest() returns (request: nat)
      requires Valid()
      modifies this
      ensures View() == Step(old(View()), Issue) && request == nextRequest
      ensures Valid()
    {
      nextRequest := (nextRequest + 1) % UINT64;
      request := nextRequest;
    }

    method RefreshVisibleStatusRows()
      modifies this`statusRows
      ensures View() == Refreshed(old(View()))
    {
      match mode
      case IconOnly => statusRows := [];
      case FocusPercent => statusRows := Prefix(projectedStatus, 1);
      case PinnedSurface => statusRows := Filter(glances, pinned);
      case Strip => statusRows := Prefix(projectedStatus, stripMax);
    }

    method ReconcileSelections()
      modifies this`usage, this`usageAccount, this`popover
      ensures View() == Reconciled(old(View()))
    {
      if usage.Some? && !Navigable(glances, surfaces, usage.value) {
        usage := None;
        usageAccount := None;
      } else if usage.Some? && usageAccount.Some? && Account(usage.value, usageAccount.value) !in accounts {
        var route := FirstRoute(groups, usage.value);
        if route.Some? && route.value.Unavailable? {
          usageAccount := None;
        } else {
          usage := None;
          usageAccount := None;
        }
      }
      if popover.Some? && !HasGlance(glances, popover.value) {
        popover := if glances == [] then None else Some(glances[0].surfaceId);
      }
    }

    method UpdateExpansion()
      modifies this`expanded, this`known
      ensures known == GroupIds(groups)
      ensures forall id :: id in expanded <==> id in known && (id in old(known) ==> id in old(expanded))
    {
      var ids := GroupIds(groups);
      expanded := expanded + (ids - known);
      expanded := expanded * ids;
      known := ids;
    }

    /** The assignments of `apply`, field by field ... */
    method CopyFields(projection: Projection, request: nat)
      modifies this`lastRequest, this`lastGeneration, this`surfaces, this`groups, this`accounts,
               this`expanded, this`known, this`glances, this`projectedStatus
      ensures lastRequest == request && lastGeneration == projection.generation
      ensures surfaces == projection.surfaces && groups == projection.groups
      ensures accounts == AccountsOf(projection.groups)
      ensures glances == projection.glances && projectedStatus == projection.statusGlances
      ensures known == GroupIds(projection.groups) && expanded == Expanded(old(expanded), old(known), known)
    {
      lastRequest, lastGeneration := request, projection.generation;
      surfaces, groups := projection.surfaces, projection.groups;
      accounts := AccountsOf(groups);
      glances, projectedStatus := projection.glances, projection.statusGlances;
      UpdateExpansion();
      assert expanded == Expanded(old(expanded), old(known), known);
    }

    /** ... and as one change of state. */
    method Load(projection: Projection, request: nat)
      modifies this`lastRequest, this`lastGeneration, this`surfaces, this`groups, this`accounts,
               this`expanded, this`known, this`glances, this`projectedStatus
      ensures View() == Loaded(old(View()), request, projection)
    {
      CopyFields(projection, request);
    }

    /** The rest of `apply`, once the answer was found to be new enough. */
    method Replace(projection: Projection, request: nat)
      modifies this
      ensures View() == Applied(old(View()), request, projection)
    {
      Load(projection, request);
      RefreshVisibleStatusRows();
      ReconcileSelections();
      error := projection.error;
    }

    /**
     `apply`: the second half of `applySnapshots` when the projection arrives. An accepted one is on
     screen with every selection settled against it; a refused one leaves no trace.
     */
    method Apply(projection: Projection, request: nat)
      requires Valid()
      modifies this
      ensures View() == Step(old(View()), Deliver(request, projection))
      ensures Valid()
      ensures if Accepts(old(View()), request, projection)
              then Settled(View()) && Shows(View(), projection)
              else View() == old(View())
    {
      if !(request >= lastRequest && projection.generation >= lastGeneration) { return; }
      AppliedSettles(View(), request, projection);
      AppliedShows(View(), request, projection);
      Replace(projection, request);
    }

    method RetainLastGood(request: nat)
      requires Valid()
      modifies this`error
      ensures View() == Step(old(View()), Failure(request))
      ensures Valid()
    {
      if request >= lastRequest {
        error := Some(UPDATE_FAILED);
      }
    }

    method SelectUsageContext(surface: Option<string>, account: Option<string>)
      requires Valid()
      modifies this`usage, this`usageAccount
      ensures View() == Step(old(View()), Select(surface, account))
      ensures Valid()
    {
      if surface.None? || !Navigable(glances, surfaces, surface.value) {
        usage := None;
        usageAccount := None;
        return;
      }
      usage := surface;
      usageAccount := account;
    }

    /** The observers of the display mode, the pinned surface and the strip length. */
    method SetDisplayMode(newMode: DisplayMode)
      requires Valid()
      modifies this`mode, this`statusRows
      ensures View() == Step(old(View()), SetMode(newMode))
      ensures Valid()
    {
      mode := newMode;
      RefreshVisibleStatusRows();
    }

    method SetPinnedSurface(surfaceId: string)
      requires Valid()
      modifies this`pinned, this`statusRows
      ensures View() == Step(old(View()), SetPinned(surfaceId))
      ensures Valid()
    {
      pinned := surfaceId;
      RefreshVisibleStatusRows();
    }

    /**
     The observer clamps the new length, or keeps it and asks for a request when the store is open.
     `again` says whether the language runs the observer once more for the clamped assignment inside it.
     */
    method SetStrip(count: int, again: bool) returns (refresh: bool)
      requires Valid()
      modifies this`stripMax
      ensures View() == Step(old(View()), SetStripMax(count))
      ensures Valid()
      ensures refresh <==> isOpen && (1 <= count <= MAX_CHIPS || again)
    {
      stripMax := ClampStrip(count);
      if stripMax != count && !again { return false; }
      return isOpen;
    }

    /** `open` up to the await; only one opening is under way at a time. */
    method BeginOpen() returns (start: bool)
      requires Valid()
      modifies this`isOpening
      ensures View() == Step(old(View()), Open)
      ensures Valid()
      ensures start <==> View() != old(View())
    {
      if isOpen || isOpening { return false; }
      isOpening := true;
      return true;
    }

    /** `open` after the await, when the runtime opened ... */
    method FinishOpen()
      requires Valid()
      modifies this`isOpen, this`isOpening, this`error
      ensures View() == Step(old(View()), Opened)
      ensures Valid()
    {
      isOpen, isOpening, error := true, false, None;
    }

    /** ... and when it did not. */
    method FailOpen()
      requires Valid()
      modifies this`isOpen, this`isOpening, this`error
      ensures View() == Step(old(View()), OpenFailed)
      ensures Valid()
    {
      error := Some(START_FAILED);
      isOpen, isOpening := false, false;
    }

    method ShutDown()
      requires Valid()
      modifies this`isOpen, this`isOpening
      ensures View() == Step(old(View()), Shutdown)
      ensures Valid()
    {
      isOpen, isOpening := false, false;
    }

    method RecordUsageAccountSelection(surfaceId: string, key: string)
      requires Valid()
      modifies this`usageAccount
      ensures View() == Step(old(View()), RecordAccount(surfaceId, key))
      ensures Valid()
    {
      if usage == Some(surfaceId) {
        usageAccount := Some(key);
      }
    }
  }

  // ---------------------------------------------------------------- ordering over every run

  predicate NoOlder(log: seq<Event>, e: Event)
    requires e.Deliver?
  {
    log == [] ||
    (var last := log[|log| - 1];
     last.Deliver? && e.request >= last.request && e.projection.generation >= last.projection.generation)
  }

  /** The deliveries that count, by request number and generation alone. */
  function AcceptedLog(events: seq<Event>): seq<Event>
    decreases |events|
  {
    if events == [] then []
    else
      var log := AcceptedLog(events[..|events| - 1]);
      var e := events[|events| - 1];
      if e.Deliver? && NoOlder(log, e) then log + [e] else log
  }

  /** The empty screen before the first delivery. */
  const BLANK := Projection(0, [], [], [], [], None)

  ghost function LastShown(log: seq<Event>): Projection {
    if log == [] || !log[|log| - 1].Deliver? then BLANK else log[|log| - 1].projection
  }

  /** The number of the last accepted answer, 0 before the first. */
  ghost function LastNumber(log: seq<Event>): nat {
    if log == [] || !log[|log| - 1].Deliver? then 0 else log[|log| - 1].request
  }

  ghost predicate MatchesLog(s: State, log: seq<Event>) {
    && Shows(s, LastShown(log))
    && s.lastGeneration == LastShown(log).generation
    && s.lastRequest == LastNumber(log)
  }

  lemma {:induction false} LogComesFromRun(events: seq<Event>)
    ensures forall e :: e in AcceptedLog(events) ==> e.Deliver? && e in events
  {
    if events == [] {
    } else {
      LogComesFromRun(events[..|events| - 1]);
    }
  }

  /** Nothing but an answer changes what is on screen. */
  lemma OtherEventsKeepScreen(s: State, e: Event, p: Projection)
    requires !e.Deliver? && Shows(s, p)
    ensures var t := Step(s, e); Shows(t, p) && t.lastRequest == s.lastRequest && t.lastGeneration == s.lastGeneration
  {
  }

  lemma AcceptedWhenNoOlder(s: State, log: seq<Event>, e: Event)
    requires MatchesLog(s, log) && e.Deliver? && (log != [] ==> log[|log| - 1].Deliver?)
    ensures Accepts(s, e.request, e.projection) <==> NoOlder(log, e)
  {
  }

  lemma StepMatchesLog(s: State, log: seq<Event>, e: Event)
    requires MatchesLog(s, log) && forall d :: d in log ==> d.Deliver?
    ensures MatchesLog(Step(s, e), if e.Deliver? && NoOlder(log, e) then log + [e] else log)
  {
    assert log != [] ==> log[|log| - 1] in log;
    if e.Deliver? {
      AcceptedWhenNoOlder(s, log, e);
      AppliedShows(s, e.request, e.projection);
    } else {
      OtherEventsKeepScreen(s, e, LastShown(log));
    }
  }

  /** Main result: in every run the store shows exactly the last delivery of the accepted log. */
  lemma {:induction false} StoreShowsLastAccepted(mode: DisplayMode, pinned: string, strip: int, events: seq<Event>)
    ensures MatchesLog(Run(Initial(mode, pinned, strip), events), AcceptedLog(events))
  {
    if events == [] {
    } else {
      var init, e := events[..|events| - 1], events[|events| - 1];
      StoreShowsLastAccepted(mode, pinned, strip, init);
      LogComesFromRun(init);
      StepMatchesLog(Run(Initial(mode, pinned, strip), init), AcceptedLog(init), e);
    }
  }

  /** Accepted deliveries never go back, in request number or in generation. */
  lemma {:induction false} AcceptedNeverGoesBack(events: seq<Event>, i: nat, j: nat)
    requires i <= j < |AcceptedLog(events)|
    ensures AcceptedLog(events)[i].Deliver? && AcceptedLog(events)[j].Deliver?
    ensures AcceptedLog(events)[i].request <= AcceptedLog(events)[j].request
    ensures AcceptedLog(events)[i].projection.generation <= AcceptedLog(events)[j].projection.generation
  {
    var init := events[..|events| - 1];
    var log := AcceptedLog(init);
    if j < |log| {
      AcceptedNeverGoesBack(init, i, j);
    } else if i < |log| {
      AcceptedNeverGoesBack(init, i, |log| - 1);
    }
  }

  lemma RunSnoc(s: State, events: seq<Event>, e: Event)
    ensures Run(s, events + [e]) == Step(Run(s, events), e)
  {
    assert (events + [e])[..|events|] == events;
  }

  lemma FailureTouchesError(s: State, request: nat)
    ensures Step(s, Failure(request)).(error := None) == s.(error := None)
    ensures request < s.lastRequest ==> Step(s, Failure(request)) == s
  {
  }

  /**
   An answer older than any accepted one, in number or in generation, leaves the store as it was, and so
   does a failure of an older request; every other failure touches the error text alone.
   */
  lemma {:induction false} StaleAnswersChangeNothing(mode: DisplayMode, pinned: string, strip: int,
                                                     events: seq<Event>, i: nat, request: nat, p: Projection)
    requires i < |AcceptedLog(events)| && AcceptedLog(events)[i].Deliver?
    ensures var s0, d := Initial(mode, pinned, strip), AcceptedLog(events)[i];
            && (request < d.request || p.generation < d.projection.generation ==>
                  Run(s0, events + [Deliver(request, p)]) == Run(s0, events))
            && (request < d.request ==> Run(s0, events + [Failure(request)]) == Run(s0, events))
            && Run(s0, events + [Failure(request)]).(error := None) == Run(s0, events).(error := None)
  {
    var s0, log := Initial(mode, pinned, strip), AcceptedLog(events);
    AcceptedNeverGoesBack(events, i, |log| - 1);
    StoreShowsLastAccepted(mode, pinned, strip, events);
    RunSnoc(s0, events, Deliver(request, p));
    RunSnoc(s0, events, Failure(request));
    FailureTouchesError(Run(s0, events), request);
  }

  /** A delivery that no other delivery of the run exceeds or equals in both respects. */
  ghost predicate Newest(events: seq<Event>, n: Event) {
    n.Deliver? && forall e :: e in events && e.Deliver? ==>
      && e.request <= n.request && e.projection.generation <= n.projection.generation
      && (e.request == n.request && e.projection.generation == n.projection.generation ==> e == n)
  }

  /**
   Main result: the order of answers does not matter. If a run contains a newest delivery, the store
   ends up showing it, wherever in the run it arrived and whatever came before or after.
   */
  lemma {:induction false} NewestWins(events: seq<Event>, n: Event)
    requires n in events && Newest(events, n)
    ensures AcceptedLog(events) != [] && AcceptedLog(events)[|AcceptedLog(events)| - 1] == n
  {
    var k := |events| - 1;
    var init, last := events[..k], events[k];
    var log := AcceptedLog(init);
    assert forall e :: e in init ==> e in events;
    if n in init {
      NewestWins(init, n);
    } else {
      assert last == n;
      LogComesFromRun(init);
      if log != [] { assert log[|log| - 1] in init; }
    }
  }

  /** Two runs with the same answers in different orders end on the same projection. */
  lemma {:induction false} OrderDoesNotMatter(mode: DisplayMode, pinned: string, strip: int,
                                              a: seq<Event>, b: seq<Event>, n: Event)
    requires n in a && n in b && Newest(a, n)
    requires forall e: Event :: e.Deliver? ==> (e in a <==> e in b)
    ensures Shows(Run(Initial(mode, pinned, strip), a), n.projection)
    ensures Shows(Run(Initial(mode, pinned, strip), b), n.projection)
  {
    NewestWins(a, n);
    NewestWins(b, n);
    StoreShowsLastAccepted(mode, pinned, strip, a);
    StoreShowsLastAccepted(mode, pinned, strip, b);
  }

  ghost predicate AllAnswers(answers: seq<Event>) {
    forall e :: e in answers ==> e.Deliver?
  }

  /** Whatever the order in which these answers arrive, the same projection is shown in the end. */
  ghost predicate OrderIrrelevant(answers: seq<Event>) {
    forall x: seq<Event>, y: seq<Event> :: multiset(x) == multiset(answers) && multiset(y) == multiset(answers) ==>
      LastShown(AcceptedLog(x)) == LastShown(AcceptedLog(y))
  }

  lemma {:induction false} FirstIsAccepted(events: seq<Event>)
    requires events != [] && events[0].Deliver?
    ensures AcceptedLog(events) != [] && AcceptedLog(events)[0] == events[0]
  {
    if |events| == 1 {
      assert events[..0] == [];
    } else {
      FirstIsAccepted(events[..|events| - 1]);
    }
  }

  /** What is shown in the end came from the run and is no older than the first answer. */
  lemma ShownIsNoOlderThanFirst(events: seq<Event>) returns (last: Event)
    requires events != [] && events[0].Deliver?
    ensures last in events && last.Deliver? && LastShown(AcceptedLog(events)) == last.projection
    ensures events[0].request <= last.request
    ensures events[0].projection.generation <= last.projection.generation
  {
    var log := AcceptedLog(events);
    FirstIsAccepted(events);
    LogComesFromRun(events);
    AcceptedNeverGoesBack(events, 0, |log| - 1);
    last := log[|log| - 1];
    assert last in log;
  }

  /** An answer that nothing exceeds is shown when it comes last. */
  lemma MaximalLastIsShown(events: seq<Event>, a: Event)
    requires a.Deliver? && AllAnswers(events)
    requires forall e :: e in events ==> e.request <= a.request && e.projection.generation <= a.projection.generation
    ensures LastShown(AcceptedLog(events + [a])) == a.projection
  {
    var log := AcceptedLog(events);
    assert (events + [a])[..|events|] == events;
    LogComesFromRun(events);
    assert log != [] ==> log[|log| - 1] in log;
  }

  /** No other answer has a larger number, nor the same number and a larger generation. */
  ghost predicate TopByRequest(answers: seq<Event>, a: Event) {
    a.Deliver? && forall e :: e in answers && e.Deliver? ==>
      e.request < a.request || (e.request == a.request && e.projection.generation <= a.projection.generation)
  }

  ghost predicate TopByGeneration(answers: seq<Event>, b: Event) {
    b.Deliver? && forall e :: e in answers && e.Deliver? ==> e.projection.generation <= b.projection.generation
  }

  lemma {:induction false} FindTops(answers: seq<Event>) returns (a: Event, b: Event)
    requires answers != [] && AllAnswers(answers)
    ensures a in answers && TopByRequest(answers, a) && b in answers && TopByGeneration(answers, b)
  {
    var n := |answers| - 1;
    var init, last := answers[..n], answers[n];
    assert last in answers && forall e :: e in init ==> e in answers;
    assert forall e :: e in answers ==> e == last || e in init;
    if n == 0 {
      a, b := last, last;
    } else {
      a, b := FindTops(init);
      if last.request > a.request
         || (last.request == a.request && last.projection.generation > a.projection.generation) { a := last; }
      if last.projection.generation > b.projection.generation { b := last; }
    }
  }

  lemma OrdersDiffer(answers: seq<Event>, x: seq<Event>, y: seq<Event>)
    requires multiset(x) == multiset(answers) && multiset(y) == multiset(answers)
    requires LastShown(AcceptedLog(x)) != LastShown(AcceptedLog(y))
    ensures !OrderIrrelevant(answers)
  {
  }

  /** No answer is top in both respects: the one that comes first decides. */
  lemma FirstDecides(answers: seq<Event>, a: Event, b: Event)
    requires AllAnswers(answers) && a in answers && b in answers
    requires TopByRequest(answers, a) && TopByGeneration(answers, b)
    requires a.projection.generation < b.projection.generation
    ensures !OrderIrrelevant(answers)
  {
    var x := MoveOut(answers, a);
    var y := MoveOut(answers, b);
    var shownFirst := ShownIsNoOlderThanFirst([a] + x);
    var shownSecond := ShownIsNoOlderThanFirst([b] + y);
    assert shownFirst in answers && shownSecond in answers;
    assert shownFirst.projection.generation == a.projection.generation;
    OrdersDiffer(answers, [a] + x, [b] + y);
  }

  /** Two answers are top in both respects: the one that comes last decides. */
  lemma LastDecides(answers: seq<Event>, a: Event, e: Event)
    requires AllAnswers(answers) && a in answers && e in answers && e != a
    requires TopByRequest(answers, a) && TopByGeneration(answers, a)
    requires e.request == a.request && e.projection.generation == a.projection.generation
    ensures !OrderIrrelevant(answers)
  {
    var rest := MoveOutTwo(answers, a, e);
    MaximalLastIsShown(rest + [a], e);
    MaximalLastIsShown(rest + [e], a);
    OrdersDiffer(answers, (rest + [a]) + [e], (rest + [e]) + [a]);
  }

  /**
   Main result: the order of a set of answers is irrelevant to what is shown in the end exactly when one
   of them is newest, in number and in generation, with no other answer equal to it in both.
   */
  lemma OrderDoesNotMatterIff(answers: seq<Event>)
    requires answers != [] && AllAnswers(answers)
    ensures OrderIrrelevant(answers) <==> exists n :: n in answers && Newest(answers, n)
  {
    if n :| n in answers && Newest(answers, n) {
      forall x: seq<Event> | multiset(x) == multiset(answers) ensures LastShown(AcceptedLog(x)) == n.projection {
        forall e ensures e in x <==> e in answers {
          assert e in x <==> e in multiset(x);
          assert e in answers <==> e in multiset(answers);
        }
        NewestWins(x, n);
      }
    } else {
      var a, b := FindTops(answers);
      if a.projection.generation < b.projection.generation {
        FirstDecides(answers, a, b);
      } else {
        assert !Newest(answers, a);
        var e :| e in answers && e.request == a.request && e.projection.generation == a.projection.generation && e != a;
        LastDecides(answers, a, e);
      }
    }
  }

  /** Two answers, each newer than the other in one respect. */
  lemma CrossedAnswersOrderMatters()
    ensures !OrderIrrelevant([Deliver(2, BLANK), Deliver(1, BLANK.(generation := 1))])
  {
    var a, b := Deliver(2, BLANK), Deliver(1, BLANK.(generation := 1));
    FirstDecides([a, b], a, b);
  }

  // ---------------------------------------------------------------- issued requests

  function IssueCount(events: seq<Event>): nat
    decreases |events|
  {
    if events == [] then 0
    else IssueCount(events[..|events| - 1]) + (if events[|events| - 1].Issue? then 1 else 0)
  }

  lemma WrappedSuccessor(n: nat)
    ensures (n % UINT64 + 1) % UINT64 == (n + 1) % UINT64
  {
  }

  lemma StepCounter(s: State, e: Event)
    ensures Step(s, e).nextRequest == if e.Issue? then (s.nextRequest + 1) % UINT64 else s.nextRequest
  {
    if e.Deliver? { ReconcileTouchesSelections(Refreshed(Loaded(s, e.request, e.projection))); }
  }

  /** The counter is the number of requests issued, modulo 2^64. */
  lemma {:induction false} CounterCountsIssues(mode: DisplayMode, pinned: string, strip: int, events: seq<Event>)
    ensures Run(Initial(mode, pinned, strip), events).nextRequest == IssueCount(events) % UINT64
  {
    if events == [] {
    } else {
      var init, e := events[..|events| - 1], events[|events| - 1];
      CounterCountsIssues(mode, pinned, strip, init);
      WrappedSuccessor(IssueCount(init));
      StepCounter(Run(Initial(mode, pinned, strip), init), e);
    }
  }

  /**
   Main result, for every run: the answer to the newest request is accepted exactly when its generation
   is no older than the one on screen and its wrapped number no smaller than the last accepted number.
   */
  lemma {:induction false} NewestRequestAcceptedIff(mode: DisplayMode, pinned: string, strip: int,
                                                    events: seq<Event>, p: Projection)
    ensures var s, log := Run(Initial(mode, pinned, strip), events), AcceptedLog(events);
            Accepts(s, s.nextRequest, p) <==>
            p.generation >= LastShown(log).generation && IssueCount(events) % UINT64 >= LastNumber(log)
  {
    CounterCountsIssues(mode, pinned, strip, events);
    StoreShowsLastAccepted(mode, pinned, strip, events);
  }

  /** Answers carry the number of a request issued before them. */
  ghost predicate AnswersWereIssued(events: seq<Event>) {
    forall i :: 0 <= i < |events| && events[i].Deliver? ==> events[i].request <= IssueCount(events[..i])
  }

  lemma {:induction false} AcceptedWasIssued(events: seq<Event>)
    requires AnswersWereIssued(events)
    ensures LastNumber(AcceptedLog(events)) <= IssueCount(events)
  {
    if events == [] {
    } else {
      var init := events[..|events| - 1];
      forall i | 0 <= i < |init| && init[i].Deliver? ensures init[i].request <= IssueCount(init[..i]) {
        assert init[i] == events[i] && init[..i] == events[..i];
      }
      AcceptedWasIssued(init);
    }
  }

  /** Below 2^64 requests the counter counts them and no accepted number exceeds it. */
  lemma {:induction false} RequestsBounded(mode: DisplayMode, pinned: string, strip: int, events: seq<Event>)
    requires AnswersWereIssued(events) && IssueCount(events) < UINT64
    ensures var s := Run(Initial(mode, pinned, strip), events);
            s.nextRequest == IssueCount(events) && s.lastRequest <= s.nextRequest
  {
    CounterCountsIssues(mode, pinned, strip, events);
    StoreShowsLastAccepted(mode, pinned, strip, events);
    AcceptedWasIssued(events);
  }

  /** ... so the newest request is never shut out by its number. */
  lemma {:induction false} NewestRequestNotShutOut(mode: DisplayMode, pinned: string, strip: int,
                                                   events: seq<Event>, p: Projection)
    requires AnswersWereIssued(events) && IssueCount(events) < UINT64
    ensures var s := Run(Initial(mode, pinned, strip), events);
            Accepts(s, s.nextRequest, p) <==> p.generation >= LastShown(AcceptedLog(events)).generation
  {
    NewestRequestAcceptedIff(mode, pinned, strip, events, p);
    AcceptedWasIssued(events);
  }

  function Issues(n: nat): seq<Event> {
    seq(n, _ => Issue)
  }

  lemma {:induction false} IssuesOnlyCount(events: seq<Event>, n: nat)
    ensures IssueCount(events + Issues(n)) == IssueCount(events) + n
    ensures AcceptedLog(events + Issues(n)) == AcceptedLog(events)
  {
    if n == 0 {
      assert events + Issues(0) == events;
    } else {
      var more := events + Issues(n);
      IssuesOnlyCount(events, n - 1);
      assert more[..|more| - 1] == events + Issues(n - 1) && more[|more| - 1] == Issue;
    }
  }

  /** One accepted answer to request 1, and 2^64 or more requests in all. */
  function WrappedRun(extra: nat): seq<Event> {
    [Issue, Deliver(1, BLANK)] + Issues(UINT64 - 1 + extra)
  }

  lemma WrappedRunCounts(extra: nat)
    ensures IssueCount(WrappedRun(extra)) == UINT64 + extra
    ensures AcceptedLog(WrappedRun(extra)) == [Deliver(1, BLANK)]
  {
    var start := [Issue, Deliver(1, BLANK)];
    assert start[..1] == [Issue] && [Issue][..0] == [];
    assert IssueCount([Issue]) == 1 && AcceptedLog([Issue]) == [];
    assert IssueCount(start) == 1 && AcceptedLog(start) == [Deliver(1, BLANK)];
    IssuesOnlyCount(start, UINT64 - 1 + extra);
  }

  /** A run that wraps: request number 0 is shut out whatever it carries, the one after it is not. */
  lemma {:induction false} WrappedRequestIsShutOut(mode: DisplayMode, pinned: string, strip: int, p: Projection)
    ensures var s := Run(Initial(mode, pinned, strip), WrappedRun(0));
            s.nextRequest == 0 && !Accepts(s, s.nextRequest, p)
    ensures var s := Run(Initial(mode, pinned, strip), WrappedRun(1));
            s.nextRequest == 1 && Accepts(s, s.nextRequest, p)
  {
    WrappedRunCounts(0);
    WrappedRunCounts(1);
    CounterCountsIssues(mode, pinned, strip, WrappedRun(0));
    CounterCountsIssues(mode, pinned, strip, WrappedRun(1));
    NewestRequestAcceptedIff(mode, pinned, strip, WrappedRun(0), p);
    NewestRequestAcceptedIff(mode, pinned, strip, WrappedRun(1), p);
  }

  // ---------------------------------------------------------------- selections over every run

  /** Main result: over every live run the selections stay valid. */
  lemma {:induction false} SelectionsAlwaysValid(mode: DisplayMode, pinned: string, strip: int, events: seq<Event>)
    ensures SelectionsValid(Run(Initial(mode, pinned, strip), events))
  {
    if events == [] {
    } else {
      SelectionsAlwaysValid(mode, pinned, strip, events[..|events| - 1]);
      StepKeepsSelections(Run(Initial(mode, pinned, strip), events[..|events| - 1]), events[|events| - 1]);
    }
  }

  /** ... and each accepted projection settles them completely. */
  lemma {:induction false} AcceptedSettles(mode: DisplayMode, pinned: string, strip: int,
                                           events: seq<Event>, request: nat, p: Projection)
    requires Accepts(Run(Initial(mode, pinned, strip), events), request, p)
    ensures Settled(Run(Initial(mode, pinned, strip), events + [Deliver(request, p)]))
  {
    var more := events + [Deliver(request, p)];
    assert more[..|more| - 1] == events;
    SelectionsAlwaysValid(mode, pinned, strip, events);
    AppliedSettles(Run(Initial(mode, pinned, strip), events), request, p);
  }

  /** The strip length in force after the run. */
  function StripAfter(strip: int, events: seq<Event>): nat
    decreases |events|
  {
    if events == [] then ClampStrip(strip)
    else
      var e := events[|events| - 1];
      if e.SetStripMax? then ClampStrip(e.count) else StripAfter(strip, events[..|events| - 1])
  }

  /** The last event recomputes the status rows: an accepted answer, or a new mode or pinned surface. */
  predicate Recomputes(events: seq<Event>)
    requires events != []
  {
    var e := events[|events| - 1];
    e.SetMode? || e.SetPinned? || (e.Deliver? && NoOlder(AcceptedLog(events[..|events| - 1]), e))
  }

  /** The strip length in force when the rows were last recomputed. */
  function CutSize(strip: int, events: seq<Event>): nat
    decreases |events|
  {
    if events == [] then ClampStrip(strip)
    else if Recomputes(events) then StripAfter(strip, events)
    else CutSize(strip, events[..|events| - 1])
  }

  /** The status rows are cut from the shown projection by the current mode and this strip length. */
  ghost predicate RowsCut(s: State, k: nat) {
    s.statusRows == VisibleRows(s.mode, s.pinned, k, s.screen.glances, s.screen.projectedStatus)
  }

  lemma StepCutsRows(s: State, e: Event, k: nat)
    requires RowsCut(s, k)
    ensures var t := Step(s, e);
            && (if e.SetMode? || e.SetPinned? || (e.Deliver? && Accepts(s, e.request, e.projection))
                then RowsCut(t, s.stripMax) else RowsCut(t, k))
            && t.stripMax == if e.SetStripMax? then ClampStrip(e.count) else s.stripMax
  {
    if e.Deliver? {
      ReconcileTouchesSelections(Refreshed(Loaded(s, e.request, e.projection)));
    }
  }

  /** Main result: in every state the bar shows the mode's cut of the projection on screen, and no other row. */
  lemma {:induction false} StatusRowsFromShown(mode: DisplayMode, pinned: string, strip: int, events: seq<Event>)
    ensures var s := Run(Initial(mode, pinned, strip), events);
            RowsCut(s, CutSize(strip, events)) && s.stripMax == StripAfter(strip, events)
  {
    if events == [] {
    } else {
      var init, e := events[..|events| - 1], events[|events| - 1];
      var s := Run(Initial(mode, pinned, strip), init);
      StatusRowsFromShown(mode, pinned, strip, init);
      StoreShowsLastAccepted(mode, pinned, strip, init);
      LogComesFromRun(init);
      var log := AcceptedLog(init);
      assert log != [] ==> log[|log| - 1] in log;
      if e.Deliver? { AcceptedWhenNoOlder(s, log, e); }
      StepCutsRows(s, e, CutSize(strip, init));
    }
  }

  /**
   Overview expansion: an accepted projection expands providers it introduces, keeps the user's choice
   for those already on screen, and forgets those that are gone.
   */
  lemma {:induction false} ExpansionFollowsProviders(mode: DisplayMode, pinned: string, strip: int,
                                                     events: seq<Event>, request: nat, p: Projection, id: string)
    requires Accepts(Run(Initial(mode, pinned, strip), events), request, p)
    ensures var s := Run(Initial(mode, pinned, strip), events);
            var shown := LastShown(AcceptedLog(events));
            id in Step(s, Deliver(request, p)).expanded <==>
            id in GroupIds(p.groups) && (id in GroupIds(shown.groups) ==> id in s.expanded)
  {
    StoreShowsLastAccepted(mode, pinned, strip, events);
    AppliedShows(Run(Initial(mode, pinned, strip), events), request, p);
  }
}
