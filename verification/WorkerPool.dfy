/**
 `fetchAllStatic`: workers share one cursor over the list of paths. A turn of the event loop runs one
 worker from its await to the next; turns of different workers interleave freely.
 */
module WorkerPool {
  datatype Worker =
    | AtLoop               // about to test `next < paths.length`
    | Fetching(index: nat) // awaiting fetchStatic(paths[index])
    | Finished             // left the loop
    | Threw(index: nat)    // fetchStatic rejected

  /** `fetched` logs the indices whose fetch resolved, in order of completion. */
  datatype Pool = Pool(pathCount: nat, next: nat, workers: seq<Worker>, fetched: seq<nat>)

  datatype Event = Turn(worker: nat) | Resolve(worker: nat) | Reject(worker: nat)

  function Start(pathCount: nat, concurrency: nat): Pool {
    var n := if concurrency < pathCount then concurrency else pathCount;
    Pool(pathCount, 0, seq(n, i => AtLoop), [])
  }

  predicate Enabled(p: Pool, e: Event) {
    e.worker < |p.workers| &&
    match e
    case Turn(w) => p.workers[w].AtLoop?
    case Resolve(w) => p.workers[w].Fetching?
    case Reject(w) => p.workers[w].Fetching?
  }

  function Step(p: Pool, e: Event): Pool
    requires Enabled(p, e)
  {
    match e
    case Turn(w) =>
      if p.next < p.pathCount
      then p.(workers := p.workers[w := Fetching(p.next)], next := p.next + 1)
      else p.(workers := p.workers[w := Finished])
    case Resolve(w) =>
      p.(workers := p.workers[w := AtLoop], fetched := p.fetched + [p.workers[w].index])
    case Reject(w) => p.(workers := p.workers[w := Threw(p.workers[w].index)])
  }

  ghost predicate IsRun(p: Pool, events: seq<Event>)
    decreases |events|
  {
    events == [] || (Enabled(p, events[0]) && IsRun(Step(p, events[0]), events[1..]))
  }

  function Run(p: Pool, events: seq<Event>): Pool
    requires IsRun(p, events)
    decreases |events|
  {
    if events == [] then p else Run(Step(p, events[0]), events[1..])
  }

  // ---------------------------------------------------------------- who holds which index

  /** 1 when the worker has claimed index `i` and not delivered it. */
  function Holds(w: Worker, i: nat): nat {
    if (w.Fetching? || w.Threw?) && w.index == i then 1 else 0
  }

  function Holders(workers: seq<Worker>, i: nat): nat {
    if workers == [] then 0 else Holds(workers[0], i) + Holders(workers[1..], i)
  }

  /** How often index `i` was claimed: delivered, under way, or lost to a rejection. */
  function Claims(p: Pool, i: nat): nat {
    multiset(p.fetched)[i] + Holders(p.workers, i)
  }

  /** Indices 0, ..., next - 1 were claimed once each, nothing else, and never past the end. */
  ghost predicate ClaimsExact(p: Pool) {
    p.next <= p.pathCount && forall i: nat :: Claims(p, i) == if i < p.next then 1 else 0
  }

  lemma {:induction false} HoldersUpdate(workers: seq<Worker>, w: nat, v: Worker, i: nat)
    requires w < |workers|
    ensures Holders(workers[w := v], i) + Holds(workers[w], i) == Holders(workers, i) + Holds(v, i)
  {
    if w > 0 {
      HoldersUpdate(workers[1..], w - 1, v, i);
      assert workers[w := v][1..] == workers[1..][w - 1 := v];
    } else {
      assert workers[w := v][1..] == workers[1..];
    }
  }

  lemma {:induction false} NothingHeld(workers: seq<Worker>, i: nat)
    requires forall w :: 0 <= w < |workers| ==> workers[w].AtLoop? || workers[w].Finished?
    ensures Holders(workers, i) == 0
  {
    if workers == [] {
    } else {
      NothingHeld(workers[1..], i);
    }
  }

  lemma StepKeepsClaims(p: Pool, e: Event)
    requires ClaimsExact(p) && Enabled(p, e)
    ensures ClaimsExact(Step(p, e))
  {
    var q, w := Step(p, e), e.worker;
    forall i: nat ensures Claims(q, i) == if i < q.next then 1 else 0 {
      HoldersUpdate(p.workers, w, q.workers[w], i);
      assert Claims(p, i) == if i < p.next then 1 else 0;
      if e.Resolve? {
        assert multiset(q.fetched) == multiset(p.fetched) + multiset{p.workers[w].index};
      }
    }
  }

  /** Main result: in every interleaving, claims are exact at every moment. */
  lemma {:induction false} ClaimsAlwaysExact(p: Pool, events: seq<Event>)
    requires ClaimsExact(p) && IsRun(p, events)
    ensures ClaimsExact(Run(p, events))
    ensures Run(p, events).pathCount == p.pathCount && |Run(p, events).workers| == |p.workers|
    decreases |events|
  {
    if events == [] {
    } else {
      StepKeepsClaims(p, events[0]);
      ClaimsAlwaysExact(Step(p, events[0]), events[1..]);
    }
  }

  /** The pool starts with nothing claimed, and with no more workers than paths. */
  lemma StartIsExact(pathCount: nat, concurrency: nat)
    ensures ClaimsExact(Start(pathCount, concurrency))
    ensures var p := Start(pathCount, concurrency);
            && p.next == 0 && p.fetched == [] && p.pathCount == pathCount
            && |p.workers| <= pathCount && |p.workers| <= concurrency
            && (|p.workers| == pathCount || |p.workers| == concurrency)
            && forall w :: 0 <= w < |p.workers| ==> p.workers[w] == AtLoop
  {
    var p := Start(pathCount, concurrency);
    forall i: nat ensures Claims(p, i) == 0 { NothingHeld(p.workers, i); }
  }

  // ---------------------------------------------------------------- the end of a run

  predicate Stopped(p: Pool) {
    forall w :: 0 <= w < |p.workers| ==> p.workers[w].Finished? || p.workers[w].Threw?
  }

  predicate NoneThrew(p: Pool) {
    forall w :: 0 <= w < |p.workers| ==> !p.workers[w].Threw?
  }

  ghost predicate CursorDone(p: Pool) {
    forall w :: 0 <= w < |p.workers| && p.workers[w].Finished? ==> p.next == p.pathCount
  }

  lemma {:induction false} FinishedMeansExhausted(p: Pool, events: seq<Event>)
    requires ClaimsExact(p) && IsRun(p, events) && CursorDone(p)
    ensures CursorDone(Run(p, events))
    decreases |events|
  {
    if events == [] {
    } else {
      StepKeepsClaims(p, events[0]);
      FinishedMeansExhausted(Step(p, events[0]), events[1..]);
    }
  }

  /** Main result: if every worker finishes and none throws, every path was fetched exactly once. */
  lemma AllFetchedOnce(pathCount: nat, concurrency: nat, events: seq<Event>, i: nat)
    requires concurrency > 0 && IsRun(Start(pathCount, concurrency), events)
    requires var q := Run(Start(pathCount, concurrency), events); Stopped(q) && NoneThrew(q)
    ensures multiset(Run(Start(pathCount, concurrency), events).fetched)[i] == if i < pathCount then 1 else 0
  {
    var p := Start(pathCount, concurrency);
    var q := Run(p, events);
    StartIsExact(pathCount, concurrency);
    ClaimsAlwaysExact(p, events);
    FinishedMeansExhausted(p, events);
    NothingHeld(q.workers, i);
    if pathCount > 0 { assert q.workers[0].Finished?; }
    assert Claims(q, i) == if i < q.next then 1 else 0;
  }

  /** A rejection costs one path per worker that threw; the survivors still cover all the others. */
  lemma SurvivorsCoverTheRest(pathCount: nat, concurrency: nat, events: seq<Event>, w: nat, i: nat)
    requires IsRun(Start(pathCount, concurrency), events)
    requires var q := Run(Start(pathCount, concurrency), events);
             Stopped(q) && w < |q.workers| && q.workers[w].Finished?
    ensures var q := Run(Start(pathCount, concurrency), events);
            multiset(q.fetched)[i] == (if i < pathCount then 1 else 0) - Holders(q.workers, i)
  {
    var p := Start(pathCount, concurrency);
    StartIsExact(pathCount, concurrency);
    ClaimsAlwaysExact(p, events);
    FinishedMeansExhausted(p, events);
    assert Claims(Run(p, events), i) == if i < pathCount then 1 else 0;
  }

  // ---------------------------------------------------------------- termination

  function Weight(w: Worker): nat {
    match w
    case AtLoop => 1
    case Fetching(_) => 2
    case _ => 0
  }

  function Weights(workers: seq<Worker>): nat {
    if workers == [] then 0 else Weight(workers[0]) + Weights(workers[1..])
  }

  /** Turns left at most: two for each unclaimed path, and what the workers still owe. */
  function Measure(p: Pool): nat
    requires p.next <= p.pathCount
  {
    2 * (p.pathCount - p.next) + Weights(p.workers)
  }

  lemma {:induction false} WeightUpdate(workers: seq<Worker>, w: nat, v: Worker)
    requires w < |workers|
    ensures Weights(workers[w := v]) + Weight(workers[w]) == Weights(workers) + Weight(v)
  {
    if w > 0 {
      WeightUpdate(workers[1..], w - 1, v);
      assert workers[w := v][1..] == workers[1..][w - 1 := v];
    } else {
      assert workers[w := v][1..] == workers[1..];
    }
  }

  /** Every run is short: it cannot take more turns than the measure of its start. */
  lemma {:induction false} RunsAreBounded(p: Pool, events: seq<Event>)
    requires ClaimsExact(p) && IsRun(p, events)
    ensures ClaimsExact(Run(p, events)) && |events| + Measure(Run(p, events)) <= Measure(p)
    decreases |events|
  {
    if events == [] {
    } else {
      var q := Step(p, events[0]);
      StepKeepsClaims(p, events[0]);
      WeightUpdate(p.workers, events[0].worker, q.workers[events[0].worker]);
      RunsAreBounded(q, events[1..]);
    }
  }

  /** And it only ends when every worker has stopped: some turn is always possible before that. */
  lemma NeverStuck(p: Pool) returns (e: Event)
    requires !Stopped(p)
    ensures Enabled(p, e)
  {
    var w :| 0 <= w < |p.workers| && !(p.workers[w].Finished? || p.workers[w].Threw?);
    e := if p.workers[w].AtLoop? then Turn(w) else Resolve(w);
  }
}
