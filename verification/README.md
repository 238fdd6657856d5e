# Verified model of jackin's planning-pack validator and desktop presentation core

The repository's OpenShell planning pack is guarded by a validator
(`docs/openshell-v2/validate_pack.py`) and by a fixture runner that mutates packs and inspects the
validator's reports (`docs/openshell-v2/validate_assignment_fixtures.py`). The macOS client keeps one
presentation store and one status-bar controller. This project models those two cores, three
generators of the documentation site, and proves what they promise:

- **Task graph** (`TaskGraph`, `ReadyGroups`): the readiness loop computes the one layering there is;
  a task is placed exactly when its dependency chains are bounded and stay inside the graph; the
  group number is the length of the longest dependency chain; the stored groups are accepted exactly
  when they describe that layering.
- **Statuses** (`Summary`, `StatusChecks`, `BoardRecords`, `BoardTheorems`): the validator's dictionary passes accept a
  board exactly when a row-by-row consistency predicate holds, which is the same as a condition on the bare records; on an accepted board every recorded
  result stands on a dependency closure that has passed, and the manifest status is the summary of all
  rows at once.
- **Moving a board** (`TaskStates`, `MoveOutcomes`, `MoveTheorems`): the worklist finds exactly the transitive
  dependents; passing everything and then moving some tasks keeps a board consistent exactly under a
  condition on the requested statuses.
- **Reports** (`Report`, `ReportOutcomes`): what a reader learns from a report, which reports of the validator the runner accepts, which accepted documents are
  reports of the validator, and both exactly.
- **Normalization** (`Normalize`, `NormalizeTheorems`): the change log replays to the result, a second
  run changes nothing, the hashed projections survive, and the result passes the initial-state checks
  exactly when the input had the fields to reset.
- **Traceability, subagent table, inventories** (`Traceability`, `Subagents`, `FixtureInventory`).
- **Desktop client** (`PresentationStore`, `StoreOutcomes`, `StatusBar`, `BarOutcomes`): what every run of requests, answers, failures
  and user actions keeps, and what the bar shows after it.
- **Documentation generators** (`WorkerPool`, `Favicon`, `MdxEscape`, `MdxRecovery`): a concurrent fetch pool, an icon
  container read back, and an escaper with the exact condition under which only copied spans stay live.

Code that updates things in place is modelled by classes and loops, each tied by its postcondition to
a value-level function; the theorems are about those functions. `Sequences`, `Ordering`, `Board` and
`Json` hold shared definitions.

## Findings

Places where a property one would expect does not hold of the code. Each has a lemma at an input where
it fails and the condition under which it holds.

- Summarising per case and then over cases equals summarising all rows unless an empty case sits on an
  otherwise all-`PASS` board (`SummaryComposesExactlyWhen`, `EmptyGroupBreaksComposition`).
- The runner refuses some reports of the validator: a full run whose recorded names differ from the
  inventory still prints a report, with a failed inventory check (`EmittedAcceptedIff`,
  `MisnamedRunRefused`).
- The runner accepts documents the validator never prints: the canonical names with a failed inventory
  check, and a missing file that is not a required one (`AcceptedEmittedIff`, `FailedInventoryAccepted`,
  `ForeignFileAccepted`).
- The traceability checks look sections up by heading text, so for every specification with a repeated
  heading there is a manifest they accept although the cited section does not list the citing task
  (`RepeatedHeadingHidesSection`). With distinct headings the promise holds (`AcceptedIsTraced`).
- `set_task_states` resets only the rows of tasks it blocks itself, so an explicit `NOT_STARTED` or
  `READY`, or an explicit `BLOCKED` downstream of a non-`PASS` task, leaves stale `PASS` rows behind
  (`MovedConsistentIff`, `MoveLeavesStaleResult`).
- The order in which answers arrive can decide what is shown: it does unless one answer is newest in number
  and in generation and no other equals it in both (`OrderDoesNotMatterIff`, `CrossedAnswersOrderMatters`).
- The request counter wraps at 2^64. After that, answers are refused until the numbers reach the last
  accepted one again (`NewestRequestAcceptedIff`, `WrappedRequestIsShutOut`).
- An opening brace with an odd number of backslashes before it comes out live (`OnlySpansLiveIff`,
  `AlreadyEscapedBraceComesOutLive`).
- The escaper recognises components by a bare prefix, so `<Asides>` is copied live. A copied span names a
  listed component exactly when the character after the prefix ends the name (`CopiedSpanNamesListedIff`,
  `LongerNameIsCopied`).
- A copied span ends at the first `>`, even inside an attribute, and later braces of the same tag are then
  escaped. It is the whole tag exactly when no quote or brace is open before that `>`
  (`CopiedSpanCompleteIff`, `CutTagIsDamaged`).
- An image whose header states width 0 is stored as width 256 (`WidthReadBackIff`, `ZeroWidthReadsAs256`).
- The width is stored as the height too, so an image that is not square gets a wrong height
  (`HeightReadBackIff`, `TallImageReadsAsSquare`).
- `recompute_ready_groups` says "cycle" on repeated ids and on unknown dependencies too. The message is
  right exactly for graphs with a cycle or with unique ids and known dependencies
  (`RaisesOnlyOnCyclesIff`, `RaisesOnRepeatedId`, `RaisesOnUnknownDependency`).

## Model

| member | source | states |
|---|---|---|
| `TaskGraph.ReadinessGroups` | docs/openshell-v2/validate_pack.py:2286-2295 | The loop stops and its groups are a layering: each group is what is ready once all earlier groups are done, none is empty, and nothing is ready at the end. |
| `TaskGraph.LayeringUnique` | docs/openshell-v2/validate_pack.py:2286-2295 | A graph has one layering, whatever its ids and dependencies. |
| `TaskGraph.DoneIsGrounded` | docs/openshell-v2/validate_pack.py:2286-2298 | A task is placed if and only if its dependency chains are bounded in length and never leave the graph. |
| `TaskGraph.ExhibitCycle` | docs/openshell-v2/validate_pack.py:2296-2298 | From any task left out of the layering a dependency cycle can be produced when all dependencies are known. |
| `TaskGraph.CompleteIffAcyclic` | docs/openshell-v2/validate_pack.py:2286-2298 | With known dependencies, every task is placed if and only if there is no cycle. |
| `TaskGraph.DependencyIsEarlier` | docs/openshell-v2/validate_pack.py:2289-2295 | A direct dependency of a placed task is placed in a strictly earlier group. |
| `TaskGraph.WaitsForPreviousGroup` | docs/openshell-v2/validate_pack.py:2289-2295 | A task outside the first group has a direct dependency in the group just before its own. |
| `TaskGraph.LongestChain` | docs/openshell-v2/validate_pack.py:2289-2295 | A dependency chain as long as the group number exists. |
| `TaskGraph.GroupIndexIsHeight` | docs/openshell-v2/validate_pack.py:2289-2295 | The group number is exactly the length of the longest dependency chain. |
| `TaskGraph.EarliestPossible` | docs/openshell-v2/validate_pack.py:2289-2295 | No schedule that respects the dependencies places a task earlier than its group. |
| `ReadyGroups.CheckLayering` | docs/openshell-v2/validate_pack.py:2286-2318 | The cycle verdict holds exactly when all tasks are grounded, the stored-group verdict exactly when the stored groups describe the graph, and invalid dependency lists switch both off with zero groups. |
| `ReadyGroups.CountIds` | docs/openshell-v2/validate_pack.py:2305-2309 | The counter maps each stored id, and no other, to how often it occurs. |
| `ReadyGroups.SameGroupsIffDescribes` | docs/openshell-v2/validate_pack.py:2299-2318 | Comparing group by group after sorting, with a repeat count, is the same as saying that group k holds each task of height k once and nothing else. |
| `ReadyGroups.LayeringDescribes` | docs/openshell-v2/validate_pack.py:2286-2295 | The computed groups themselves meet that description. |
| `ReadyGroups.DoneDecidesGrounded` | docs/openshell-v2/validate_pack.py:2296-2298 | Comparing the ids done with the ids known decides whether all tasks are grounded. |
| `ReadyGroups.RecomputeReadyGroups` | docs/openshell-v2/validate_assignment_fixtures.py:1258-1272 | The second implementation returns groups exactly for unique, grounded graphs, and then they are the layering and describe the graph; otherwise it raises. |
| `ReadyGroups.RaisesOnlyOnCyclesIff` | docs/openshell-v2/validate_assignment_fixtures.py:1258-1272 | Raising and having a cycle agree on a graph if and only if it has a cycle, or has unique ids and only known dependencies. |
| `ReadyGroups.RaisesOnRepeatedId` | docs/openshell-v2/validate_assignment_fixtures.py:1258-1272 | Two records with one id and no dependency: no cycle, and it raises. |
| `ReadyGroups.RaisesOnUnknownDependency` | docs/openshell-v2/validate_assignment_fixtures.py:1258-1272 | One task that depends on an unknown one: no cycle, and it raises. |
| `ReadyGroups.DeriveReadyGroupCount` | docs/openshell-v2/validate_assignment_fixtures.py:1046-1055 | The runner's own count equals the number of groups of the layering, and is zero on invalid dependency lists. |
| `Ordering.SortIsCanonical` | docs/openshell-v2/validate_pack.py:2310-2318 | Two id lists sort to the same list if and only if they are permutations of each other. |
| `Summary.SummaryIgnoresOrder` | docs/openshell-v2/validate_pack.py:669-676 | The summary depends on which statuses occur, not on their order. |
| `Summary.SummaryMeans` | docs/openshell-v2/validate_pack.py:669-676 | A summary is FAIL exactly when some status is, BLOCKED exactly when some status is and none is FAIL, PASS exactly when there are statuses and all of them are PASS. |
| `Summary.SummaryComposes` | docs/openshell-v2/validate_pack.py:669-676 | Summarising the summaries of non-empty groups equals summarising all statuses at once. |
| `Summary.SummaryComposesExactlyWhen` | docs/openshell-v2/validate_assignment_fixtures.py:1114-1121 | For arbitrary groups the two agree if and only if no group is empty, or no status is left, or some status is not PASS. |
| `Summary.EmptyGroupBreaksComposition` | docs/openshell-v2/validate_assignment_fixtures.py:1114-1121 | One passed group beside an empty one: NOT_RUN in two steps, PASS in one. |
| `StatusChecks.CheckRows` | docs/openshell-v2/validate_pack.py:2340-2373 | The row loop reports no error if and only if the rows are well formed, documented, without repeats and name exactly the owners; its dictionary then holds every row's status. |
| `StatusChecks.SummaryOf` | docs/openshell-v2/validate_pack.py:2374-2381 | Summarising the dictionary in sorted owner order gives the summary of the rows in file order. |
| `StatusChecks.CheckCase` | docs/openshell-v2/validate_pack.py:2332-2381 | One case has no assignment error exactly when its rows are exact, and its stored status is compared only then. |
| `StatusChecks.CheckAssignments` | docs/openshell-v2/validate_pack.py:2332-2386 | Over all cases: both error lists are empty exactly when every case is exact and every exact case carries its summary, and the dictionary of recorded results holds exactly the rows of exact cases. |
| `StatusChecks.RecordedValue` | docs/openshell-v2/validate_pack.py:2374-2386 | With distinct case ids no later case overwrites a recorded row. |
| `StatusChecks.OwnedRow` | docs/openshell-v2/validate_pack.py:2387-2438 | Every test case of a task has a row for that task, and the dictionary returns its status. |
| `StatusChecks.AcceptedIsConsistent` | docs/openshell-v2/validate_pack.py:2320-2440 | The per-task dictionary passes imply that each row's result is allowed by its task's status and dependencies. |
| `StatusChecks.ConsistentIsAccepted` | docs/openshell-v2/validate_pack.py:2320-2440 | A consistent board passes every dictionary check. |
| `StatusChecks.StatusVerdict` | docs/openshell-v2/validate_pack.py:2274-2447 | The whole status verdict, the reverse ownership map included, is true if and only if the board is consistent, for every board including malformed ones; `VerdictOverRecords` says what that is over the bare records. |
| `BoardTheorems.RecordedTaskIsComplete` | docs/openshell-v2/validate_pack.py:2387-2438 | On a consistent board a task with any result other than NOT_RUN has only passed direct dependencies. |
| `BoardTheorems.RecordedResultNeedsPassedDependencies` | docs/openshell-v2/validate_pack.py:2387-2438 | A recorded result implies that every transitive dependency has status PASS and that all of its rows, in every case, are PASS. |
| `BoardTheorems.ManifestIsFlatSummary` | docs/openshell-v2/validate_pack.py:2439-2440 | The manifest status of a consistent board is the summary of all rows of all cases taken together. |
| `BoardRecords.VerdictOverRecords` | docs/openshell-v2/validate_pack.py:2274-2447 | The checks accept a board if and only if its bare records fit together: distinct ids, begun tasks over passed dependencies only, one row per owner with a result the owner's status admits, and case and manifest statuses in the order FAIL, BLOCKED, unanimous PASS, NOT_RUN; no lookup, dictionary or summary is named. |
| `BoardRecords.GraphIff` | docs/openshell-v2/validate_pack.py:1887-1913 | The graph part alone: ids and dependency lists without repeats, documented statuses, known test cases, and only passed dependencies under every task that is neither NOT_STARTED nor BLOCKED; both directions. |
| `BoardRecords.StartedTaskHasPassedDependencies` | docs/openshell-v2/validate_pack.py:2274-2285 | On an accepted board every dependency of a task that is neither NOT_STARTED nor BLOCKED has passed. |
| `BoardRecords.ReadyOverUnfinishedRefused` | docs/openshell-v2/validate_pack.py:64 | A task that waits for an untouched one: the board is accepted while it is NOT_STARTED or BLOCKED and refused once it is READY, with nothing else wrong. |
| `TaskStates.Descendants` | docs/openshell-v2/validate_assignment_fixtures.py:1195-1204 | The worklist ends with exactly the tasks that have a dependency chain to a root, a root on a cycle included. |
| `TaskStates.VisitDependents` | docs/openshell-v2/validate_assignment_fixtures.py:1199-1204 | One popped entry keeps the worklist sound and fully visited except for what is still on the frontier. |
| `TaskStates.AssignStatuses` | docs/openshell-v2/validate_assignment_fixtures.py:1191-1193 | Assigning in any order changes the last record of each named id and no other. |
| `TaskStates.ResetAll` | docs/openshell-v2/validate_assignment_fixtures.py:1210-1216 | The case update succeeds exactly when every case it reaches has results it can read and every row names a task and, unless it is reset, has a status; it then writes NOT_RUN into the blocked rows and summarises each case anew. |
| `TaskStates.PackFiles.SetTaskStates` | docs/openshell-v2/validate_assignment_fixtures.py:1188-1216 | Both files end in the state of the value-level move; an unknown id changes nothing, results or a row it cannot read leave the graph written and the cases untouched. |
| `TaskStates.PassAll` | docs/openshell-v2/validate_assignment_fixtures.py:1141-1145 | Marking all cases succeeds exactly when every case it reaches has results it can loop over and every row is an object, and then every such case and row is PASS, a missing status being added. |
| `TaskStates.PackFiles.AllPass` | docs/openshell-v2/validate_assignment_fixtures.py:1275-1283 | Both files end in the all-PASS state with the runtime marker set, or only the graph file does when the case update raises. |
| `MoveOutcomes.MovedTaskIs` | docs/openshell-v2/validate_assignment_fixtures.py:1188-1208 | On any board, repeated ids included: a move sets the status of the last record of an id, to the explicit status or, along a dependency chain to an explicit non-PASS, to BLOCKED, and changes nothing else of any record. |
| `MoveOutcomes.MovedCaseIs` | docs/openshell-v2/validate_assignment_fixtures.py:1210-1216 | A move writes NOT_RUN into the rows of the tasks it holds up, keeps every other row, and gives each case the summary of its rows; records hidden by a later one are untouched. |
| `MoveOutcomes.AssignedLookup` | docs/openshell-v2/validate_assignment_fixtures.py:1191-1193 | Read back by id, an assignment gives each named id its new status and every other id its old one. |
| `MoveOutcomes.RowResettableIff` | docs/openshell-v2/validate_assignment_fixtures.py:1210-1216 | Which row shapes the update can read, shape by shape. |
| `MoveOutcomes.WithResultIs` | docs/openshell-v2/validate_assignment_fixtures.py:1141-1145 | A status is overwritten or added and no other key of the row is touched, shape by shape. |
| `MoveTheorems.MovedProgressWaitsIff` | docs/openshell-v2/validate_assignment_fixtures.py:1188-1208 | After moving an all-PASS graph, nothing in progress waits for an incomplete dependency if and only if no explicit progress is downstream of an explicit non-PASS and every task with an unknown dependency is held back. |
| `MoveTheorems.EarlyProgressShows` | docs/openshell-v2/validate_pack.py:2274-2285 | Explicit progress anywhere down a chain from an explicit non-PASS is caught, however long the chain. |
| `MoveTheorems.DownstreamIsIncomplete` | docs/openshell-v2/validate_assignment_fixtures.py:1195-1207 | Every task downstream of a non-PASS status has an incomplete dependency after the move. |
| `MoveTheorems.MovedRowAllowedIff` | docs/openshell-v2/validate_assignment_fixtures.py:1210-1216 | After the move a row fits its task's new status unless an explicit status forbids the PASS it kept. |
| `MoveTheorems.MovedConsistentIff` | docs/openshell-v2/validate_assignment_fixtures.py:1188-1216 | Moving a consistent all-PASS board gives a consistent board if and only if the requested statuses are documented, contain no early progress and forbid no kept PASS result. |
| `MoveTheorems.MoveLeavesStaleResult` | docs/openshell-v2/validate_assignment_fixtures.py:1188-1216 | One passed task moved to NOT_STARTED: the board was consistent and is not afterwards. |
| `MoveTheorems.AllPassedConsistentIff` | docs/openshell-v2/validate_assignment_fixtures.py:1275-1283 | Whenever passing everything does not raise, the result is consistent if and only if ids, dependencies, test cases and row owners are sound, whatever the statuses were and whether or not rows had one. |
| `MoveTheorems.PassThenMove` | docs/openshell-v2/validate_assignment_fixtures.py:1188-1283 | The two fixture steps in sequence: consistent if and only if the move is allowed. |
| `Report.Recorder.Record` | docs/openshell-v2/validate_pack.py:1784-1787 | The failures list stays the names of the failed checks in order. |
| `Report.RecordChecks` | docs/openshell-v2/validate_pack.py:1784-1795 | The checks recorded are the one on required files alone when a file is missing, and otherwise that one, all results and the inventory check; the failures are the names of the failed ones in order. |
| `Report.EmitReport` | docs/openshell-v2/validate_pack.py:2725-2767 | The report and exit code of every run, an exception included, are those of its emission, and the runner accepts them exactly when the run gave a reason, missed a file or recorded the canonical names. |
| `Report.InventoryCheckDecides` | docs/openshell-v2/validate_pack.py:2725-2730 | The last check passes if and only if all recorded names, its own included, are the inventory in order. |
| `ReportOutcomes.InventoryDetail` | docs/openshell-v2/validate_pack.py:2725-2730 | The inventory check passes exactly when the recorded names and its own make up the inventory; a failed one carries the inventory without its last entry under "expected" and the recorded names under "actual". |
| `ReportOutcomes.RaisedReads` | docs/openshell-v2/validate_pack.py:2749-2767 | The report of an exception: one failed check with the message, no counts, exit code 2. |
| `ReportOutcomes.MissingReads` | docs/openshell-v2/validate_pack.py:1789-1802 | The report of a run with a missing file: one failed check naming exactly the required files that are not there, no counts, exit code 1. |
| `ReportOutcomes.FullRunChecks` | docs/openshell-v2/validate_pack.py:1784-1795 | A run with all files records the check on them, every result in its place, and the inventory check. |
| `ReportOutcomes.FullReads` | docs/openshell-v2/validate_pack.py:2732-2745 | Its report: each check under its own name, verdict and detail, each count under its own key, passed and exit code 0 exactly when every check passed. |
| `ReportOutcomes.FailedAt` | docs/openshell-v2/validate_pack.py:1784-1787 | Each failed check is listed under its name, behind those that failed before it. |
| `ReportOutcomes.HeaderReads` | docs/openshell-v2/validate_pack.py:2732-2735 | Every report carries the fixed scope, the fixed list of what was not checked, and the initial flag. |
| `Report.CollectNames` | docs/openshell-v2/validate_assignment_fixtures.py:1361-1393 | The check list is found malformed exactly when it is empty, has an ill-formed entry or repeats a name; otherwise the names are returned in order. |
| `Report.InspectReport` | docs/openshell-v2/validate_assignment_fixtures.py:1286-1418 | The inspection reports no error if and only if the document and the exit code meet the acceptance predicate, for every JSON document. |
| `Report.AcceptableIsAccepted` | docs/openshell-v2/validate_assignment_fixtures.py:1286-1418 | Whatever carries canonical names, or a reason in one of the two short forms, is accepted with its exit code. |
| `Report.AcceptedIsRendered` | docs/openshell-v2/validate_assignment_fixtures.py:1286-1418 | Every accepted document is, field for field, the rendering of what can be parsed from it, with that exit code. |
| `Report.AcceptedIffAcceptable` | docs/openshell-v2/validate_assignment_fixtures.py:1286-1418 | A document is accepted if and only if it is the rendering of something that meets the checker's demands. |
| `Report.ParsedRender` | docs/openshell-v2/validate_assignment_fixtures.py:1286-1418 | Parsing a rendered report gives back what was rendered. |
| `Report.EmittedAcceptedIff` | docs/openshell-v2/validate_pack.py:2725-2767 | The report of a run is accepted if and only if its exception has a message, or a required file is missing, or its names are the inventory. |
| `Report.AcceptedEmittedIff` | docs/openshell-v2/validate_pack.py:1789-1802 | An accepted document is the report of some run if and only if its missing files are required ones in order, or its first check found all files and its last check passed without complaint, or it is an exception. |
| `Report.CheckerMatchesProducer` | docs/openshell-v2/validate_assignment_fixtures.py:1286-1418 | Accepted and of that form if and only if some run that meets the acceptance condition reports it, with that exit code: what producer and checker share, from both sides. |
| `Report.MisnamedRunRefused` | docs/openshell-v2/validate_pack.py:2725-2745 | A run with one stray check is reported and refused. |
| `Report.FailedInventoryAccepted` | docs/openshell-v2/validate_assignment_fixtures.py:1361-1418 | Canonical names with a failed inventory check are accepted, and no run reports them. |
| `Report.ForeignFileAccepted` | docs/openshell-v2/validate_assignment_fixtures.py:1349-1360 | A missing file outside the required list is accepted, and no run reports it. |
| `Report.FullReportAcceptedIff` | docs/openshell-v2/validate_assignment_fixtures.py:1361-1418 | A full report is accepted if and only if its check names are the inventory, in order. |
| `Report.EmptyMessageRefused` | docs/openshell-v2/validate_assignment_fixtures.py:1361-1379 | The input-error report with an empty message is refused under every exit code and inventory. |
| `Normalize.SetExisting` | docs/openshell-v2/validate_assignment_fixtures.py:978-985 | An existing field gets the target value and a missing one is not created; the log entry records the old and new value, and none is written when nothing changed. |
| `Normalize.NormalizeTasks` | docs/openshell-v2/validate_assignment_fixtures.py:987-992 | The task pass resets every record with a status and its log replays to the result. |
| `Normalize.NormalizeMarker` | docs/openshell-v2/validate_assignment_fixtures.py:993-999 | A marker that is exactly true becomes false, any other value stays, and the log replays. |
| `Normalize.NormalizeCases` | docs/openshell-v2/validate_assignment_fixtures.py:1002-1016 | The nested case and row pass resets every status and its log replays to the result; `NormalizedIsTheReset` says field by field what that result is. |
| `Normalize.NormalizeStatusFields` | docs/openshell-v2/validate_assignment_fixtures.py:960-1019 | Both documents are normalized (field by field: `NormalizedIsTheReset`), the log replays from the old documents to the new, and the log is empty exactly when the documents were already normalized. |
| `Normalize.ReplayConcat` | docs/openshell-v2/validate_assignment_fixtures.py:960-1019 | Logs of consecutive passes join into one log of the whole. |
| `NormalizeTheorems.NormalizeIdempotent` | docs/openshell-v2/validate_assignment_fixtures.py:960-1019 | Normalizing twice equals normalizing once, for arbitrary JSON. |
| `NormalizeTheorems.NormalizedIsTheReset` | docs/openshell-v2/validate_assignment_fixtures.py:960-1019 | The normalized documents are the only ones that differ from the originals as follows: every task, case, row and manifest status that exists has its target value, a marker that was true is false, and every other key of every root, task, case and row, and every list length, is as it was. |
| `NormalizeTheorems.ProjectionsKept` | docs/openshell-v2/validate_pack.py:1505-1521 | The three projections that are hashed for custody are untouched by normalization. |
| `NormalizeTheorems.ProjectionsSee` | docs/openshell-v2/validate_pack.py:1505-1514 | Two packs have the same task projection exactly when their tasks agree in every key but the status, and the same case projection exactly when their cases agree in every key but the status and the rows. |
| `NormalizeTheorems.NormalizedPassesInitialIff` | docs/openshell-v2/validate_pack.py:2701-2723 | A normalized pack passes the initial-state checks if and only if the original had every status field, list and Boolean marker to reset. |
| `Traceability.SectionsPartition` | docs/openshell-v2/validate_pack.py:2560-2568 | From the first heading on, every line lies in exactly one section. |
| `Traceability.BeforeFirstHeading` | docs/openshell-v2/validate_pack.py:2560-2568 | Lines before the first heading lie in none. |
| `Traceability.SectionsStartAtHeadings` | docs/openshell-v2/validate_pack.py:2560-2568 | Sections start at the level-one and level-two headings and nowhere else, and none is empty. |
| `Traceability.SectionsReadHeadings` | docs/openshell-v2/validate_pack.py:2560-2568 | A section is called what its first line says after one or two hashes and a space. |
| `Traceability.RangeErrors` | docs/openshell-v2/validate_pack.py:2574-2589 | No range error if and only if the manifest lists the sections of the file, one for one. |
| `Traceability.CitationErrors` | docs/openshell-v2/validate_pack.py:2590-2610 | No citation error if and only if every section a citation overlaps has an entry that lists the citing task. |
| `Traceability.AcceptedIsTraced` | docs/openshell-v2/validate_pack.py:2590-2610 | With distinct headings, acceptance means that every section covering a cited line lists the citing task in its own entry. |
| `Traceability.AcceptedIff` | docs/openshell-v2/validate_pack.py:2574-2610 | With distinct headings, acceptance holds if and only if the entries are the sections in order and the entry of every section that a cited range touches lists the citing task. |
| `Traceability.CitedLineHasOneOwnerSection` | docs/openshell-v2/validate_pack.py:2560-2610 | Each cited line after the first heading then has exactly one section, and that section's entry lists the citing task. |
| `Traceability.RepeatedHeadingHidesSection` | docs/openshell-v2/validate_pack.py:2590-2610 | For every file with a repeated heading there is a manifest and a citation that pass although the cited section does not list the citing task. |
| `Subagents.RangeExpands` | docs/openshell-v2/validate_pack.py:1391-1399 | An id is in the expansion of an ascending range if and only if it is the prefix and two decimal digits whose number lies between the ends; each such id occurs once. |
| `Subagents.ReadTable` | docs/openshell-v2/validate_pack.py:1379-1402 | No reading error if and only if every line is well formed, ascending, and no owner repeats; the rows then hold each line's expanded ids. |
| `Subagents.GroupByOwner` | docs/openshell-v2/validate_pack.py:1404-1411 | The expected groups are exactly the ids each owner has in the graph, in graph order. |
| `Subagents.CompareOwners` | docs/openshell-v2/validate_pack.py:1412-1420 | No mismatch if and only if each owner's listed ids are a permutation of the owned ids. |
| `Subagents.UnknownErrors` | docs/openshell-v2/validate_pack.py:1414-1423 | No unknown-id error if and only if every listed id is in the graph. |
| `Subagents.AssignmentErrors` | docs/openshell-v2/validate_pack.py:1373-1424 | The whole table check passes if and only if the header is right, the table is sound and it matches the owners; `AcceptedIffLinesFit` says what that is in characters. |
| `Subagents.AcceptedIffAssignsEachOnce` | docs/openshell-v2/validate_pack.py:1373-1424 | A sound table matches if and only if it assigns every task of the graph exactly once, on its owner's line, and nothing else. |
| `Subagents.AcceptedIffLinesFit` | docs/openshell-v2/validate_pack.py:1379-1424 | With unique task ids, a table is sound and matches if and only if owners differ from line to line, every owner of the graph has a line, no range descends, no id is named by two tokens of a line, and the ids a line names, read digit by digit, are exactly those of its owner's tasks. |
| `FixtureInventory.PassesIffPermutation` | docs/openshell-v2/validate_assignment_fixtures.py:819-863 | The inventory report passes if and only if the fixed names are distinct and counted right and the observed list is a permutation of them, with no non-string entry. |
| `FixtureInventory.NamesPassIff` | docs/openshell-v2/validate_assignment_fixtures.py:819-863 | When every observed entry is a name, the report passes if and only if those names are the fixed list in some order, the list being distinct and counted right. |
| `PresentationStore.PresentationStore.IssueRequest` | native/Sources/JackinUsageBridge/PresentationStore+Projection.swift:10-13 | A request gets the next number, wrapping at 2^64, and nothing else changes. |
| `PresentationStore.PresentationStore.Apply` | native/Sources/JackinUsageBridge/PresentationStore+Projection.swift:25-60 | A refused answer leaves no trace; an accepted one is on screen, with selections, popover and rows settled against it (`AnswerSettlesSelections`, `BarRowsFollowShown`); the selections stay valid either way. |
| `PresentationStore.PresentationStore.UpdateExpansion` | native/Sources/JackinUsageBridge/PresentationStore+Projection.swift:50-53 | For every id: expanded afterwards if and only if a provider has it and it was either unknown before or already expanded. |
| `PresentationStore.PresentationStore.ReconcileSelections` | native/Sources/JackinUsageBridge/PresentationStore+Projection.swift:281-306 | The three selections, and no other field, are brought in line with the projection; which of them survive is `AnswerSettlesSelections`. |
| `PresentationStore.PresentationStore.RefreshVisibleStatusRows` | native/Sources/JackinUsageBridge/PresentationStore+Projection.swift:313-324 | The visible rows, and no other field, are recomputed for the display mode. |
| `PresentationStore.PresentationStore.RetainLastGood` | native/Sources/JackinUsageBridge/PresentationStore+Projection.swift:101-104 | A failed request may set the error and nothing else, and only when no newer answer was accepted. |
| `PresentationStore.PresentationStore.SelectUsageContext` | native/Sources/JackinUsageBridge/PresentationStore.swift:270-283 | A navigable surface is selected with the given account; anything else clears both. |
| `PresentationStore.PresentationStore.RecordUsageAccountSelection` | native/Sources/JackinUsageBridge/PresentationStore.swift:285-288 | An account is recorded only for the surface that is selected. |
| `PresentationStore.PresentationStore.SetStrip` | native/Sources/JackinUsageBridge/PresentationStore.swift:50-62 | The strip size is clamped to the chip limit, and a request is asked for exactly when the store is open and the observer gets past the clamp. |
| `PresentationStore.PresentationStore.BeginOpen` | native/Sources/JackinUsageBridge/PresentationStore+Runtime.swift:43-44 | Opening starts exactly when the store is neither open nor opening. |
| `PresentationStore.StoreShowsLastAccepted` | native/Sources/JackinUsageBridge/PresentationStore+Projection.swift:25-60 | After every run the store shows exactly the last accepted projection, with its request and generation; acceptance is defined on the run alone. |
| `PresentationStore.AcceptedNeverGoesBack` | native/Sources/JackinUsageBridge/PresentationStore+Projection.swift:26-30 | Accepted requests and generations never decrease along a run. |
| `PresentationStore.StaleAnswersChangeNothing` | native/Sources/JackinUsageBridge/PresentationStore+Projection.swift:26-28 | In every run, an answer older in number or generation than any accepted one leaves the whole state alone, and so does a failure of an older request; other failures touch the error alone. |
| `PresentationStore.NewestWins` | native/Sources/JackinUsageBridge/PresentationStore+Projection.swift:25-60 | An answer newest in request and generation, with no other equal in both, is the last accepted one, wherever it arrives in the run. |
| `PresentationStore.OrderDoesNotMatter` | native/Sources/JackinUsageBridge/PresentationStore+Projection.swift:10-60 | Two runs with the same answers in any order end on the same projection when one of them is newest. |
| `PresentationStore.OrderDoesNotMatterIff` | native/Sources/JackinUsageBridge/PresentationStore+Projection.swift:25-30 | All orders of a set of answers end on the same projection if and only if one of the answers is newest in that sense. |
| `PresentationStore.CrossedAnswersOrderMatters` | native/Sources/JackinUsageBridge/PresentationStore+Projection.swift:25-30 | Two answers, each newer than the other in one respect: the order decides. |
| `PresentationStore.CounterCountsIssues` | native/Sources/JackinUsageBridge/PresentationStore+Projection.swift:12-13 | In every run the counter is the number of requests issued, modulo 2^64. |
| `PresentationStore.NewestRequestAcceptedIff` | native/Sources/JackinUsageBridge/PresentationStore+Projection.swift:10-30 | In every run, without bound, the answer to the newest request is accepted if and only if its generation is no older than the one on screen and its wrapped number is no smaller than the last accepted number. |
| `PresentationStore.RequestsBounded` | native/Sources/JackinUsageBridge/PresentationStore+Projection.swift:10-30 | While fewer than 2^64 requests were issued, the counter counts them and no accepted number exceeds it. |
| `PresentationStore.NewestRequestNotShutOut` | native/Sources/JackinUsageBridge/PresentationStore+Projection.swift:26-28 | The answer to the newest request is then refused only for an older generation. |
| `PresentationStore.WrappedRequestIsShutOut` | native/Sources/JackinUsageBridge/PresentationStore+Projection.swift:12-28 | A run of 2^64 requests with one accepted answer: request 0 is refused whatever it carries, and the one after it is accepted. |
| `PresentationStore.SelectionsAlwaysValid` | native/Sources/JackinUsageBridge/PresentationStore+Projection.swift:281-306 | In every reachable state, openings and shutdowns included, the selected surface is navigable, an account is selected only with a surface, and the strip size is in range. |
| `PresentationStore.AcceptedSettles` | native/Sources/JackinUsageBridge/PresentationStore+Projection.swift:281-324 | Right after an acceptance the selected account belongs to the selected surface, the popover names a listed provider and the rows are those of the mode. |
| `PresentationStore.StatusRowsFromShown` | native/Sources/JackinUsageBridge/PresentationStore+Projection.swift:313-324 | In every reachable state the visible rows are the mode's cut of the shown projection, at the strip size in force when they were last recomputed. |
| `PresentationStore.ExpansionFollowsProviders` | native/Sources/JackinUsageBridge/PresentationStore+Projection.swift:50-53 | After an accepted answer a provider is expanded if and only if it is listed and was either new or already expanded. |
| `StoreOutcomes.AcceptedIffNoneNewer` | native/Sources/JackinUsageBridge/PresentationStore+Projection.swift:26-30 | In every run an answer is accepted if and only if no answer accepted before it has a larger number or a larger generation; one equal to the last in both is accepted. |
| `StoreOutcomes.AnswerSettlesSelections` | native/Sources/JackinUsageBridge/PresentationStore+Projection.swift:281-306 | After any run and an accepted answer: surface and account stay when the projection has a glance for the surface, enables it and lists the account; with the account gone the surface alone stays exactly when its first group is unavailable; otherwise both are cleared; the popover stays on a listed provider or moves to the first glance. |
| `StoreOutcomes.SelectionKeptIff` | native/Sources/JackinUsageBridge/PresentationStore+Projection.swift:281-306 | Nothing of the usage selection moves if and only if nothing was selected, or the surface is offered and the account, if any, is listed under it. |
| `StoreOutcomes.ExpandedIff` | native/Sources/JackinUsageBridge/PresentationStore+Projection.swift:50-53 | After any run and an accepted answer, a provider is expanded if and only if the projection has a group for it and it was either not on screen or expanded. |
| `StoreOutcomes.BarRowsFollowShown` | native/Sources/JackinUsageBridge/PresentationStore+Projection.swift:313-324 | After every run the rows are none, the first status row, the glances of the pinned surface in their order, or the first status rows up to the strip size, according to the mode, out of the last accepted projection. |
| `StoreOutcomes.ChoiceTakenIffOffered` | native/Sources/JackinUsageBridge/PresentationStore.swift:270-283 | After any run a choice is taken exactly when the projection on screen has a glance for the surface and enables it; otherwise nothing is selected. |
| `StoreOutcomes.LateAccountIgnored` | native/Sources/JackinUsageBridge/PresentationStore.swift:285-288 | A recorded account reaches the selection exactly when its surface is still the selected one. |
| `StoreOutcomes.OnlyChoicesMoveSelection` | native/Sources/JackinUsageBridge/PresentationStore.swift:270-288 | No other event moves the usage selection, and popover, expansion, mode and pinned surface change only by their own events. |
| `StoreOutcomes.ErrorFollowsEvents` | native/Sources/JackinUsageBridge/PresentationStore+Projection.swift:101-104 | What each event of a run does to the error text, with acceptance and staleness judged on the events alone. |
| `StoreOutcomes.ErrorClearedOnlyBy` | native/Sources/JackinUsageBridge/PresentationStore+Projection.swift:25-60 | An error on display is cleared only by an accepted answer without an error or by a successful opening. |
| `StoreOutcomes.NeverOpenAndOpening` | native/Sources/JackinUsageBridge/PresentationStore+Runtime.swift:43-68 | In no run is the store open and opening at once. |
| `StoreOutcomes.OpenIffOpenedLast` | native/Sources/JackinUsageBridge/PresentationStore+Runtime.swift:43-68 | The store is open exactly when the last opening, failure or shutdown of the run was a successful opening. |
| `StoreOutcomes.OpeningIffPending` | native/Sources/JackinUsageBridge/PresentationStore+Runtime.swift:43-68 | It is opening exactly when an open found it closed and neither an answer of the runtime nor a shutdown came since. |
| `StatusBar.StatusBarController.ApplyRowIds` | native/Sources/JackinDesktop/StatusBarController.swift:61-82 | One application of rows follows the transition function and leaves the bar in step with the rows. |
| `StatusBar.StatusBarController.RemoveProviderItem` | native/Sources/JackinDesktop/StatusBarController.swift:148-156 | The provider's item disappears from the bar, its monitor is released and a popover anchored on it closes. |
| `StatusBar.StatusBarController.RemoveProviderItems` | native/Sources/JackinDesktop/StatusBarController.swift:158-162 | Removing one by one, in any order, equals removing the whole set. |
| `StatusBar.StatusBarController.RemoveFallbackItem` | native/Sources/JackinDesktop/StatusBarController.swift:164-173 | The fallback item goes away with its monitor and anchor; without one nothing changes. |
| `StatusBar.StatusBarController.EnsureFallbackItem` | native/Sources/JackinDesktop/StatusBarController.swift:118-138 | At most one fallback item is ever created. |
| `StatusBar.StatusBarController.EnsureProviderItem` | native/Sources/JackinDesktop/StatusBarController.swift:77-98 | An existing item is reused and a missing one is appended to the bar with a monitor. |
| `StatusBar.StatusBarController.ClickTarget` | native/Sources/JackinDesktop/StatusBarController.swift:213-233 | The lookup finds the provider owning the clicked item, and finds one exactly when there is one. |
| `StatusBar.StatusBarController.TogglePopover` | native/Sources/JackinDesktop/StatusBarController.swift:235-256 | A click follows the transition function and keeps the bar wired; what it closes and opens is `ClickAnchoredCloses` and `ClickElsewhereMoves`. |
| `StatusBar.StatusBarController.Invalidate` | native/Sources/JackinDesktop/StatusBarController.swift:324-335 | No item, monitor, anchor or popover is left. |
| `StatusBar.BarAlwaysInSync` | native/Sources/JackinDesktop/StatusBarController.swift:61-173 | After every run of row updates and clicks, each live item has one owner and one monitor, and the bar shows the last applied rows in order without repeats, or only the fallback when they were empty. |
| `StatusBar.ApplySyncs` | native/Sources/JackinDesktop/StatusBarController.swift:61-82 | From any reachable bar one update suffices to be in step. |
| `StatusBar.ApplySameRowsIsNoOp` | native/Sources/JackinDesktop/StatusBarController.swift:61-82 | Applying the same rows again creates, removes and moves nothing. |
| `StatusBar.SameOrderRemovesNothing` | native/Sources/JackinDesktop/StatusBarController.swift:69-75 | When the order is unchanged the pruning branch never removes a provider item. |
| `StatusBar.RemoveKeysTwice` | native/Sources/JackinDesktop/StatusBarController.swift:158-162 | Two removals compose to the removal of the union. |
| `StatusBar.ClickFocusesItsRow` | native/Sources/JackinUsageBridge/StatusPopoverFocus.swift:6-33 | A click on a provider's item opens the popover on that item, focused on that provider, or on the overview for an empty id. |
| `StatusBar.ClickFallbackShowsOverview` | native/Sources/JackinUsageBridge/StatusPopoverFocus.swift:6-33 | A click on the fallback item opens the overview. |
| `BarOutcomes.ClickAnchoredCloses` | native/Sources/JackinDesktop/StatusBarController.swift:235-240 | A click on the item an open popover hangs on closes it, drops the anchor and touches nothing else. |
| `BarOutcomes.ClickElsewhereMoves` | native/Sources/JackinDesktop/StatusBarController.swift:241-256 | A click on any other item opens the popover there, also while it is open elsewhere, and changes only anchor and focus. |
| `BarOutcomes.SecondClickReverses` | native/Sources/JackinDesktop/StatusBarController.swift:235-256 | A second click on the same item reverses what the first one left. |
| `BarOutcomes.OtherClosings` | native/Sources/JackinDesktop/StatusBarController.swift:40-46 | Opening the usage window closes the popover and drops the anchor; a popover the system hid is opened again by a click on any item, the anchored one included. |
| `BarOutcomes.PopoverSurvivesIff` | native/Sources/JackinDesktop/StatusBarController.swift:61-173 | An update of the rows leaves an open popover open if and only if it hangs on the fallback and there are no rows, or on a provider's item and the rows are unchanged; its focus stays either way. |
| `BarOutcomes.ItemsFollowRows` | native/Sources/JackinDesktop/StatusBarController.swift:61-98 | After every run the items of the last rows stand in the order in which the rows first name them. |
| `WorkerPool.ClaimsAlwaysExact` | docs/scripts/prerender-static.ts:73-84 | Under every interleaving, each path below the cursor is held by one worker or fetched once, and no path beyond it is touched. |
| `WorkerPool.StartIsExact` | docs/scripts/prerender-static.ts:73-84 | The pool starts with nothing claimed or fetched, and with as many idle workers as the limit and the paths allow. |
| `WorkerPool.AllFetchedOnce` | docs/scripts/prerender-static.ts:73-84 | When all workers have stopped without an error, every path was fetched exactly once. |
| `WorkerPool.SurvivorsCoverTheRest` | docs/scripts/prerender-static.ts:73-84 | When some worker survives, exactly the paths on which another worker threw are missing. |
| `WorkerPool.FinishedMeansExhausted` | docs/scripts/prerender-static.ts:77-79 | Once a worker has finished normally, the cursor stays at the end. |
| `WorkerPool.RunsAreBounded` | docs/scripts/prerender-static.ts:73-84 | Every run is no longer than a bound fixed by its start. |
| `WorkerPool.NeverStuck` | docs/scripts/prerender-static.ts:73-84 | A pool that has not stopped always has a step to take. |
| `Favicon.WriteHeader` | docs/scripts/gen-brand.ts:223-228 | The six header bytes written in place are reserved zero, type one and the image count, little-endian. |
| `Favicon.WriteEntry` | docs/scripts/gen-brand.ts:229-238 | The sixteen entry bytes written in place carry width, planes, bit depth, size and offset, little-endian. |
| `Favicon.FaviconIco` | docs/scripts/gen-brand.ts:223-241 | The file is written exactly when all values fit their fields, and is then the encoding of the images. |
| `Favicon.ReadBack` | docs/scripts/gen-brand.ts:223-241 | Reading the container by its own header and directory gives back the number of images and each image. |
| `Favicon.StoredEntry` | docs/scripts/gen-brand.ts:229-238 | Each directory entry states its image's length and offset. |
| `Favicon.HeaderBytes` | docs/scripts/gen-brand.ts:223-228 | The six header bytes, one by one. |
| `Favicon.EntryBytes` | docs/scripts/gen-brand.ts:229-238 | Each directory entry byte by byte: no palette, one plane, 32 bits, then length and offset with the lowest byte first. |
| `Favicon.ImagesTile` | docs/scripts/gen-brand.ts:223-241 | The images follow the directory without gap or overlap and end with the file. |
| `Favicon.WidthReadBackIff` | docs/scripts/gen-brand.ts:229-232 | The stored width reads back as the image's width if and only if that width is not 0. |
| `Favicon.ZeroWidthReadsAs256` | docs/scripts/gen-brand.ts:229-232 | Twenty zero bytes are written without complaint and read back as 256 wide. |
| `Favicon.HeightReadBackIff` | docs/scripts/gen-brand.ts:230-232 | The stored height reads back as the image's height if and only if the height equals the width, or the width is 0 and the height 256. |
| `Favicon.TallImageReadsAsSquare` | docs/scripts/gen-brand.ts:230-232 | An image 16 wide and 32 high reads back as 16 high. |
| `MdxEscape.EscapeNext` | docs/scripts/gen-crate-pages.ts:133-168 | One loop step consumes and emits exactly the next piece of the line; `EscapedIffWritten` says in characters what that is. |
| `MdxEscape.EscapeProseLine` | docs/scripts/gen-crate-pages.ts:133-168 | The scanning loop emits the escaped form of the line's unique cut into pieces, the one text that the rules of `EscapedIffWritten` write. |
| `MdxEscape.EscapeOutsideFences` | docs/scripts/gen-crate-pages.ts:114-131 | The output has the same lines as the input; fences and fenced lines are unchanged and every other line is escaped (`OutputByFences`, `EscapedIffWritten`), and such a line has live syntax only in copied spans exactly when no other brace came escaped. |
| `MdxEscape.CutCoversLine` | docs/scripts/gen-crate-pages.ts:133-168 | Every position of the line lies in exactly one piece: nothing is lost or duplicated. |
| `MdxRecovery.EscapedIffWritten` | docs/scripts/gen-crate-pages.ts:133-168 | A text is the output for a line if and only if some cut of the line writes it, where an opening brace is written with a backslash, `<` as `&lt;` unless a listed prefix stands there and a `>` follows, in which case everything up to that `>` is copied, and any other character as itself. |
| `MdxRecovery.LineRecovered` | docs/scripts/gen-crate-pages.ts:133-168 | Turning each written backslash-brace and `&lt;` back gives the line: nothing is lost. |
| `MdxRecovery.CharOnLine` | docs/scripts/gen-crate-pages.ts:136-168 | Every character outside the copied spans comes out by itself at some position: a brace as backslash-brace, `<` as the four characters `&lt;`, any other as it is. |
| `MdxRecovery.CopiedIff` | docs/scripts/gen-crate-pages.ts:143-159 | A position is copied exactly when its piece starts with `<`, a listed prefix stands there and a `>` follows. |
| `MdxRecovery.OutputByFences` | docs/scripts/gen-crate-pages.ts:114-131 | A line is escaped if and only if it is no fence marker and an even number of markers stands above it. |
| `MdxRecovery.FenceIff` | docs/scripts/gen-crate-pages.ts:119 | A marker is white space and then three backticks. |
| `MdxEscape.OnlySpansOpen` | docs/scripts/gen-crate-pages.ts:133-168 | Whatever the line, outside the copied spans of its output there is no `<`, and a backslash precedes every opening brace. |
| `MdxEscape.OnlySpansLiveIff` | docs/scripts/gen-crate-pages.ts:133-168 | Only copied spans of the output are live if and only if every other opening brace of the line has an even number of backslashes before it. |
| `MdxEscape.BraceOnLine` | docs/scripts/gen-crate-pages.ts:136-142 | Every opening brace outside the copied spans comes out at some position, live there exactly when an odd number of backslashes precedes it in the line. |
| `MdxEscape.CopiedSpansAreListed` | docs/scripts/gen-crate-pages.ts:143-159 | What is copied starts with a listed prefix and ends at the first `>` after it. |
| `MdxEscape.CopiedSpanNamesListedIff` | docs/scripts/gen-crate-pages.ts:145-152 | A copied span names a listed component if and only if the character after a matched prefix ends the name, for any choice of name characters. |
| `MdxEscape.LongerNameIsCopied` | docs/scripts/gen-crate-pages.ts:145-152 | `<Asides>` is copied unchanged and names no listed component. |
| `MdxEscape.CopiedSpanCompleteIff` | docs/scripts/gen-crate-pages.ts:153-158 | A copied span is the whole tag if and only if no quote or brace is open before its `>`. |
| `MdxEscape.CutTagIsDamaged` | docs/scripts/gen-crate-pages.ts:153-158 | `<Aside a={b>{}}/>` is cut inside its expression and comes out with a brace escaped. |
| `MdxEscape.AlreadyEscapedBraceComesOutLive` | docs/scripts/gen-crate-pages.ts:133-168 | The input backslash-brace is the counterexample. |
| `MdxEscape.SplitJoin` | docs/scripts/gen-crate-pages.ts:114-131 | Splitting the joined lines gives the lines back. |
| `MdxEscape.JoinSplit` | docs/scripts/gen-crate-pages.ts:114-131 | Joining the split text gives the text back. |

## Left out

- File reading and writing, path custody, JSON parsing with duplicate-key detection, SHA-256 digests: the model starts from parsed values. Ids and statuses are strings; entries of other types are not modelled.
- The literal-phrase contracts, Markdown extraction and regular expressions of the validator: they compare file texts with fixed phrases and have no state or structure in common with the checks modelled here.
- Order and wording of error lists: the checks are modelled by when they are empty. The `stdout` parsing branches and the plain-text output mode of the report inspection are not part of this model.
- The counts of the report other than ready groups, and the live runtime-marker check of the status pass.
- Log paths of the normalizer are structured positions, not their rendered strings. The JSON documents it mutates in place are modelled as values that the methods return, so aliasing between sub-documents is not captured.
- Report.EmitReport: the list of required files and the ordinary check names are parameters, not the fixed lists of the source; the results between the first and the last check of a run, and the messages of exceptions, are arbitrary; which of them the validator produces for which pack is not modelled. In particular it is open whether an exception can have an empty message, whose report is refused (`EmptyMessageRefused`).
- MdxEscape.OnlySpansLiveIff: `Live` covers `<` and `{` in running text; lines that MDX reads as `import` or `export` statements are not told apart, and characters inside inline code count as live although MDX leaves them alone.
- StatusBar.StatusBarController.TogglePopover: does not model activation, scrolling or the automation popover and compact mode.
- PresentationStore.PresentationStore.Apply: copies of labels, diagnostics and display fields that no later decision reads are not part of the state; duplicate provider ids, on which the source traps, are not modelled.
- PresentationStore.PresentationStore.SetStrip: whether Swift runs the observer again for the clamped assignment inside it is a parameter, and the stored preference is not modelled.
- MdxEscape.CopiedSpanCompleteIff: template literals are read as plain strings, and comments and regular expressions inside an expression are not told apart from code.
- Refresh scheduling, polling, the remaining preferences, fixture and visual-QA modes, AppKit and SwiftUI views.
- The Rust crates (launcher, capsule, usage scheduler) and the rest of the documentation site.
