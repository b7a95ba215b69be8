# Simian: verified models

Simian injects faults into a Kubernetes arena, remembers every fault it started until it is gone, plans and
runs attack cycles, and scores the agents that watch. This project models the parts whose promises span many
functions or many goroutines, and proves those promises. Everything is checked by Dafny's verifier; the models
are not connected to the running program.

## What is modelled

**Fault lifecycle.** `Lifecycle` is a state machine over interleaved atomic steps: `Executor.Apply`, `Clear`,
`abandon` and `Reaper.Sweep`, over the executor's booking counters, the lease registry, the engine's objects and
the audit trail. A step is one mutex-guarded section, one driver call or one emitted event, so `Register` and the
release of the slot are separate steps, and the registry is counted in one step and the slot booked in another.
`Slots` and `Leases` hold the executor's and the registry's own methods; the machine moves by the same functions
their contracts are stated with. `LifecycleCap`, `LifecycleCooldown`, `LifecycleIdentity`, `LifecycleLeaks`,
`LifecycleTrail`, `LifecycleTimes` and `LifecycleProgress` each prove one family of facts about every run.

**Audit trail and restart.** `AuditTrail` is the fold of records into one row per fault; `RowReading` says what each
field of a row means in terms of the fault's own records, without the fold. `Restart` is what a new
controller does with an old trail, and `RestartRecovery` what refolding the trail shows afterwards. The trail a new
controller reads is what rotation kept of the old one: `Retention` relates the two, `Restarts` says which leases a
process that stopped at any moment hands on through it and what only the cluster's listing can bring back, and
`Succession` chains processes, so that what holds in every run holds across any number of restarts. `LifecycleOrder` is
what that needs of the order of a fault's records: while its object exists, none that ends it comes before its
announcement.

**Plans.** `PlanGraph` is the theory of dependency chains, cycles and peeled layers; `Planner` is the layering and
the validation as the planner's loops run them. `PlanExecution` runs the layers as a second state machine (the
loop's goroutine, one goroutine per submitted step, a semaphore per layer), with the sliding window of `Refusals`;
`PlanCompletion` shows that each run ends, and who was submitted by then. `RefusalRecovery` follows the refusals
through a restart: from the trail, through the history's ring, into the window; `AsSubmitted` tells from the records
which refusals come back, and that they come back as submitted. `HistoryRecovery` does the same for the
faults that ran, and holds what the planner is told against what the take-over adopts; `AsApplied` tells from the
records which those are.

**Selector scoping.** `Selectors` finds the selector-shaped nodes of an arbitrary JSON tree, and `SelectorPaths` says
which those are by the paths that lead to them; `Narrowing` shows that
writing into the nodes found beforehand, one by one, leaves the tree a simple recursive function describes;
`NamespaceScope` and `PodScope` are the two checks that run on it.

**Locks, folds and bounded stores.** `ScenarioLocks` is the harness's semaphore, read-write lock and namespace locks;
`Cycles` and `EvalEvidence` are the other two folds over records, and `CycleReading` tells a namespace's cycles from its
records alone; `DwellGate` is the polling gate; `Rings`, `History`
and `FileAudit` are the bounded stores. `Ordering` holds the sorted-walk and stable-sort facts they share, and
`Vocabulary` the values they all use.

## Assumptions

- Fault UIDs are fresh: the executor mints one only when the manifest has none (pkg/executor/executor.go:139), and
  `Register` overwrites on a repeated UID (pkg/lease/registry.go:65).
- The clock is monotone, times are whole nanoseconds, and the zero time means "never".
- A spec is a tree: no node hangs in two places. `driver.Clear` answering without an error means the engine's object
  is gone. Nothing is assumed about the engine's own identifiers: they may repeat.
- A deadline in a record is what its text parses to, if it parses. That text has no fraction of a second, so the record
  of a deadline is the whole second it lies in (`Vocabulary.WholeSecond`). Audit payloads are modelled by the decoded
  fields the folds read.
- Across a restart the trail is read as its retained end: rotation may let go of any front of it
  (`Retention.RotationKeepsTheEnd`), but each line was written whole.
- Eligibility and exclusion lookups answer the same way throughout one check, or fail.
- The library sort used by the source is stable where the source asks for a stable one; for sorts by distinct keys it
  makes no difference.

## What turned out false, and exactly when it holds

- A fault that was let through by both scoping checks spares every excluded workload except in one gap: the main
  selector picks no particular pods, the targets' labels are unknown or disagree, and the selector names, beside the
  targets, a namespace with excluded workloads (or targets name workloads and no resolver is configured).
  `PodScope.SparedUnlessGap` states both directions, `PodScope.GapExample` is an input, and
  `PodScope.ScopedThenNarrowedSparesExcluded` is the result for selectors that name only targets.
- `History`'s index does not always know the faults in the ring. After any pushes it is exact if and only if no fault
  in the ring has an entry gone from it that was pushed fewer than a ring's length before its newest one
  (`History.IndexIsExactWhen`; `History.PushKeepsIndexExact` for one push). `History.ForgottenWhileRemembered` is an
  input where a fault is forgotten while an entry of it is still in the ring, and `History.DistinctFaultsAreIndexed` the
  result for faults pushed once each, which is what a start-up pushes (`HistoryRecovery.RecoverHistory`).
- A restart does not keep every lease. Of its own leases the next process adopts exactly those whose announcement
  rotation kept, that a lease can be rebuilt from, and whose deadline, which the trail has to the second, lies ahead
  (`Restarts.RestartRestoresLeases`). `Restarts.LeaseLostToRotation` is a lease whose announcement two later records
  rotate away.
- A restart may take over a fault that is gone: one cleared between its registration and its announcement, where
  rotation lets go of the closing record and keeps the announcement. `Restarts.ClearedYetTakenOver` is such a trail, and
  `Restarts.RestartAdoptsOnlyLeases` has an adopted fault still applied and open on the whole trail if and only if
  nothing rotation let go of had closed it.
- The repeated-refusal count does not always survive a restart. The trail gives back the refusals that a later run had
  forgiven, and counts against a step what anybody else was refused of the same kind, targets and spec. It lacks a
  refusal at the window's edge, which is older on the trail than by the loop's clock, and one it does not show as a
  refusal of the step: an interrupted confirmation (`RefusalRecovery.InterruptedIsNotOnTrail`), a fault the driver would
  not take back (`RefusalRecovery.LeftToReaperIsNotOnTrail`), and a call whose submission or end rotation let go of.
  `RefusalRecovery.TrailAgainstLoop` has it to the number: the two counts are equal if and only if the forgiven and the
  foreign refusals are as many as those lacking; where nothing is lacking or foreign, if and only if no refusal in the
  window was followed by a run that succeeded.
- What the planner is told is running need not be adopted, nor the other way round: a fault left open without a deadline
  is listed as running and closed by the take-over (`HistoryRecovery.ListedRunningYetClosed`), and one applied longer
  ago than the listing looks back may be adopted. `HistoryRecovery.ListingAgreesWithAdoption` says exactly for which
  rows the two differ, and `HistoryRecovery.RememberLeases` how start-up then gives every leased fault an entry.

## Model

| member | source | states |
|---|---|---|
| `Slots.Executor.Reserve` | pkg/executor/executor.go:756-807 | Admits exactly when there is room under the cap and every target namespace is rested; refusing changes nothing, admitting books every namespace once |
| `Slots.Executor.CooldownAllows` | pkg/executor/executor.go:770-788 | True exactly when no target namespace has an apply in flight or a recorded one within the cooldown |
| `Slots.Executor.Release` | pkg/executor/executor.go:789-806 | Gives the booking back the first time; any later call changes nothing |
| `Slots.Executor.RecordApply` | pkg/executor/executor.go:809-818 | Starts the cooldown of every target namespace, and touches no other |
| `Slots.BookThenHandBack` | pkg/executor/executor.go:789-806 | Booking and handing back restores the counters, including entries that did not exist |
| `Leases.Registry.Register` | pkg/lease/registry.go:53-69 | Adds or overwrites exactly the fault's lease |
| `Leases.Registry.Adopt` | pkg/lease/registry.go:71-81 | Takes a lease over with its own times; only the holder changes |
| `Leases.Registry.Forget` | pkg/lease/registry.go:92-100 | Removes exactly the fault's lease and says whether there was one |
| `Leases.Registry.List` | pkg/lease/registry.go:104-120 | Every lease with a target in the namespace, once, oldest applied first |
| `Leases.Registry.Expired` | pkg/lease/registry.go:136-146 | Exactly the leases with a deadline that has passed, once each |
| `Leases.AdoptLive` | pkg/lease/adopt.go:38-90 | Adds the listed faults the registry lacks and counts them; each fault taken anew, and no other, has exactly one adoption record, with its object and its deadline to the second |
| `Leases.AdoptionKeepsHeldLeases` | pkg/lease/adopt.go:60-76 | Adoption never replaces a lease that is held |
| `Leases.AdoptionAddsTheListed` | pkg/lease/adopt.go:60-76 | Afterwards exactly the held and the listed faults are leased |
| `Leases.AdoptionTakesTheFirstListing` | pkg/lease/adopt.go:60-76 | A fault several drivers list is leased as the first described it |
| `Leases.AdoptionLogTells` | pkg/lease/adopt.go:54-88 | Whatever the drivers list, and however often, the emitted records name each newly leased fault once and nothing else, beside one note for each listing that failed |
| `LifecycleCap.CapHolds` | pkg/executor/executor.go:756-807 | In every run leases plus reserved, unregistered applies never pass max(cap, adopted); in-flight counters equal unreleased reservations, in total and per namespace |
| `LifecycleCooldown.CooldownHolds` | pkg/executor/executor.go:770-818 | In every run any two recorded applies that share a namespace are at least the cooldown apart |
| `LifecycleIdentity.IdentityHolds` | pkg/executor/executor.go:138-332 | In every run each operation remembers its own fault and lease, and no two applies share a fault |
| `LifecycleLeaks.NoLeakedFault` | pkg/executor/executor.go:260-282 | In every run an engine object accepted and not cleared is leased by the fault that last asked for it, or that fault is between the driver and `Register` |
| `LifecycleLeaks.LeaseOutlivesItsObject` | pkg/executor/executor.go:544-583 | The only step that drops a lease is the forget after a confirmed clear, when the fault has no object left |
| `LifecycleTimes.TimesHold` | pkg/lease/registry.go:225-257 | In every run each lease the process gave ends at most its fault's duration after it was stored, and what the reaper clears or has before it in a sweep is past its deadline |
| `LifecycleTimes.ApplyIsTold` | pkg/executor/executor.go:284-309 | An announcement makes the fault's row say what the lease does, when, and of which tier |
| `LifecycleTimes.EndIsTold` | pkg/executor/executor.go:544-583 | The record an operation leaves after a clear makes the fault's row say whose end it was: taken back with its reason, cleared on request and by whom, or run to its deadline |
| `LifecycleTimes.RefusedClearChangesNothing` | pkg/lease/registry.go:238-246 | A clear the driver refuses leaves the fault's outcome, reason and end time on the trail as they were |
| `LifecycleProgress.LifecycleNeverHangs` | pkg/executor/executor.go:756-818 | In every run each operation under way can move, or waits for the executor's lock while the apply that holds it can move |
| `LifecycleProgress.AdmissionAndDriver` | pkg/executor/executor.go:756-788 | An apply being checked may be admitted exactly when the leases it saw and the applies in flight leave room under the cap, and no namespace it targets has an apply in flight or one recorded within the cooldown |
| `LifecycleProgress.WorldMayAct` | pkg/lease/registry.go:225-228 | Whatever is under way, time may pass, a new fault may be submitted, a leased one asked to be cleared, and a sweep begun with exactly the leases past their deadline |
| `LifecycleTrail.TrailHolds` | pkg/executor/executor.go:276-321 | In every run, for every fault, the folded row agrees with its applies, its lease and the closings under way |
| `LifecycleTrail.TrailEqualsState` | pkg/audit/faults.go:114-204 | With nobody between a registry change and its event, the fold shows as applied and open exactly the leased faults, each row naming its lease's object, fault and deadline to the second |
| `LifecycleTrail.TrailLagsByPendingEvents` | pkg/lease/registry.go:225-256 | At any moment trail and registry differ only by an announcement or a closing somebody still owes |
| `AuditTrail.Faults` | pkg/audit/faults.go:114-143 | The loop over records yields each fault's own fold, in first-seen order |
| `RowReading.RowIsRead` | pkg/audit/faults.go:145-204 | Every field of a row from the fault's own records: efficacy is failed if one check failed and passed if one passed and none failed; injected and recovered are the last verdicts given, what was not ready is all that was reported, in order; outcome, reason and end time are the last ending's, a fault nobody tracked ending at its deadline; object, deadline and each part of the description are as last told, the submission as last submitted, and plan, scenario and source as first named |
| `AuditTrail.FaultsProjects` | pkg/audit/faults.go:114-143 | A fault's row is the fold of only its own records |
| `AuditTrail.FirstSeenIsExact` | pkg/audit/faults.go:114-143 | Rows name exactly the faults some record names, once each |
| `AuditTrail.FirstSeenOrder` | pkg/audit/faults.go:114-143 | A fault first named earlier has the earlier row |
| `AuditTrail.LiveIsPerFault` | pkg/audit/faults.go:145-204 | Which faults show as applied and open is decided fault by fault |
| `AuditTrail.AdoptionsKeepStanding` | pkg/audit/faults.go:145-204 | Adoption records and records of other faults change no fault's standing |
| `Restart.ClosingEvents` | pkg/audit/faults.go:259-276 | One closing record per applied, open row, sorted by fault |
| `Restart.ClosingsAreExact` | pkg/audit/faults.go:259-276 | The closings name exactly the applied, open rows, once each |
| `Restart.TakeOver` | cmd/simian/serve.go:798-830 | Adopts exactly the rows that can be revived, with one adoption record each, and closes every other live row once; all records are stamped while it runs, none earlier than the one before |
| `AsApplied.AdoptedAsTold` | pkg/audit/faults.go:287-306 | Every lease a take-over adopts is the fault as its last apply announced it, with that record's time, object and deadline and the description last told, of a fault nothing ended; this process holds it |
| `RestartRecovery.RecoveryIsExact` | pkg/audit/faults.go:194-202 | Refolding the trail with what the take-over emitted shows exactly the adopted faults, deadlines ahead; every other open fault ended at the earlier of its deadline and the closing time |
| `RestartRecovery.ClosingTwiceAddsNothing` | pkg/audit/faults.go:259-276 | After closing every open row a second take-over closes none |
| `RestartRecovery.StartupIsInit` | cmd/simian/serve.go:798-830 | A take-over followed by adoption from the cluster is a start the lifecycle results apply to |
| `Restarts.RestartAdoptsOnlyLeases` | pkg/audit/faults.go:287-306 | Wherever a run stopped and whatever rotation let go of, what the next process adopts is applied and open on the whole trail exactly when nothing let go of had closed it; then the last process held it, with the same object and fault and the deadline to the second, or had just cleared it without having said so |
| `Restarts.RestartRestoresLeases` | pkg/audit/faults.go:287-306 | Of its own leases the next process adopts exactly those whose announcement was kept, that can be rebuilt, and whose written deadline lies ahead, deadlines that pass during the take-over aside |
| `Restarts.OnlyTheClusterKnows` | pkg/lease/adopt.go:28-37 | Of the engine objects a stopped process left, the take-over does not bring back exactly those of an apply that had not announced its fault, those whose announcement rotation let go of, and those whose lease is over or cannot be rebuilt; nor those known from the cluster alone, unless rotation cut off their end |
| `Restarts.LeaseLostToRotation` | pkg/audit/file.go:45-49 | A start with one live lease, its deadline ahead, announced in a file that two later records rotate away: of what the two files then hold every take-over adopts nothing |
| `Restarts.ClearedYetTakenOver` | pkg/audit/faults.go:287-306 | A start with no lease whose trail shows the fault cleared, then announced; when one more record has rotated the clear away, every take-over of what the two files hold adopts the fault |
| `Retention.RotationKeepsTheEnd` | cmd/simian/serve.go:781-798 | After any events, rotations and failed renames what is read back from the two files, lines written whole, is a gapless end of the log |
| `Retention.KeptRetells` | pkg/audit/faults.go:145-204 | A fault's row on the kept end has the object, deadline and description of its row on the whole log if its announcement was kept, and an outcome that differs only by what was let go of |
| `Succession.RestartIsAStart` | cmd/simian/serve.go:285-299 | After a stop at any moment of a run whose first trail ended no fault before its announcement while its object was there: given a take-over of the kept trail and a listing that names each remaining object not taken over, the next process starts where the lifecycle results apply, each object left is leased by its fault, under its own name, and the order of the trail holds again |
| `Succession.EveryLifeIsSafe` | cmd/simian/serve.go:283-299 | Through any number of restarts, if at each of them no object has been added and the drivers list each remaining object that was not taken over, and if on the first trail no fault whose object is there was ended before its announcement: every process keeps to the cap, answers for every object in the cluster, and keeps its trail true |
| `LifecycleOrder.OrderHolds` | pkg/executor/executor.go:276-321 | In every run from such a start, no fault whose engine object exists has a record that ends it before one that announces it |
| `Succession.EveryTrailIsComplete` | pkg/executor/executor.go:284-303 | Every announcement any later process reads says when and what, if the first trail's did: the condition the restart results put on the kept records |
| `Planner.PlanLayers` | pkg/planner/dag.go:68-114 | On all inputs: succeeds exactly when orders are unique, dependencies known and no step waits for itself transitively, repeated entries included; the layers are the peeled layers, ascending |
| `Planner.ValidateStepDAG` | pkg/planner/dag.go:32-60 | Accepts exactly the non-empty workable plans; each refusal names a true reason |
| `Planner.LayersPermuteTheSteps` | pkg/planner/dag.go:68-114 | The layers hold every step's order once and nothing else, none is empty, each ascends |
| `Planner.LayerIsDepth` | pkg/planner/dag.go:62-67 | A step's layer is the length of its longest dependency chain, so all it waits for lies in earlier layers |
| `Planner.NoFewerLayers` | pkg/planner/dag.go:62-67 | Any assignment of levels that respects the dependencies needs at least as many |
| `Planner.WorkableIffComplete` | pkg/planner/dag.go:91-112 | A plan is workable exactly when peeling ready steps takes every step |
| `PlanGraph.CompleteIffAcyclic` | pkg/planner/dag.go:91-102 | With known dependencies, peeling finishes exactly when there is no cycle |
| `PlanGraph.Pigeonhole` | pkg/planner/dag.go:99-102 | A walk longer than the set it stays in repeats a step, which is where the cycle comes from |
| `PlanExecution.PlanRunsWithinBounds` | pkg/loop/loop.go:422-542 | In every run: a call starts only when every call of a step it waits for has returned, no step is called twice, no more calls are made than the cycle budget says, nor more at a time than the concurrency limit; with a severity cap, the tier of every step called and the cap are known, the tier no wider than the cap in the order namespace, node, external |
| `PlanExecution.RefusalsStayBounded` | pkg/loop/loop.go:509-526 | In every run no step gathers more refusals within the window than the limit less one plus the concurrency limit, unless it began with more; the log stays in time order |
| `PlanExecution.GuardCountsTheWindow` | pkg/loop/loop.go:509-520 | In every run a submitted step is held back exactly when three or more refusals of its key lie in the last hour: the count left after the stale front is the hour's in every reachable log |
| `PlanExecution.PlanNeverHangs` | pkg/loop/loop.go:458-541 | Until the plan is finished something other than the clock can move |
| `PlanExecution.StepsWaitOnlyForSlots` | pkg/loop/loop.go:496-500 | In every run a step that is due is launched as soon as fewer calls hold a slot than the plan allows at once |
| `PlanCompletion.EveryPlanEnds` | pkg/loop/loop.go:458-541 | Apart from the clock a run takes at most eight steps for each of the plan's steps, three for each layer, and one |
| `PlanCompletion.FinishedPlans` | pkg/loop/loop.go:458-541 | At the end exactly the first permitted steps in layer order have been submitted, as many as the cycle budget allows; none is still at work, and each was answered by the executor or held back, one or the other. With budget to spare a step was passed over exactly for an unknown tier, an unknown cap, or a tier wider than the cap |
| `Refusals.RefusalLog.RecentRefusals` | pkg/loop/loop.go:615-633 | Returns what is left of the step's times after the stale front, of any log, and leaves that; in a log in time order it is exactly what lies in the window |
| `Refusals.RefusalLog.NoteOutcome` | pkg/loop/loop.go:664-681 | Remembers a refusal, forgets them all when the step ran, ignores budget refusals |
| `Refusals.RefusalLog.SeedRefusals` | pkg/loop/loop.go:640-659 | Walks the listed history back to front into the log |
| `Refusals.StaleFrontIsExact` | pkg/loop/loop.go:622-632 | In a log in time order, dropping the stale front leaves exactly what lies in the window |
| `Refusals.PruningIsInvisible` | pkg/loop/loop.go:622-632 | Forgetting stale refusals changes no count, now or later, for any step |
| `Refusals.NotingAddsOne` | pkg/loop/loop.go:664-681 | A refusal adds exactly one to its own step unless it is for want of budget, and nothing to any other; running clears the step's count |
| `Refusals.SeedingCountsTheHistory` | pkg/loop/loop.go:635-659 | After a restart each step counts exactly the refusals in the window its history lists |
| `Refusals.RestartForgetsForgiving` | pkg/loop/loop.go:664-681 | Over the outcomes a loop was told of one step: its count in the window and those told before the last successful run make up the refusals told, so the count is all of them if and only if none in the window was followed by a successful run |
| `RefusalRecovery.RefusalsFromAudit` | pkg/executor/history.go:84-106 | The refusals a trail records, as submitted, stably sorted oldest first |
| `AsSubmitted.RecoveredAsSubmitted` | pkg/executor/history.go:84-106 | Every refusal the trail gives back is of a fault whose last ending refused it or took it back unverified, not for want of budget, with that ending's time and reason, and with the engine, kind, targets, spec, duration and tier of the fault's last submission, whatever reached the driver; or as last told, where no submission is kept |
| `AsSubmitted.RefusedIsRecovered` | pkg/executor/history.go:84-125 | And each such fault whose submission has a kind and targets is given back |
| `AsSubmitted.RefusedStepKeepsItsKey` | pkg/loop/loop.go:598-611 | A step whose submission is on the trail and whose fault was refused in the window counts against its own key after the restart, if the history has room |
| `RefusalRecovery.RecoverRefusals` | cmd/simian/serve.go:247-255 | Start-up passes the trail's refusals through the history into the loop's log |
| `RefusalRecovery.RestartKeepsRefusalCounts` | pkg/loop/loop.go:635-659 | After a restart each step's count in the window is the trail's refusals of it less those the history had no room for; none is missing when it has room for everything refused in the window |
| `RefusalRecovery.RestartKeepsTimeOrder` | pkg/executor/history.go:105-106 | The log a restart seeds is in time order, which the exactness of the count rests on |
| `RefusalRecovery.TrailAgainstLoop` | pkg/loop/loop.go:664-681 | The kept trail's count of a step against the running loop's, also when calls left no row or one that is no refusal: the trail's count and what it lacks are the running count, the forgiven and the foreign refusals; the two counts are equal exactly when forgiven and foreign make up for what is lacking |
| `RefusalRecovery.InterruptedIsNotOnTrail` | pkg/executor/executor.go:355-375 | A fault taken back because the process was told to stop is one refusal to the loop and none to a restart |
| `RefusalRecovery.LeftToReaperIsNotOnTrail` | pkg/executor/executor.go:550-558 | A refused fault whose clear failed is one refusal to the loop and none to a restart, while it is open and once it has expired |
| `HistoryRecovery.RecentFromAudit` | pkg/executor/history.go:131-154 | The applied faults a trail records, with their end if it is known, stably sorted oldest first |
| `AsApplied.RecoveredAsApplied` | pkg/executor/history.go:131-154 | An entry is given back exactly when the trail's records tell of it: a fault last applied late enough and not taken back, described by what was last told of it and named as first named, ended as its last ending says, or untracked at a deadline that has passed, or not at all |
| `HistoryRecovery.RecoveredAreDistinct` | pkg/executor/history.go:131-154 | From any trail the recovered faults are exactly the rows worth an entry, in order of applied time, each named and none twice |
| `HistoryRecovery.RecoverHistory` | cmd/simian/serve.go:247-252 | Whatever the trail, the ring is filled with the newest recovered faults, and its index finds each of them and no other |
| `HistoryRecovery.RememberLeases` | cmd/simian/serve.go:300-312 | After start-up every leased fault has an entry and is known unless newer entries evicted it, which they do to none pushed here when the leases fit the ring |
| `HistoryRecovery.ListingAgreesWithAdoption` | pkg/executor/history.go:127-149 | For any fault left open: listed as running exactly when recent enough, described, and with no deadline behind it; of that, left to be closed is exactly what no take-over can hold, deadlines that pass meanwhile aside; adopted but not listed is exactly what was applied too long ago |
| `HistoryRecovery.ListedRunningYetClosed` | pkg/executor/history.go:143-149 | A fault applied without a deadline is listed as running and cannot be revived |
| `Selectors.FindSelectorSites` | pkg/executor/nsscope.go:104-133 | The recursive walk with its accumulator finds the selector sites in document order, with paths and sorted namespaces |
| `SelectorPaths.SitesAreTheSelectors` | pkg/executor/nsscope.go:51-149 | The sites are exactly the objects a path leads to, clear of the user's own keys, that stand in one of three selector fields or have one of nine selector fields as a list or object, each with the namespaces it lists or keys its pods by |
| `Selectors.CollectNamespaces` | pkg/executor/nsscope.go:151-176 | Exactly the namespaces the node's list and its pods name, sorted, once each |
| `Ordering.TextIsLexicographic` | pkg/executor/nsscope.go:174 | Sorted text is in lexicographic order: one comes first where it ends first or has the smaller character at the first difference |
| `Selectors.FindMarker` | pkg/executor/nsscope.go:135-149 | True exactly when a marker field has a list or object value |
| `Narrowing.LoopIsNarrow` | pkg/executor/nsscope.go:198-204 | Writing into the sites found beforehand, one after the other, leaves the recursively narrowed tree, also when one write detaches later sites |
| `NamespaceScope.ValidateSpecNamespaceScope` | pkg/executor/nsscope.go:186-221 | Where the targets are eligible, what it lets through for any engine but network-policy and envoy-fault names at least one namespace in every selector and only eligible ones; for those two engines, and without a spec, nothing changes. It succeeds exactly when every named namespace is eligible, with the narrowed spec and paths; a refusal names the first offending selector and the first such namespace in it, and leaves the spec with the selectors before that one narrowed |
| `NamespaceScope.RefusalIsDetermined` | pkg/executor/nsscope.go:198-221 | There is only one refusal, and one half-narrowed spec, that a given spec can lead to |
| `NamespaceScope.SitesAfterNarrowing` | pkg/executor/nsscope.go:112-133 | Every selector of the narrowed tree was one before, and kept its namespaces or was given the targets |
| `NamespaceScope.ScopedSpecIsContained` | pkg/executor/nsscope.go:178-221 | Every selector of a scoped spec names at least one namespace and only eligible ones |
| `NamespaceScope.SecondPassIsIdle` | pkg/executor/nsscope.go:178-221 | Scoping a scoped spec refuses nothing and narrows nothing |
| `NamespaceScope.NothingToNarrow` | pkg/executor/nsscope.go:200-204 | A tree whose selectors all name a namespace is left as it is |
| `PodScope.CheckSecondarySelectors` | pkg/executor/podscope.go:136-166 | Accepts exactly when every other selector picks pods or covers no excluded workload; a refusal is about the first that does not, and names the first such namespace it covers |
| `PodScope.CompareTargets` | pkg/executor/podscope.go:77-92 | The labels all targets share, if known and equal, and whether one names a workload |
| `PodScope.NarrowPodSelector` | pkg/executor/podscope.go:53-120 | For chaos-mesh faults with a spec that are no zone or node outage: when the fault is let through and with which spec and labels, and otherwise which refusal, with its selector and namespace; and whatever it lets through spares all excluded workloads exactly outside the gap. Every other fault goes through unchanged |
| `PodScope.SitesAfterLabels` | pkg/executor/podscope.go:93-100 | Labelling the main selector makes it pick pods and leaves every other selector as it was |
| `PodScope.SparedUnlessGap` | pkg/executor/podscope.go:53-120 | A fault let through spares all excluded workloads if and only if it does not fall into the gap |
| `PodScope.GapExample` | pkg/executor/podscope.go:108-119 | An eligible, accepted fault that reaches an excluded workload |
| `PodScope.ScopedThenNarrowedSparesExcluded` | pkg/executor/podscope.go:35-52 | With a resolver and a main selector naming only targets, scoping then narrowing leaves no selector that covers a namespace with excluded workloads without picking pods |
| `ScenarioLocks.Namespaces` | pkg/scenario/scenario.go:350-368 | The distinct namespaces of a scenario's faults, sorted |
| `ScenarioLocks.ScenariosAreFenced` | pkg/harness/runner.go:193-240 | In every run, two scenarios in their critical section share no namespace, and one without a namespace is alone |
| `ScenarioLocks.NoMoreThanAsked` | pkg/harness/runner.go:218-237 | In every run at most as many scenarios are under way as the concurrency says, one at least, and a waiting one may start exactly while there are fewer |
| `ScenarioLocks.NoDeadlock` | pkg/harness/runner.go:724-751 | In every run, while a scenario is unfinished some step is enabled, also with a writer keeping readers out |
| `ScenarioLocks.EveryRunEnds` | pkg/harness/runner.go:218-237 | A run has no more steps than the scenarios have between them; with `ScenarioLocks.NoDeadlock`, which has a next step while one is unfinished, every scenario finishes |
| `ScenarioLocks.InvariantHolds` | pkg/harness/runner.go:731-751 | In every run the semaphore, reader and lock counts are what the scenarios hold |
| `Cycles.Cycles` | pkg/audit/cycles.go:86-163 | The loop with its open-cycle map computes the fold over rows |
| `CycleReading.CyclesAreRead` | pkg/audit/cycles.go:86-163 | A namespace's rows are its records cut at each start and after each end: each says when it began, how and when it ended (skipped, completed, cut off by the next start, or open), and what was planned, refused, objected and applied in it |
| `Cycles.CyclesProject` | pkg/audit/cycles.go:83-163 | A namespace's rows are the fold of only its own records |
| `Cycles.AtMostOneOpen` | pkg/audit/cycles.go:86-163 | At most one row of a namespace is open, and it is the namespace's last |
| `Cycles.CyclesDoNotOverlap` | pkg/audit/cycles.go:86-163 | Read in time order, rows come oldest first and a namespace's cycles never overlap |
| `Cycles.CycleLog.Add` | pkg/audit/cycles.go:226-236 | Keeps the newest cycle events up to the limit and ignores other records |
| `Cycles.CycleLog.Recent` | pkg/audit/cycles.go:240-257 | The newest matching cycles of the kept records, newest first, up to the limit |
| `Cycles.RecentProjects` | pkg/audit/cycles.go:238-257 | Asked for one namespace, the answer comes from that namespace's records alone |
| `EvalEvidence.FoldIsFaithful` | pkg/eval/artifact.go:160-215 | Per fault the fold remembers exactly which kinds of line there were and the latest pass, by the line's own stamp where it has one |
| `EvalEvidence.SummarizeFacts` | pkg/eval/artifact.go:254-306 | Manifested exactly when there are faults and all landed; injected at the latest pass, or never |
| `EvalEvidence.ReadAudit` | pkg/eval/artifact.go:120-156 | One summary per scenario in first-seen order, each the evidence its lines give |
| `EvalEvidence.EvidenceIsOrderFree` | pkg/eval/artifact.go:120-306 | Two logs with the same lines for a scenario, in any order and with any repeats, give the same evidence |
| `EvalEvidence.OneBadRecordSuffices` | pkg/eval/artifact.go:248-306 | One rejection, driver failure, failed efficacy or failed injection makes its scenario unmanifested whatever surrounds it |
| `EvalEvidence.Join` | pkg/eval/artifact.go:372-438 | Succeeds exactly when runs and facts pair off one to one inside the scenario pack, each run with its scenario's facts, controls credited; otherwise fails at the first record that does not pair off, for its own reason, or names the leftovers |
| `DwellGate.Run` | pkg/probe/k8s.go:148-204 | Passes exactly when the polls end in an unbroken block of good ones spanning the dwell; says why otherwise; polls at most timeout/interval + 2 times |
| `DwellGate.EveryValueAtLeast` | pkg/probe/k8s.go:103-119 | True exactly when there is a word and every word is a number at least as large |
| `DwellGate.NumbersReadBack` | pkg/probe/k8s.go:114-116 | The decimal text of a number, signed or not, reads as that number when it fits 64 bits and as none when it does not |
| `DwellGate.NumbersAreDigits` | pkg/probe/k8s.go:114-116 | Only digits behind at most one sign make a number |
| `DwellGate.WordsOfSpaced` | pkg/probe/k8s.go:109 | Words with white space around and between them are split into exactly those words |
| `DwellGate.OccursBetween` | pkg/probe/k8s.go:90 | Text is found in exactly those outputs that have it between two others |
| `DwellGate.LongestBlock` | pkg/probe/k8s.go:152-189 | The hold time the loop keeps decides whether any block is long enough |
| `DwellGate.NoVacuousGate` | pkg/probe/k8s.go:84-119 | Empty output passes only the gate that asks for emptiness |
| `History.History.Push` | pkg/executor/history.go:214-232 | The ring is the last capacity pushes, also after entries were marked; an unnamed fault is ignored |
| `History.ShiftIndex` | pkg/executor/history.go:220-229 | Moves every other fault's index down by one and drops the evicted one's |
| `History.History.UpdateCleared` | pkg/executor/history.go:244-253 | Marks exactly the indexed entry, or nothing |
| `History.History.Has` | pkg/executor/history.go:235-240 | Known exactly when the fault was pushed and the index has not lost track of it, whatever was pushed and marked since |
| `History.History.List` | pkg/executor/history.go:257-278 | The newest matching entries up to the limit: a permutation of them, latest applied first, entries of one time in the order they are read |
| `History.History.PushRefused` | pkg/executor/history.go:184-191 | The refused ring is the last capacity refusals |
| `History.History.ListRefused` | pkg/executor/history.go:195-210 | The newest matching refusals, newest first, up to the limit |
| `History.PushKeepsIndexExact` | pkg/executor/history.go:214-232 | A push keeps the index exact if and only if it does not evict one of two entries of a fault |
| `History.IndexOfPushes` | pkg/executor/history.go:214-232 | After any pushes, which faults the index holds, and that it leads to the newest entry |
| `History.IndexIsExactWhen` | pkg/executor/history.go:214-232 | After any pushes the index is exact if and only if no fault in the ring has an entry gone from it fewer than a ring's length older than its newest |
| `History.DistinctFaultsAreIndexed` | pkg/executor/history.go:214-232 | For faults pushed once each the index is exact after any number of evictions |
| `History.ForgottenWhileRemembered` | pkg/executor/history.go:214-240 | Pushes after which a fault in the ring is unknown to the index |
| `FileAudit.FileAuditor.Emit` | pkg/audit/file.go:96-134 | The new files, size and stream as a function of the old ones and the file system's answers; a failed write is reported exactly when it happens |
| `FileAudit.FileAuditor.Rotate` | pkg/audit/file.go:136-149 | Moves the file aside or, on a failed rename, reopens it; reports exactly what failed |
| `FileAudit.TrailIsContiguous` | pkg/audit/file.go:96-149 | After any events and failures PATH.1 followed by PATH is a gapless end of the stream, and the size is the open file's |
| `FileAudit.ObligingTrail` | pkg/audit/file.go:45-49 | Without failures every line is written whole and in order, everything or more than the limit is retained, and no file outgrows the limit |
| `FileAudit.FailedRenameKeepsEverything` | pkg/audit/file.go:141-147 | A failed rename loses nothing and the line follows what was there |
| `FileAudit.ClosedForGood` | pkg/audit/file.go:108-112 | Once the file is gone later events leave the files as they were |
| `FileAudit.FileAuditor.Close` | pkg/audit/file.go:157-167 | Closing touches neither file; from then on events leave them as they were |

## Left out

- Kubernetes, Chaos Mesh, Envoy, the planner's language model, HTTP and MCP: drivers, lookups, polls and files are oracles or parameters.
- JSON and YAML decoding and encoding: records, specs and probe outputs are decoded values; RFC 3339 text and durations are numbers.
- Error, audit and failure wording, including the joined text of `InjectError` and `TeardownError`, which depends on order.
- `LifecycleCap.CapHolds`: in the machine a refusal by `reserve` is always possible, because each namespace's cooldown is read at its own moment; only what an admission allows is stated.
- `Leases.AdoptLive`: the records of one call share one time, where the source reads the clock for each.
- `Restart.TakeOver`: the payload fields of the closing and adoption records that no fold reads.
- `NamespaceScope.ValidateSpecNamespaceScope`: works on tree values; the spec the caller's manifest is left with is a second result.
- `PodScope.NarrowPodSelector`: the names of the excluded workloads a refusal lists.
- `Selectors.FindSelectorSites`: paths are lists of fields and indexes instead of dotted text; `spec.selector` is the path of one field.
- `EvalEvidence.ReadAudit`: failure texts are flags, since none is ever empty.
- `Retention.RotationKeepsTheEnd`: a line that a failing disk cut short in the middle of the file, and the one behind it, are not readable; the restart results do not describe such a gap.
- `FileAudit.FileAuditor.Emit`: an event that cannot be encoded, and sizes past 64 bits.
- `DwellGate.Run`: resolving the resource, parsing the path and decoding the probe's fields come before the loop and are not modelled.
- Probes, precheck and injection polling inside `Apply` beyond their effect on leases and events (pkg/executor/executor.go:338-508).
- `Reaper.sweepOrphans` and `Heartbeat` in pkg/lease/registry.go: records that name no fault, and a renewal that changes no deadline.
- `cycleOrder` in pkg/loop/loop.go: a rotation that computes a value only.
- `RefusalRecovery.RestartKeepsRefusalCounts`: a step's key, the JSON text of its manifest, is any function of the manifest.
- The harness's arena set-up, remediation watch and teardown around the critical section.
- Scores as floating-point measures, rendering, metrics, static probe and permission tables.
