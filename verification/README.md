# OrionMesh control plane: a Dafny model

OrionMesh runs services and tasks on a set of nodes. Its controller stores what should
run and applies small decision functions tick after tick to registries that exits, log
lines, health probes and failed dispatches also change. This project models those
decisions together with the loops around them and proves what holds of every run.

- **Workflows.** `WorkflowPlan` is the planner, `WorkflowRuns` its runs over ticks,
  `WorkflowMeaning` a recursive definition of what an acyclic workflow means,
  `WorkflowStuck` the workflows with cycles, and `WorkflowRunner` the controller's records.
  Every run agrees with the meaning, all finished runs coincide, and a run whose reports
  keep up finishes in `n + 1` ticks.
- **Services.** `Reconcile` is the decision, `ReconcileLoop` closes the loop with the
  purge, the dispatch, the agent's slot fan-out, exits, probes and log lines;
  `ReconcileSafety` proves what is on record in every run and when a pass converges,
  `ReconcilePolicy` what each restart policy replaces,
  `ReconcileSlots` exactly when slots stay exclusive, `ReconcileNever` exactly when a slot
  is launched twice, `ReconcileLimits` the failing runs and the hidden slot 0, and
  `ReconcileRunning` what really runs when nothing is left to do.
- **Placement.** `Scheduler` proves that the filter, score and sort pick a unique
  optimum and that repeated use balances load; `PlacementLoop` ties the loads to the
  instance registry.
- **Schedules.** `CronTick`, over an abstract set of cron instants.
- **Registries and races.** `InstanceRegistry` (two indexes), `LogFollower` (bounded ring
  and polling client), `NativeAdapter` (wait task against stop calls).
- **Text and paging.** `Snapshot`, `Columns`, `SqliteTap`.

`Options`, `SortedSets`, `StableSort`, `Text` and `Workloads` are shared definitions. Code
that updates state in place is a class or a method with loops, proved against a function of
the old state; the theorems are about runs of those functions. `dafny verify dfyconfig.toml`
checks everything.

What the environment decides is a parameter: clocks, the exits reported, which dispatches
and publishes fail, how many slots an agent launches. Random instance ids are a counter,
so that they are distinct.

Where the code and its documentation differ, the model follows the code:

- `score_node` is documented to add points for runtimes and for absent instances, and its
  penalty to be too light to override a label match. It adds nothing for runtimes, and 100
  running instances do override a label (`Scheduler.HundredInstancesOverrideALabel`).
- `restart_policy: Never` is documented to leave dead records alone. A full redispatch
  after a half-finished fan-out launches their slots again
  (`ReconcileNever.HalfFinishedFanOutIsRelaunched`).
- The log total is documented as an approximated counter. It is the ring length, so a
  follower goes silent after 500 lines (`LogFollower.StuckAtCapacity`).
- Every dispatch is recorded under slot 0 whatever it launches. When no process has that
  record's id, the record hides slot 0 until a process of slot 0 writes a line. Slot 0 gets
  lost for good by a failed dispatch, by a sent one that launches nothing, or, after a
  successful one, by the exit of its process before the first line
  (`ReconcileRunning.GetsLostExactlyWhen`, `ReconcileRunning.SilentExitRun`). A service
  whose first dispatch launches nothing never gets its slot 0
  (`ReconcileLimits.EmptyFirstLaunchLosesSlotZero`).
- The other slots come on record with their first log line. A pass before that launches
  them again (`ReconcileNever.PassBeforeFirstLine`).
- The child of a native launch is shared so that a stop can kill it. The wait task takes it
  at once and keeps it, so that a stop after that removes the map entry and kills nothing
  (`NativeAdapter.WaitedChildIsNeverKilled`).

## Model

| member | source | states |
|---|---|---|
| WorkflowPlan.AdvanceWorkflow | crates/orion-controller/src/decisions.rs:168-217 | the three in-place passes over the step list compute `AdvanceOf`, about which the rows below are proved |
| WorkflowPlan.InitialisePass | crates/orion-controller/src/decisions.rs:171-174 | tracked steps keep their status, untracked listed steps become Pending, nothing else is added |
| WorkflowPlan.SweepPass | crates/orion-controller/src/decisions.rs:187-211 | the in-place sweep, where a step sees what earlier steps of the same sweep became, computes `Sweep` and `Dispatched` |
| WorkflowPlan.PromoteEffect | crates/orion-controller/src/decisions.rs:175-186 | only Running steps change, only to the exit reported for the task of a step of that name, and every reported Running step becomes terminal |
| WorkflowPlan.SweepEffect | crates/orion-controller/src/decisions.rs:190-211 | the sweep moves only Pending steps, to Running or Failed, and under continue-on-error fails nothing |
| WorkflowPlan.ReadyIsStable | crates/orion-controller/src/decisions.rs:202-206 | whether the dependencies of a step are ready cannot change while the sweep is under way |
| WorkflowPlan.SweepResolves | crates/orion-controller/src/decisions.rs:190-211 | a tracked step all of whose dependencies are terminal is not Pending after the sweep, wherever it is listed |
| WorkflowPlan.DispatchEffect | crates/orion-controller/src/decisions.rs:207-210 | the dispatched names are exactly the steps that went from Pending to Running, each once, each with a step whose dependencies were ready |
| WorkflowPlan.AdvanceMovesForward | crates/orion-controller/src/decisions.rs:168-217 | a call tracks the old and the listed names and moves every status forward or leaves it |
| WorkflowPlan.DispatchIsJustified | crates/orion-controller/src/decisions.rs:202-216 | a dispatched step was Pending, has every dependency ready in the resulting statuses, is named once; a finished plan dispatches nothing |
| WorkflowRuns.TickMovesForward | crates/orion-controller/src/main.rs:1157-1235 | a tick, with refused dispatches overridden to Failed, moves every status forward |
| WorkflowRuns.StatusesNeverMoveBack | crates/orion-controller/src/main.rs:1099-1251 | between any two points of any run no status moves backwards, even if the stored workflow is edited |
| WorkflowRuns.DispatchedAtMostOnce | crates/orion-controller/src/decisions.rs:190-211 | no step name is dispatched by two ticks of a run, nor twice by one |
| WorkflowRuns.DispatchWaitsForDependencies | crates/orion-controller/src/decisions.rs:202-210 | at every tick of every run a dispatched step has all dependencies Succeeded, or terminal under continue-on-error |
| WorkflowRuns.StuckStepsNeverRun | crates/orion-controller/src/decisions.rs:195-211 | steps on a dependency cycle or behind an undefined dependency are never Running and never Succeeded, whatever is reported |
| WorkflowRuns.StuckStepsNeverDispatched | crates/orion-controller/src/decisions.rs:207-210 | no tick of any run dispatches such a step |
| WorkflowRuns.RankedOrStuck | crates/orion-controller/src/decisions.rs:190-211 | a workflow with unique names has either a numbering that puts steps after their dependencies, below the step count, or a non-empty stuck set |
| WorkflowRuns.RankedIsNotStuck | crates/orion-controller/src/decisions.rs:190-211 | and never both |
| WorkflowRuns.ReportedExitIsRecorded | crates/orion-controller/src/decisions.rs:175-186 | with unique names a Running step whose task has failed is Failed after the call, and one whose task has succeeded is Succeeded |
| WorkflowMeaning.PromoteAgrees | crates/orion-controller/src/decisions.rs:175-186 | recording reported exits keeps every recorded status equal to what the step means |
| WorkflowMeaning.SweepAgrees | crates/orion-controller/src/decisions.rs:187-211 | the sweep records only statuses the meaning confirms, in any list order |
| WorkflowMeaning.TickAgrees | crates/orion-controller/src/main.rs:1157-1235 | so does a whole tick with its refused dispatches |
| WorkflowMeaning.RunsAgreeWithMeaning | crates/orion-controller/src/decisions.rs:168-217 | at every point of every run, whatever the order and timing of reports, a terminal status equals the recursive meaning: Failed if fail-fast and some dependency means Failed, else Failed if undispatchable, else the outcome of the task |
| WorkflowMeaning.FinishedRunIsMeaning | crates/orion-controller/src/decisions.rs:207-216 | a run whose statuses are all terminal tracks exactly the listed steps, each with its meaning |
| WorkflowMeaning.FinishedStatusExactlyWhen | crates/orion-controller/src/decisions.rs:175-201 | in a finished run a step is Failed exactly when, under fail-fast, a dependency is recorded as Failed, or it could not be dispatched, or its task failed; every other step is Succeeded |
| WorkflowMeaning.FinishedRunsCoincide | crates/orion-controller/src/decisions.rs:168-217 | confluence: two finished runs, even with the steps listed in different orders, end with the same status map |
| WorkflowMeaning.MeaningIgnoresOrder | crates/orion-controller/src/decisions.rs:190-211 | the meaning depends on neither list order nor numbering |
| WorkflowMeaning.WeightDrops | crates/orion-controller/src/decisions.rs:176-215 | the weight (2 per Pending, 1 per Running) never grows, and falls at each tick that sees an exit for every Running step unless all are terminal |
| WorkflowMeaning.LowestPending | crates/orion-controller/src/decisions.rs:190-211 | in any list order, some Pending step waits for no Pending step |
| WorkflowMeaning.TerminalByRank | crates/orion-controller/src/decisions.rs:168-217 | a step with `r` levels below it has left Pending after `r + 1` such ticks and is terminal after `r + 2` |
| WorkflowMeaning.AcyclicWorkflowFinishes | crates/orion-controller/src/decisions.rs:168-217 | `n` steps with unique names and no stuck set are all terminal after `n + 1` such ticks, and every later plan says finished and changes nothing |
| WorkflowMeaning.StuckWorkflowNeverFinishes | crates/orion-controller/src/decisions.rs:195-216 | with a stuck set and no failure no run ever finishes; the stuck steps stay Pending |
| WorkflowStuck.RunsAreExplained | crates/orion-controller/src/decisions.rs:195-201 | in every run a stuck step fails only because dependencies lead from it to a failed step that is not stuck |
| WorkflowStuck.ChangeLowersWeight | crates/orion-controller/src/decisions.rs:176-215 | every tick that changes anything lowers the weight, so at most `2n` ticks of a run do |
| WorkflowStuck.StuckFinishesExactlyWhen | crates/orion-controller/src/decisions.rs:195-216 | a workflow with a stuck set, once its run is at rest, is finished exactly when it is fail-fast and every stuck step is reached, along dependencies, by the failure of a step that is not stuck |
| WorkflowMeaning.NothingLeftToDo | crates/orion-controller/src/decisions.rs:207-216 | once every listed step is terminal a plan is finished, changes nothing and dispatches nothing |
| WorkflowRunner.ApplyPlan | crates/orion-controller/src/main.rs:1163-1235 | copying the plan and then trying each dispatch yields the planned statuses with exactly the refused ones Failed |
| WorkflowRunner.TickSteps | crates/orion-controller/src/main.rs:1143-1241 | planning and applying is one `Tick`; the finished flag is the plan's own |
| WorkflowRunner.WorkflowRegistry.TickWorkflow | crates/orion-controller/src/main.rs:1109-1248 | one record is created or advanced and stamped; a stamped one is skipped; others are untouched |
| WorkflowRunner.WorkflowRegistry.TickOnce | crates/orion-controller/src/main.rs:1099-1251 | a pass ticks the listed workflows one after the other |
| WorkflowRunner.FirstTickFromNothing | crates/orion-controller/src/main.rs:1114-1124 | starting from a record of Pending steps is the same as starting from no progress |
| WorkflowRunner.RecordFollowsRun | crates/orion-controller/src/main.rs:1109-1248 | until it is stamped, a record holds the statuses of the run of its ticks, so that every theorem about runs is about records |
| WorkflowRunner.StampedOnlyWhenTerminal | crates/orion-controller/src/main.rs:1237-1241 | `finished_at` is set only when every tracked step is terminal, in spite of dispatch failures and edited workflows |
| WorkflowRunner.StampedRecordIsFrozen | crates/orion-controller/src/main.rs:1125-1127 | after the stamp the record never changes again |
| WorkflowRunner.TerminalRecordIsStampedNext | crates/orion-controller/src/main.rs:1237-1241 | a workflow that became terminal by a failed dispatch is stamped by its next tick, unchanged |
| WorkflowRunner.RegistryFollowsRecords | crates/orion-controller/src/main.rs:1109-1127 | after any ticks from the empty registry a name is stored exactly when it was ticked, and its record is that of its own ticks in order, whatever happened to others |
| WorkflowRunner.PassesFollowRecords | crates/orion-controller/src/main.rs:1099-1251 | the same after any passes of the loop |
| WorkflowRunner.StoredStampIsFinal | crates/orion-controller/src/main.rs:1125-1127 | a stamp stored in the registry means that every tracked step is terminal, and that record never changes through later ticks of any workflow |
| WorkflowRunner.StartsAtFirstTick | crates/orion-controller/src/main.rs:1115-1123 | a record keeps the clock of its first tick as its start |
| WorkflowRunner.StampIsItsTick | crates/orion-controller/src/main.rs:1239-1241 | a stamped record carries the clock of the tick that stamped it |
| Reconcile.DecideReconcile | crates/orion-controller/src/decisions.rs:54-124 | the classification loop, the slot scan and the case split compute `Decide` |
| Reconcile.Classify | crates/orion-controller/src/decisions.rs:60-83 | the loop's sets are exactly the slots of alive, ended and to-be-replaced instances, and the ids those of the last kind in order |
| Reconcile.MissingSlots | crates/orion-controller/src/decisions.rs:89-98 | the scan lists in ascending order exactly the slots below the desired count that no instance occupies |
| ReconcileLoop.LaunchSlots | crates/orion-agent/src/main.rs:581-615 | the loop of the agent launches the requested slots in order, an empty request meaning all, and stops at the first failure |
| ReconcileLoop.AgentInstancesDistinct | crates/orion-agent/src/main.rs:588-593 | one fan-out gives pairwise different ids and slots, reuses the id of the controller only for slot 0 of a full one, and never in a partial one |
| ReconcileLoop.ServiceReconciler.ReconcileOnce | crates/orion-controller/src/main.rs:1589-1650 | decide, purge and dispatch compute `ReconcileStep`, a no-op changing nothing and a refused dispatch only purging |
| ReconcileLoop.ServiceReconciler.PurgeIds | crates/orion-controller/src/main.rs:1593-1596 | exactly the records with a listed id go, in order |
| ReconcileLoop.ServiceReconciler.RecordLaunch | crates/orion-controller/src/main.rs:1613-1615 | an accepted dispatch records slot 0 under the id of the controller and nothing else, whatever the agent launched |
| ReconcileLoop.ServiceReconciler.RecordExit | crates/orion-controller/src/main.rs:333-342 | an exit overwrites what is on record for the process, if anything is |
| ReconcileLoop.ServiceReconciler.NoteLine | crates/orion-controller/src/main.rs:248-288 | a log line puts a process on record that is not there |
| ReconcileSafety.PartialNamesItsSlots | crates/orion-controller/src/decisions.rs:114-123 | a partial dispatch names at least one slot, so the agent cannot read it as a full fan-out, and exactly the missing and restarting slots, ascending |
| ReconcileSafety.PurgeClearsRestarts | crates/orion-controller/src/main.rs:1593-1596 | purging leaves exactly the observations that do not wait for a restart |
| ReconcileSafety.OnePassConverges | crates/orion-controller/src/decisions.rs:89-123 | for any observations with distinct ids, purging and adding a live instance per launched slot makes the next decision a no-op |
| ReconcileSafety.CompletePassConverges | crates/orion-controller/src/main.rs:1589-1650 | in the loop: once a dispatch is fully carried out and its processes, among any others, have been heard from in any order, the next pass is a no-op |
| ReconcileSafety.ControllerRecordExactlyWhen | crates/orion-controller/src/main.rs:225-238 | the slot-0 record of a dispatch belongs to a process exactly when it is a full redispatch of which a slot gets through, else no process has its id |
| ReconcileSafety.RunsAreTracked | crates/orion-controller/src/main.rs:1589-1650 | in every run whatever, ids are distinct, all slots are below the desired count, and each record is of a launched process or a live slot-0 record without one |
| ReconcilePolicy.OnFailureReplacesCrashes | crates/orion-controller/src/decisions.rs:71-83 | under `OnFailure` a decision purges exactly the records that exited with a non-zero code or are unhealthy, and launches their slots; it is a no-op exactly when there are none and every slot has a record |
| ReconcilePolicy.AlwaysReplacesAllDown | crates/orion-controller/src/decisions.rs:71-83 | the same under `Always` with every record that exited or is unhealthy |
| ReconcilePolicy.NeverReplacesNothing | crates/orion-controller/src/decisions.rs:71-83 | under `Never` nothing is purged, and a decision is a no-op exactly when every slot has a record |
| ReconcilePolicy.RedispatchExactlyWhen | crates/orion-controller/src/decisions.rs:107-112 | a decision that is no no-op is a full redispatch exactly when nothing is alive and fewer slots than desired hold a record that is down and left alone |
| ReconcilePolicy.FirstDispatchFansOut | crates/orion-controller/src/decisions.rs:55-55 | the first dispatch is a fan-out over `replicas` slots, one if none or zero is given |
| ReconcilePolicy.EventsAreRecorded | crates/orion-controller/src/main.rs:333-342 | an exit puts its code on record and keeps id and slot; a probe sets the health of a process that has not exited |
| ReconcilePolicy.LinesAreRecorded | crates/orion-controller/src/main.rs:270-288 | the first line of a process puts it on record in its slot with the health already known; other lines leave the records alone |
| ReconcilePolicy.ExitCodesAreReported | crates/orion-controller/src/main.rs:333-342 | in every run an exit on record carries the code of an exit event of its process |
| ReconcilePolicy.ExitDecidesRestart | crates/orion-controller/src/decisions.rs:71-83 | in every run under `OnFailure`, a process on record that exits is purged by the next decision exactly when its code is not zero, and then its slot is launched |
| ReconcilePolicy.PassKeepsWhatEndedWell | crates/orion-controller/src/decisions.rs:71-83 | in every run under `OnFailure` a pass keeps the records that exited with zero or without a code |
| ReconcilePolicy.NoOpShowsNone | crates/orion-controller/src/decisions.rs:101-103 | at a no-op nothing on record has crashed under `OnFailure`, and nothing is down under `Always` |
| ReconcileSlots.StepExactlyWhen | crates/orion-controller/src/main.rs:1589-1650 | an event leaves each slot with at most one active process exactly when it is not the first line of an active process into an occupied slot, nor an exit or a recovery that makes a record of an occupied slot active again; no pass ever breaks this. In the wider sense, counting unhealthy processes that may recover, a redispatch under `Never` over an unhealthy slot 0 is ruled out too |
| ReconcileSlots.ExclusiveExactlyWhen | crates/orion-controller/src/main.rs:1589-1650 | hence, in either sense, a run keeps slots exclusive throughout exactly when it has no such event |
| ReconcileSlots.SlotSafety | crates/orion-controller/src/decisions.rs:54-124 | for every run: at every point two records of processes that are alive or awaiting restart are in different slots, if and only if no line, exit or recovery brings a second one; slots are below the desired count in any case |
| ReconcileSlots.LegalInBothSenses | crates/orion-controller/src/decisions.rs:54-124 | a run without such events in the wider sense has none in the narrower |
| ReconcileSlots.LaunchedSlotsAreFree | crates/orion-controller/src/decisions.rs:104-123 | a pass launches no slot that a kept process holds |
| ReconcileSlots.InTimeRunsAreLegal | crates/orion-controller/src/decisions.rs:104-123 | a run has no such event if lines of processes off the record come from the latest dispatch, no process exits twice, and under `Never` no slot of an unhealthy process is redispatched: for the other policies the passes themselves never break exclusivity |
| ReconcileNever.NeverRelaunchesExactlyWhen | crates/orion-controller/src/decisions.rs:107-112 | under `Never` a dispatch launches a slot a second time exactly when it is a full redispatch that reaches a slot on record, or reaches the slot of a process not heard from |
| ReconcileNever.NeverLaunchesOnceExactlyWhen | crates/orion-controller/src/decisions.rs:65-112 | for every run whatever under `Never`: each slot was launched at most once if and only if no dispatch was of that kind |
| ReconcileNever.HeardLaunchesOnceExactlyWhen | crates/orion-controller/src/decisions.rs:107-112 | with every process heard from, if and only if no full redispatch reached a slot on record |
| ReconcileNever.NeverLaunchesASlotTwice | crates/orion-controller/src/decisions.rs:65-112 | so with complete fan-outs each slot is launched at most once, however instances exit or turn unhealthy and however many dispatches fail |
| ReconcileNever.HalfFinishedFanOutIsRelaunched | crates/orion-controller/src/decisions.rs:107-112 | of two replicas the agent launches one, it exits with success, and slot 0 is launched again |
| ReconcileNever.UnheardIsRelaunchedExactlyWhen | crates/orion-controller/src/decisions.rs:91-98 | a process not heard from is launched again by a pass exactly when the pass is a full redispatch, its slot has no record, or a record there awaits a restart |
| ReconcileNever.PassBeforeFirstLine | crates/orion-controller/src/main.rs:239-244 | a second pass before the first log line launches every slot but 0 again, whatever the policy; it is a no-op exactly for one replica |
| ReconcileLimits.LateLineSharesSlot | crates/orion-controller/src/main.rs:1621-1624 | a run from an empty registry in which an unhealthy process is replaced without a stop and its next line puts two live processes on record in one slot |
| ReconcileLimits.RecoverySharesSlot | crates/orion-controller/src/decisions.rs:107-112 | a run under `Never` in which an unhealthy process recovers beside the one launched over it |
| ReconcileLimits.PhantomExactlyWhen | crates/orion-controller/src/main.rs:1613-1645 | in every run the records under whose id no process was launched are exactly those of partial dispatches and of dispatches that launched nothing |
| ReconcileLimits.NoOpLeavesOnlySlotZero | crates/orion-controller/src/decisions.rs:101-103 | at a no-op every slot has a process on record, except possibly slot 0 when a record without one sits there |
| ReconcileLimits.RefusalLosesExactlyWhen | crates/orion-controller/src/main.rs:1620-1647 | a dispatch that fails leaves slot 0 hidden, that is, on record only without a process, exactly when every process of slot 0 is to be replaced and a record without a process exists |
| ReconcileLimits.HiddenAfterPass | crates/orion-controller/src/main.rs:1589-1650 | a dispatch that is sent leaves slot 0 hidden exactly when every process of slot 0 is to be replaced, unless it is a full redispatch of which a slot gets through |
| ReconcileLimits.DispatchLosesExactlyWhen | crates/orion-controller/src/main.rs:1589-1650 | it does so and launches no process for slot 0 exactly when also the agent launches nothing, or slot 0 was hidden already |
| ReconcileLimits.HiddenExactlyUntil | crates/orion-controller/src/main.rs:1589-1650 | a hidden slot 0 stays hidden exactly as long as no process ever launched for it writes a line, and until then no run launches it again |
| ReconcileLimits.EmptyFirstLaunchLosesSlotZero | crates/orion-controller/src/main.rs:1613-1615 | for every service: if the first dispatch launches nothing, slot 0 is never launched, whatever follows; with one replica every later decision is a no-op |
| ReconcileRunning.RunsShowExits | crates/orion-controller/src/main.rs:333-342 | in every run a record of a process shows its exit, unless a line that came after the exit put it there; with lines in order there is no such record |
| ReconcileRunning.ServedExactlyWhen | crates/orion-controller/src/decisions.rs:101-103 | at a no-op of any run a slot has a process on record that runs, or ended in a way the policy accepts, exactly when it has a record of a process that shows an exit or was not put there by a line after the exit |
| ReconcileRunning.NoOpServesExactlyWhen | crates/orion-controller/src/decisions.rs:101-103 | with lines in order: at a no-op every slot is served in that way, except slot 0 when it is hidden, and then it is not; under `Always` served means that the process runs |
| ReconcilePolicy.OnFailureServesExactlyWhen | crates/orion-controller/src/decisions.rs:101-103 | with lines in order, at a no-op under `OnFailure`: every slot has a process on record that runs or exited with zero or without a code, except slot 0 when it is hidden, and then it has none |
| ReconcileRunning.LostForGoodExactlyWhen | crates/orion-controller/src/main.rs:1589-1650 | a hidden slot 0 is never shown or launched again in any continuation with lines in order, exactly when every process ever launched for it has exited |
| ReconcileRunning.GetsLostExactlyWhen | crates/orion-controller/src/main.rs:1589-1650 | in every run an event brings slot 0 into that state exactly when it is a pass that is refused or launches nothing, with all its processes ended and to be replaced, or the exit of the last process of a hidden slot 0 |
| ReconcileRunning.SilentExitLosesSlotZero | crates/orion-agent/src/main.rs:589-593 | if a partial dispatch replaces slot 0 and the new process exits before its first line, slot 0 is lost, though every dispatch was carried out |
| ReconcileRunning.SilentExitRun | crates/orion-agent/src/main.rs:589-593 | such a run from an empty registry, with two replicas under `Always` |
| Scheduler.ScoreNode | crates/orion-scheduler/src/lib.rs:74-85 | the accumulated score is 100 per preferred label the node carries minus its load |
| Scheduler.PickBest | crates/orion-scheduler/src/lib.rs:89-113 | filter, score and sort return nothing exactly when no candidate is eligible, else the id of the optimum under score descending, load ascending, id ascending |
| Scheduler.RankOrderIsTotal | crates/orion-scheduler/src/lib.rs:107-111 | the three-key comparison is a total order, so that the sort is well defined |
| Scheduler.PickIsUnique | crates/orion-scheduler/src/lib.rs:89-113 | the optimum is unique: the specification leaves no choice |
| Scheduler.PickMeetsConstraints | crates/orion-scheduler/src/lib.rs:30-51 | the picked node is a candidate with an allowed architecture and operating system, a GPU that suits, and every required label with its value |
| Scheduler.NothingPickedExactlyWhen | crates/orion-scheduler/src/lib.rs:30-51 | nothing is picked exactly when every candidate breaks one of these constraints |
| Scheduler.PickIsOptimal | crates/orion-scheduler/src/lib.rs:98-112 | no eligible candidate beats the pick on 100 per matching label less the load, then on a lower load, then on a smaller id |
| Scheduler.MatchingExactlyWhen | crates/orion-scheduler/src/lib.rs:76-80 | a preferred label counts exactly when the node carries it with the preferred value |
| Scheduler.IdLessExactlyWhen | crates/orion-scheduler/src/lib.rs:110-110 | ids are compared character by character, the first difference decides, a prefix comes first |
| Scheduler.PickIgnoresOrder | crates/orion-scheduler/src/lib.rs:89-113 | permuting or repeating candidates does not change the pick |
| Scheduler.PickIgnoresOthers | crates/orion-scheduler/src/lib.rs:89-113 | dropping candidates with another id than the picked one does not change the pick |
| Scheduler.PreferenceWinsExactlyWhen | crates/orion-scheduler/src/lib.rs:76-83 | a node matching more labels ranks first exactly while its load exceeds the other's by less than 100 per extra label; always when by less than 100 |
| Scheduler.HundredInstancesOverrideALabel | crates/orion-scheduler/src/lib.rs:81-83 | a load of 100 does override a label match, against the comment |
| Scheduler.LoadBreaksTiesExactlyWhen | crates/orion-scheduler/src/lib.rs:107-109 | the load key decides between equal scores exactly when loads differ by 100 per label of difference |
| Scheduler.PickIsLeastLoaded | crates/orion-scheduler/src/lib.rs:89-113 | among equally preferred eligible nodes the pick has the least load |
| Scheduler.DispatchesStayBalanced | crates/orion-scheduler/src/lib.rs:89-113 | over any number of dispatches a load difference of at most `d`, `d >= 1`, is kept; in particular 1 |
| Scheduler.DispatchesEvenOut | crates/orion-scheduler/src/lib.rs:89-113 | from any loads, exactly as many dispatches as the nodes are short of the highest level every node to it |
| PlacementLoop.PlacingRaisesThePick | crates/orion-controller/src/main.rs:1044-1050 | with loads counted from the registry, recording a new instance on the pick is one such dispatch |
| PlacementLoop.RegistryStaysBalanced | crates/orion-controller/src/main.rs:1044-1050 | so registry loads of equally preferred nodes stay within `d` of each other |
| InstanceRegistry.Instances.RecordDispatch | crates/orion-controller/src/main.rs:205-245 | inserts at slot 0 or updates time and node, and lists the id once |
| InstanceRegistry.Instances.NoteLine | crates/orion-controller/src/main.rs:248-289 | inserts or updates the record, saturating the line count, and lists the id once |
| InstanceRegistry.Instances.RecordExit | crates/orion-controller/src/main.rs:333-342 | stamps a known record and returns it; an unknown id changes nothing |
| InstanceRegistry.Instances.Purge | crates/orion-controller/src/main.rs:360-367 | removes the id from the store and from every list |
| InstanceRegistry.Instances.DrainFor | crates/orion-controller/src/main.rs:310-317 | removes the list of one workload and the listed records, and returns each once, in order |
| InstanceRegistry.RemoveListed | crates/orion-controller/src/main.rs:316-316 | removing record by record returns each listed record once, also if the list repeated an id |
| InstanceRegistry.DrainReturnsAll | crates/orion-controller/src/main.rs:310-317 | in every run the list has no repetition, so a drain returns the record of every listed id |
| InstanceRegistry.Instances.Snapshot | crates/orion-controller/src/main.rs:291-301 | the listed records in stable order of replica index |
| InstanceRegistry.SnapshotIsStable | crates/orion-controller/src/main.rs:299-299 | the records of one replica index keep their listed order |
| StableSort.SortIsStable | crates/orion-controller/src/main.rs:299-299 | sorting keeps the order of elements that the order does not tell apart |
| InstanceRegistry.Instances.CountAlive | crates/orion-controller/src/main.rs:345-356 | the number of listed records without an exit |
| InstanceRegistry.AlwaysIndexed | crates/orion-controller/src/main.rs:205-367 | after any sequence of operations every record is stored under its id and listed under its own kind and name, and no list repeats an id |
| InstanceRegistry.ConsistentWhenOwned | crates/orion-controller/src/main.rs:205-367 | if every id is always reported with the same kind and name, every listed id is a stored record of that workload |
| InstanceRegistry.ReportIsConsistentExactlyWhen | crates/orion-controller/src/main.rs:239-243 | a report keeps that agreement exactly when the id is new or already recorded under the same kind and name |
| InstanceRegistry.SnapshotIsBruteForce | crates/orion-controller/src/main.rs:291-301 | then a snapshot has exactly the records a filter of the whole store finds, each once, sorted by replica index |
| InstanceRegistry.AliveCountIsBruteForce | crates/orion-controller/src/main.rs:345-356 | and the alive count equals a count over the whole store |
| InstanceRegistry.DispatchRaisesLoad | crates/orion-controller/src/main.rs:1045-1050 | recording a new instance raises the load of its node by one and of no other |
| InstanceRegistry.ExitLowersLoad | crates/orion-controller/src/main.rs:1045-1050 | the exit of a running instance lowers the load of its node by one and of no other; any other exit changes no load |
| InstanceRegistry.ExitLowersAliveCount | crates/orion-controller/src/main.rs:345-356 | and the alive count of its workload, of no other |
| InstanceRegistry.ExitIsRecorded | crates/orion-controller/src/main.rs:333-342 | an exit puts time, code and kind on the record of a known id and changes nothing else; that of an unknown id changes nothing |
| InstanceRegistry.ExitsStay | crates/orion-controller/src/main.rs:205-342 | through any operations an exit stays on record until the record is removed: no line and no dispatch clears it |
| InstanceRegistry.DispatchIsRecorded | crates/orion-controller/src/main.rs:205-245 | what a dispatch leaves on record for a known and an unknown id, and that it changes no other record |
| InstanceRegistry.LineIsRecorded | crates/orion-controller/src/main.rs:248-289 | what a line leaves on record for a known and an unknown id, the saturating count included |
| InstanceRegistry.RemovalsRemove | crates/orion-controller/src/main.rs:310-367 | a purge removes one record and its listings, a drain one list and its records, and nothing else |
| CronTick.ScheduleRegistry.TickOne | crates/orion-controller/src/main.rs:1686-1760 | one schedule's share of a tick: parse failure, arming, waiting, failed and successful fire |
| CronTick.ScheduleRegistry.Arm | crates/orion-controller/src/main.rs:391-402 | a new schedule is armed at the clock, a known one is left alone |
| CronTick.ScheduleRegistry.TickPass | crates/orion-controller/src/main.rs:1672-1761 | a pass ticks the stored schedules one after the other |
| CronTick.RegistryFollowsRuns | crates/orion-controller/src/main.rs:1672-1761 | after any ticks the registry holds, for each schedule ticked, exactly what its own ticks give by themselves, so that every theorem about runs is about the registry |
| CronTick.ArmedAtFirstTick | crates/orion-controller/src/main.rs:393-400 | a schedule is armed at the clock of its first tick, and its last fire is the start of the latest tick that fired |
| CronTick.ErrorShownExactlyWhen | crates/orion-controller/src/main.rs:1688-1757 | in every run an error is shown exactly when some tick failed to parse or to dispatch what was due, and none has fired since |
| CronTick.NoInstantFiresTwice | crates/orion-controller/src/main.rs:1723-1752 | under a monotone clock each successful fire serves a cron instant after arming and not after the fire, and a later fire serves one after the earlier fire: none fires twice, and the counter counts them |
| CronTick.NoInstantIsLeftUnserved | crates/orion-controller/src/main.rs:1726-1752 | after a tick whose dispatch succeeds or is not due, every instant since arming is served by a fire; missed ones share one |
| CronTick.FailedFireStaysDue | crates/orion-controller/src/main.rs:1753-1758 | a due schedule stays due through any number of failing ticks, and the first tick that dispatches fires once |
| CronTick.ShownInstantIsNext | crates/orion-controller/src/main.rs:1723-1724 | from the second tick on the instant shown as next is the one that fires next |
| CronTick.FirstShownInstantExactlyWhen | crates/orion-controller/src/main.rs:1714-1719 | the arming tick shows the right instant exactly when none lies between the tick's start and the arming time |
| LogFollower.LogBuffer.Push | crates/orion-controller/src/main.rs:75-82 | drops the oldest entry of a full ring and appends; other rings are untouched |
| LogFollower.LogBuffer.Snapshot | crates/orion-controller/src/main.rs:84-97 | the entries from the clamped starting point on, and the ring length as total |
| LogFollower.LogClient.PollOnce | crates/orion-cli/src/cmd/logs.rs:43-71 | prints what the poll returned, the first time trimmed to the tail, and moves to the reported total |
| LogFollower.LogClient.PollFails | crates/orion-cli/src/cmd/logs.rs:61-67 | a failed first read ends the client, a failed later poll is skipped |
| LogFollower.RingIsLastOfHistory | crates/orion-controller/src/main.rs:75-82 | each ring is the last min(500, n) of the n entries pushed for its workload |
| LogFollower.PollIsLosslessExactlyWhen | crates/orion-controller/src/main.rs:84-97 | at any point of any run a poll returns exactly the lines since the previous one if and only if at most 500 were ever pushed or none since |
| LogFollower.StuckAtCapacity | crates/orion-cli/src/cmd/logs.rs:58-72 | once the starting point has reached 500 nothing is ever printed again |
| LogFollower.FollowerPrintsAllExactlyWhen | crates/orion-cli/src/cmd/logs.rs:40-73 | a follower without `tail` that has just polled has printed every line once and in order if and only if at most 500 were ever pushed; it never prints more than 500 |
| LogFollower.TailFollowerPrintsASuffix | crates/orion-cli/src/cmd/logs.rs:45-53 | with `tail` it has printed an unbroken stretch of the history up to its last poll, while at most 500 were pushed |
| LogFollower.FirstReadShowsTail | crates/orion-cli/src/cmd/logs.rs:43-53 | the first read prints the last lines in the ring, at most 500, or the last `tail` of them if that is fewer, and the next starts behind them |
| LogFollower.LaterPollShowsRest | crates/orion-cli/src/cmd/logs.rs:58-72 | a later poll prints what stands in the ring behind the starting point |
| LogFollower.FailedPollIsSkipped | crates/orion-cli/src/cmd/logs.rs:61-66 | a failed poll after the first read changes nothing |
| LogFollower.FailedFirstReadEnds | crates/orion-cli/src/cmd/logs.rs:43-43 | after a failed first read nothing is ever printed |
| NativeAdapter.Adapter.LaunchChild | crates/orion-runtime/src/native.rs:75-84 | the child goes into a new cell and under its id in the map, in place of any other launch there; a wait task starts only if exits are wanted |
| NativeAdapter.Adapter.TakeToWait | crates/orion-runtime/src/native.rs:85-88 | the wait task takes the child exactly when it is still in the cell, else it returns |
| NativeAdapter.Adapter.Reap | crates/orion-runtime/src/native.rs:89-103 | the wait task goes on when the child has exited |
| NativeAdapter.Adapter.Unlist | crates/orion-runtime/src/native.rs:104-105 | the wait task removes the map entry of its id after the exit, whatever launch it points to |
| NativeAdapter.Adapter.Notify | crates/orion-runtime/src/native.rs:106-106 | the wait task sends its one notice and returns |
| NativeAdapter.Adapter.RemoveToStop | crates/orion-runtime/src/native.rs:117-120 | a stop removes the map entry exactly when there is one, else it returns |
| NativeAdapter.Adapter.TakeToKill | crates/orion-runtime/src/native.rs:121-124 | a stop takes the child exactly when it is still in the cell, else it returns |
| NativeAdapter.Adapter.Kill | crates/orion-runtime/src/native.rs:125-129 | a stop kills the child it took, or returns the error |
| NativeAdapter.StepKeepsInvariant | crates/orion-runtime/src/native.rs:71-130 | every step of a launch, of a wait task and of a stop call keeps the ownership invariant, also when ids are used again |
| NativeAdapter.EveryInterleavingKeepsInvariant | crates/orion-runtime/src/native.rs:71-130 | hence every interleaving |
| NativeAdapter.ChildHasOneOwner | crates/orion-runtime/src/native.rs:84-130 | the child is taken at most once, at most one notice is sent and only if the wait task won, a kill needs a stop that won, and the map entry is gone once the wait task returned or a stop won |
| NativeAdapter.UnlistedStays | crates/orion-runtime/src/native.rs:105-120 | a launch whose map entry is gone, whoever removed it, is never listed again |
| NativeAdapter.EndsInExactlyOneWay | crates/orion-runtime/src/native.rs:84-130 | when all tasks have returned, a launch with a wait task was taken exactly once and was noticed or stopped, never both and never neither; so was one without a wait task that is off the map, if its id was not used again |
| NativeAdapter.WantedNoticeIsSent | crates/orion-runtime/src/native.rs:75-108 | a launch with an exit sink is listed with its child and has a wait task ever after; when all tasks have returned it was taken exactly once and noticed or stopped, with one notice exactly if no stop took it |
| NativeAdapter.UnwantedNoticeIsNotSent | crates/orion-runtime/src/native.rs:81-81 | a launch without one gets no notice, ever |
| NativeAdapter.StopEndsListedChild | crates/orion-runtime/src/native.rs:116-130 | a stop that finds a listed child in its cell takes it off the map and out of the cell, and it is killed exactly if the kill succeeds |
| NativeAdapter.WaitTaskEndsListedChild | crates/orion-runtime/src/native.rs:84-107 | an undisturbed wait task sends one notice and leaves no map entry under its id |
| NativeAdapter.OrphanedExactlyWhen | crates/orion-runtime/src/native.rs:76-105 | a step puts a child out of reach of every task exactly when the child is listed, in its cell and without a wait task, and the step takes its map entry for another launch under its id: a new launch, or the wait task of one that exited |
| NativeAdapter.OrphanNeedsReuse | crates/orion-runtime/src/native.rs:76-79 | a child that no task can reach any more had its id used again |
| NativeAdapter.ReuseOrphans | crates/orion-runtime/src/native.rs:76-79 | launching twice under one id without exit notices leaves the first child in that state |
| NativeAdapter.OrphansAreNeverStopped | crates/orion-runtime/src/native.rs:116-124 | no continuation ever stops such a child |
| NativeAdapter.WaitedChildIsNeverKilled | crates/orion-runtime/src/native.rs:116-124 | once the wait task has the child no later stop can kill it, in any continuation |
| Snapshot.EmitMultiDoc | crates/orion-cli/src/cmd/snapshot.rs:25-37 | the stream is each document behind a marker line, in order |
| Snapshot.FindReturnsFirst | crates/orion-cli/src/cmd/snapshot.rs:16-16 | the search returns the first separator, or nothing exactly when there is none |
| Snapshot.StreamOfTwo | crates/orion-cli/src/cmd/snapshot.rs:16-34 | the marker and the separator as they stand in a stream |
| Snapshot.SplitStream | crates/orion-cli/src/cmd/snapshot.rs:15-21 | a text followed by emitted documents splits into them all, trimmed |
| Snapshot.SolidPieces | crates/orion-cli/src/cmd/snapshot.rs:16-16 | splitting loses exactly three solid characters per cut and no other |
| Snapshot.RoundTripExactlyWhen | crates/orion-cli/src/cmd/snapshot.rs:15-37 | for any rendered documents, splitting the emitted stream gives them back in order, trimmed, the first behind its marker, if and only if none contains the separator and the first does not begin with the marker |
| Columns.ParseHeaderRow | crates/orion-cli/src/cmd/json.rs:213-234 | headers are the maximal blank-free runs of the line, in order, with their offsets; what they leave is blank |
| Columns.HeadersAndGaps | crates/orion-cli/src/cmd/json.rs:218-231 | a character of the line is a space or a tab exactly when it is in no header |
| Columns.SliceAtColumns | crates/orion-cli/src/cmd/json.rs:237-257 | slicing fails exactly when a column that begins within the row ends before it begins; else cell `k` is the stretch between offset `k` and the next, both clipped to the row, and the last one takes the rest |
| Columns.CellIs | crates/orion-cli/src/cmd/json.rs:240-256 | a column that begins at or behind the end of the row is empty, another holds the row from its offset to the next one or to the end |
| Columns.StartsAscend | crates/orion-cli/src/cmd/json.rs:230-231 | the offsets of a header row strictly ascend, so every row can be sliced at them |
| Columns.CellsConcatenate | crates/orion-cli/src/cmd/json.rs:237-257 | at offsets that do not descend the cells concatenate to the row from the first column on |
| Columns.LaidOutReadsBackExactlyWhen | crates/orion-cli/src/cmd/json.rs:237-257 | a value laid out under its header with blanks behind it trims back to itself exactly when it has no white space at its ends |
| Columns.HeaderRowReadsBack | crates/orion-cli/src/cmd/json.rs:213-257 | slicing the header row at its own offsets and trimming gives the headers back |
| Text.TrimKeepsExactlyWhen | crates/orion-cli/src/cmd/json.rs:197-197 | trimming changes a text exactly when white space stands at one of its ends |
| Text.WhiteInAscii | crates/orion-cli/src/cmd/json.rs:197-197 | the ASCII characters that trimming removes |
| SqliteTap.Poller.PollOnce | crates/orion-sqlite-tap/src/main.rs:64-107 | one turn of the loop: a failed select changes nothing, else the page is handed over |
| SqliteTap.Poller.HandRows | crates/orion-sqlite-tap/src/main.rs:75-106 | rows are published one by one with the cursor behind each; the first failed publish ends the process there |
| SqliteTap.Poller.constructor | crates/orion-sqlite-tap/src/main.rs:54-60 | the cursor starts at zero or at the greatest rowid present, zero for an empty table |
| SqliteTap.HandedOver | crates/orion-sqlite-tap/src/main.rs:75-106 | what is handed over is the part of the page before the first row whose publish fails |
| SqliteTap.RunsAreOrdered | crates/orion-sqlite-tap/src/main.rs:54-107 | in every run of inserts, deletes and polls the rowids in the queue strictly ascend from above the start to the cursor, so none is published twice |
| SqliteTap.PublishedExactlyWhen | crates/orion-sqlite-tap/src/main.rs:54-107 | a row of the table was published exactly when it was inserted ahead of the cursor and the cursor has passed it since; a row under a rowid used before is a row of its own |
| SqliteTap.PublishedWasPassed | crates/orion-sqlite-tap/src/main.rs:54-107 | whatever was published, still in the table or not, was such a row |
| SqliteTap.LateRowsAreNeverPublished | crates/orion-sqlite-tap/src/lib.rs:18-22 | a row inserted at or behind the cursor, under a new or a used rowid, is missed for good |
| SqliteTap.RisingRowidsLoseNothing | crates/orion-sqlite-tap/src/lib.rs:18-22 | if every insert takes a rowid above all earlier ones, a row above the start is published exactly once the cursor has passed it |
| SqliteTap.PollProgress | crates/orion-sqlite-tap/src/lib.rs:18-22 | a poll without failure hands over a full page of 1000 rows or all that is outstanding |
| SqliteTap.PollsCatchUp | crates/orion-sqlite-tap/src/lib.rs:18-22 | `k` such polls work off any backlog of at most `k` pages |
| SqliteTap.EveryRowIsPublished | crates/orion-sqlite-tap/src/main.rs:54-107 | end to end: with rising rowids, enough polls after the last change have published every row above the start |
| SqliteTap.RowsBeforeTheTapAreSkipped | crates/orion-sqlite-tap/src/main.rs:54-60 | not told to begin at zero, the tap publishes only rowids above all that were there before it |
| SqliteTap.FromZeroPublishesAll | crates/orion-sqlite-tap/src/main.rs:54-60 | told to, it publishes every row with a positive rowid, under the same conditions |
| SqliteTap.FailureEndsExactlyWhen | crates/orion-sqlite-tap/src/main.rs:67-103 | a failed select changes nothing; a poll ends the tap exactly when the publish of a row of the page fails |
| SqliteTap.FailingRowsAreNotPublished | crates/orion-sqlite-tap/src/main.rs:101-105 | a row whose publish fails is not published |
| SqliteTap.EndedTapIsSilent | crates/orion-sqlite-tap/src/main.rs:102-102 | a tap that has ended never publishes again |

## Left out

- ReconcileSlots.SlotSafety: is about processes on record; a purge sends no stop, so an unhealthy process may still run beside its replacement.
- ReconcileLoop.ServiceReconciler.NoteLine: a line of a process that is on record only updates counters, which this loop leaves to `InstanceRegistry`.
- WorkflowMeaning.RunsAgreeWithMeaning: fixes one outcome per task, because exits are kept per task name and an old exit of a task counts for a step that has just started.
- Columns.SliceAtColumns: texts are ASCII; a byte offset inside a multi-byte character, where the original panics too, is not modelled.
- SqliteTap.Poller.HandRows: has no branch for a row whose rowid does not decode, because SQLite stores every rowid as a 64-bit integer; the column values of an event are left out.
- Snapshot.RoundTripExactlyWhen: rendering a resource to YAML is outside the model; a rendered document is any text that is not blank and ends in a newline.
- The error text and the last instance id of a schedule observation; cron parsing.
- `plan_all_workflows`, `pack_row`, `probe_loop`, `kind_for_name`, log search: loops without interaction, which would only add easy members.
- Unsigned 32-bit overflow when slot counts or loads are added up, reachable only with billions of instances.
- Deadlock freedom and real time: each registry method is one atomic step.
- Candidate gathering and the single-node fallback in `pick_node_for_dispatch`; roles, the `acceleration` field and capability matching.
- NATS, HTTP, SQLite and serialization; the adapters other than the native one; the user interfaces and clients.
