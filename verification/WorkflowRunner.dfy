/**
 The controller's workflow loop: it keeps one record per workflow name, applies
 the plan to it, overrides steps whose dispatch failed, and stamps `finishedAt`
 from the plan's own `finished` flag.
 */
module WorkflowRunner {
  import opened Options
  import opened WorkflowPlan
  import opened WorkflowRuns
  import opened WorkflowMeaning

  datatype WorkflowProgress = WorkflowProgress(steps: Progress, startedAt: int, finishedAt: Option<int>)

  /** A tick of one workflow: its inputs and the clock when it is handled. */
  datatype TimedTick = TimedTick(input: TickInput, clock: int)

  function NewProgress(t: TimedTick): WorkflowProgress {
    WorkflowProgress(map n | n in Names(t.input.spec.steps) :: Pending, t.clock, None)
  }

  /** One tick on a record; a stamped record is skipped. */
  function TickRecord(w: WorkflowProgress, t: TimedTick): WorkflowProgress {
    if w.finishedAt.Some? then w
    else WorkflowProgress(
        Tick(t.input, w.steps),
        w.startedAt,
        if Plan(t.input, w.steps).finished then Some(t.clock) else None)
  }

  function RecordOf(byName: map<string, WorkflowProgress>, name: string, t: TimedTick): WorkflowProgress {
    if name in byName then byName[name] else NewProgress(t)
  }

  /** The records after ticking the first `k` listed workflows. */
  function TickListed(byName: map<string, WorkflowProgress>, workflows: seq<(string, TimedTick)>, k: nat)
    : map<string, WorkflowProgress>
    requires k <= |workflows|
  {
    if k == 0 then byName
    else
      var before := TickListed(byName, workflows, k - 1);
      var (name, t) := workflows[k - 1];
      before[name := TickRecord(RecordOf(before, name, t), t)]
  }

  /** Record the planned statuses, then try each dispatch: a refused one becomes Failed. */
  method ApplyPlan(recorded: Progress, plan: Advance, refused: set<string>) returns (steps: Progress)
    requires recorded.Keys <= plan.next.Keys
    requires forall n :: n in plan.dispatch ==> StatusIn(plan.next, n) == Running
    ensures steps == map n | n in plan.next :: if n in plan.dispatch && n in refused then Failed else plan.next[n]
  {
    steps := recorded + plan.next;
    for i := 0 to |plan.dispatch|
      invariant steps.Keys == plan.next.Keys
      invariant forall n :: n in steps ==>
                  steps[n] == if n in plan.dispatch[..i] && n in refused then Failed else plan.next[n]
    {
      var step := plan.dispatch[i];
      assert StatusIn(plan.next, step) == Running;
      steps := steps[step := if step in refused then Failed else Running];
      assert plan.dispatch[..i + 1] == plan.dispatch[..i] + [step];
    }
    assert plan.dispatch[..|plan.dispatch|] == plan.dispatch;
  }

  /** One tick of one workflow on its recorded statuses. */
  method TickSteps(t: TickInput, recorded: Progress) returns (steps: Progress, finished: bool)
    ensures steps == Tick(t, recorded) && finished == Plan(t, recorded).finished
  {
    var plan := AdvanceWorkflow(t.spec, recorded, t.reports);
    AdvanceMovesForward(t.spec, recorded, t.reports);
    DispatchIsJustified(t.spec, recorded, t.reports);
    steps := ApplyPlan(recorded, plan, t.refused);
    finished := plan.finished;
  }

  class WorkflowRegistry {
    var byName: map<string, WorkflowProgress>

    constructor ()
      ensures byName == map[]
    {
      byName := map[];
    }

    /** Advance one workflow, dispatching each planned step in turn. */
    method TickWorkflow(name: string, t: TimedTick)
      modifies this
      ensures byName == old(byName)[name := TickRecord(RecordOf(old(byName), name, t), t)]
    {
      if name !in byName {
        byName := byName[name := NewProgress(t)];
      }
      var progress := byName[name];
      if progress.finishedAt.Some? {
        return;
      }
      var steps, finished := TickSteps(t.input, progress.steps);
      byName := byName[name := WorkflowProgress(steps, progress.startedAt, if finished then Some(t.clock) else None)];
    }

    /** One pass over every stored workflow. */
    method TickOnce(workflows: seq<(string, TimedTick)>)
      modifies this
      ensures byName == TickListed(old(byName), workflows, |workflows|)
    {
      for i := 0 to |workflows|
        invariant byName == TickListed(old(byName), workflows, i)
      {
        var (name, t) := workflows[i];
        TickWorkflow(name, t);
      }
    }
  }

  // ------------------------------------------------------------ the life of one record

  /** The record of one workflow after `ticks`, the first of which creates it. */
  function RecordAfter(ticks: seq<TimedTick>): WorkflowProgress
    requires ticks != []
  {
    var m := |ticks| - 1;
    TickRecord(if m == 0 then NewProgress(ticks[0]) else RecordAfter(ticks[..m]), ticks[m])
  }

  function Inputs(ticks: seq<TimedTick>): seq<TickInput> {
    seq(|ticks|, i requires 0 <= i < |ticks| => ticks[i].input)
  }

  /** Starting from a record of Pending steps is the same as starting from nothing. */
  lemma FirstTickFromNothing(t: TimedTick)
    ensures Tick(t.input, NewProgress(t).steps) == Tick(t.input, map[])
    ensures Plan(t.input, NewProgress(t).steps) == Plan(t.input, map[])
  {
    assert Initialised(t.input.spec.steps, NewProgress(t).steps) == Initialised(t.input.spec.steps, map[]);
  }

  lemma RunAfter(ticks: seq<TimedTick>)
    requires ticks != []
    ensures var m := |ticks| - 1;
            Run(Inputs(ticks)) == Tick(ticks[m].input, Run(Inputs(ticks[..m])))
  {
    var m := |ticks| - 1;
    assert Inputs(ticks)[..m] == Inputs(ticks[..m]);
  }

  /** Until it is stamped, the record follows the run of its ticks. */
  lemma {:induction false} RecordFollowsRun(ticks: seq<TimedTick>)
    requires ticks != [] && RecordAfter(ticks).finishedAt.None?
    ensures RecordAfter(ticks).steps == Run(Inputs(ticks))
  {
    var m := |ticks| - 1;
    RunAfter(ticks);
    if m == 0 {
      FirstTickFromNothing(ticks[0]);
      assert Inputs(ticks[..m]) == [];
    } else {
      RecordFollowsRun(ticks[..m]);
    }
  }

  /** `finishedAt` is set only when every tracked step is terminal, even though
      dispatch failures override the plan and the stored workflow may be edited. */
  lemma {:induction false} StampedOnlyWhenTerminal(ticks: seq<TimedTick>)
    requires ticks != [] && RecordAfter(ticks).finishedAt.Some?
    ensures AllTerminal(RecordAfter(ticks).steps) && RecordAfter(ticks).steps != map[]
  {
    var m := |ticks| - 1;
    var before := if m == 0 then NewProgress(ticks[0]) else RecordAfter(ticks[..m]);
    if before.finishedAt.Some? {
      StampedOnlyWhenTerminal(ticks[..m]);
    } else {
      var t := ticks[m].input;
      DispatchIsJustified(t.spec, before.steps, t.reports);
      assert Tick(t, before.steps) == Plan(t, before.steps).next;
    }
  }

  /** Once stamped, the record never changes again, whatever later ticks bring. */
  lemma {:induction false} StampedRecordIsFrozen(ticks: seq<TimedTick>, i: nat)
    requires 0 < i <= |ticks| && RecordAfter(ticks[..i]).finishedAt.Some?
    ensures RecordAfter(ticks) == RecordAfter(ticks[..i])
  {
    var m := |ticks| - 1;
    if i <= m {
      assert ticks[..m][..i] == ticks[..i];
      StampedRecordIsFrozen(ticks[..m], i);
    } else {
      assert ticks[..i] == ticks;
    }
  }

  /** A workflow whose steps are all terminal is stamped by its next tick, so a
      failed last dispatch delays the stamp by one tick and never loses it. */
  lemma TerminalRecordIsStampedNext(w: WorkflowProgress, t: TimedTick)
    requires w.steps.Keys == Names(t.input.spec.steps) && AllTerminal(w.steps) && t.input.spec.steps != []
    ensures TickRecord(w, t).finishedAt.Some? && TickRecord(w, t).steps == w.steps
  {
    if w.finishedAt.None? {
      NothingLeftToDo(t.input, w.steps);
    }
  }

  // ------------------------------------------------------------ the registry over passes

  /** The registry after ticking `ticks` one by one, from nothing. */
  function Registry(ticks: seq<(string, TimedTick)>): map<string, WorkflowProgress> {
    TickListed(map[], ticks, |ticks|)
  }

  /** The registry after `passes`, each over the workflows stored at its time. */
  function AfterPasses(passes: seq<seq<(string, TimedTick)>>): map<string, WorkflowProgress> {
    if passes == [] then map[]
    else
      var m := |passes| - 1;
      TickListed(AfterPasses(passes[..m]), passes[m], |passes[m]|)
  }

  function Flat(passes: seq<seq<(string, TimedTick)>>): seq<(string, TimedTick)> {
    if passes == [] then [] else Flat(passes[..|passes| - 1]) + passes[|passes| - 1]
  }

  lemma {:induction false} TickedPrefix(
      byName: map<string, WorkflowProgress>, xs: seq<(string, TimedTick)>, ys: seq<(string, TimedTick)>, k: nat)
    requires k <= |xs| && xs <= ys
    ensures TickListed(byName, xs, k) == TickListed(byName, ys, k)
  {
    if k > 0 {
      TickedPrefix(byName, xs, ys, k - 1);
    }
  }

  lemma {:induction false} TickedInTwo(
      byName: map<string, WorkflowProgress>, xs: seq<(string, TimedTick)>, ys: seq<(string, TimedTick)>, k: nat)
    requires k <= |ys|
    ensures TickListed(byName, xs + ys, |xs| + k) == TickListed(TickListed(byName, xs, |xs|), ys, k)
  {
    if k == 0 {
      TickedPrefix(byName, xs, xs + ys, |xs|);
    } else {
      TickedInTwo(byName, xs, ys, k - 1);
    }
  }

  /** Passes are the ticks of their workflows one after the other. */
  lemma {:induction false} PassesAreTicks(passes: seq<seq<(string, TimedTick)>>)
    ensures AfterPasses(passes) == Registry(Flat(passes))
    decreases |passes|
  {
    if passes != [] {
      var m := |passes| - 1;
      PassesAreTicks(passes[..m]);
      TickedInTwo(map[], Flat(passes[..m]), passes[m], |passes[m]|);
    }
  }

  /** The ticks of one workflow, in order. */
  function TicksOf(ticks: seq<(string, TimedTick)>, name: string): seq<TimedTick> {
    if ticks == [] then []
    else
      var m := |ticks| - 1;
      TicksOf(ticks[..m], name) + (if ticks[m].0 == name then [ticks[m].1] else [])
  }

  /** A workflow is stored exactly when it was ticked, and its record is that of its own ticks
      in order, whatever happened to the others. */
  lemma {:induction false} RegistryFollowsRecords(ticks: seq<(string, TimedTick)>, name: string)
    ensures name in Registry(ticks) <==> TicksOf(ticks, name) != []
    ensures name in Registry(ticks) ==> Registry(ticks)[name] == RecordAfter(TicksOf(ticks, name))
    decreases |ticks|
  {
    if ticks != [] {
      var m := |ticks| - 1;
      RegistryFollowsRecords(ticks[..m], name);
      OneMoreTicked(ticks);
      if ticks[m].0 == name {
        OneMoreTick(TicksOf(ticks[..m], name), ticks[m].1);
      } else {
        assert TicksOf(ticks, name) == TicksOf(ticks[..m], name);
      }
    }
  }

  lemma OneMoreTicked(ticks: seq<(string, TimedTick)>)
    requires ticks != []
    ensures var m := |ticks| - 1;
            var before, (name, t) := Registry(ticks[..m]), ticks[m];
            Registry(ticks) == before[name := TickRecord(RecordOf(before, name, t), t)]
  {
    TickedPrefix(map[], ticks[..|ticks| - 1], ticks, |ticks| - 1);
  }

  lemma OneMoreTick(mine: seq<TimedTick>, t: TimedTick)
    ensures RecordAfter(mine + [t]) == TickRecord(if mine == [] then NewProgress(t) else RecordAfter(mine), t)
  {
    assert (mine + [t])[..|mine|] == mine;
  }

  /** The same after passes of the controller's loop. */
  lemma PassesFollowRecords(passes: seq<seq<(string, TimedTick)>>, name: string)
    ensures name in AfterPasses(passes) <==> TicksOf(Flat(passes), name) != []
    ensures name in AfterPasses(passes) ==> AfterPasses(passes)[name] == RecordAfter(TicksOf(Flat(passes), name))
  {
    PassesAreTicks(passes);
    RegistryFollowsRecords(Flat(passes), name);
  }

  lemma {:induction false} TicksOfMore(first: seq<(string, TimedTick)>, rest: seq<(string, TimedTick)>, name: string)
    ensures TicksOf(first + rest, name) == TicksOf(first, name) + TicksOf(rest, name)
    decreases |rest|
  {
    if rest == [] {
      assert first + rest == first;
    } else {
      var m := |rest| - 1;
      assert (first + rest)[..|first + rest| - 1] == first + rest[..m];
      TicksOfMore(first, rest[..m], name);
    }
  }

  /** A stored stamp means that every tracked step is terminal, and the record stays as it is
      through every later tick of any workflow. */
  lemma StoredStampIsFinal(first: seq<(string, TimedTick)>, rest: seq<(string, TimedTick)>, name: string)
    requires name in Registry(first) && Registry(first)[name].finishedAt.Some?
    ensures AllTerminal(Registry(first)[name].steps)
    ensures name in Registry(first + rest) && Registry(first + rest)[name] == Registry(first)[name]
  {
    var mine, all := TicksOf(first, name), TicksOf(first + rest, name);
    RegistryFollowsRecords(first, name);
    RegistryFollowsRecords(first + rest, name);
    TicksOfMore(first, rest, name);
    assert all[..|mine|] == mine;
    StampedOnlyWhenTerminal(mine);
    StampedRecordIsFrozen(all, |mine|);
  }

  /** Tick `i` stamps the record, with its own clock. */
  predicate StampedBy(ticks: seq<TimedTick>, i: nat) {
    && i < |ticks| && RecordAfter(ticks[..i + 1]).finishedAt == Some(ticks[i].clock)
    && (i > 0 ==> RecordAfter(ticks[..i]).finishedAt.None?)
  }

  /** A record keeps the clock of its first tick as its start. */
  lemma {:induction false} StartsAtFirstTick(ticks: seq<TimedTick>)
    requires ticks != []
    ensures RecordAfter(ticks).startedAt == ticks[0].clock
    decreases |ticks|
  {
    if |ticks| > 1 {
      StartsAtFirstTick(ticks[..|ticks| - 1]);
    }
  }

  /** A stamped record carries the clock of the tick that stamped it. */
  lemma {:induction false} StampIsItsTick(ticks: seq<TimedTick>) returns (i: nat)
    requires ticks != [] && RecordAfter(ticks).finishedAt.Some?
    ensures StampedBy(ticks, i) && RecordAfter(ticks).finishedAt == Some(ticks[i].clock)
    decreases |ticks|
  {
    var m := |ticks| - 1;
    if m > 0 && RecordAfter(ticks[..m]).finishedAt.Some? {
      i := StampIsItsTick(ticks[..m]);
      assert ticks[..m][..i] == ticks[..i] && ticks[..m][..i + 1] == ticks[..i + 1];
    } else {
      i := m;
      assert ticks[..m + 1] == ticks;
    }
  }
}
