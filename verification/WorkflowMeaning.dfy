/**
 What an acyclic workflow means, independently of ticks: a recursive definition
 over its dependency order. Every run agrees with it, and every run whose
 reports keep up reaches it after as many ticks as the workflow is deep.
 */
module WorkflowMeaning {
  import opened WorkflowPlan
  import opened WorkflowRuns

  /** A workflow together with what the environment will do: the exit of each task
      and the steps that cannot be dispatched. `rank` witnesses acyclicity. */
  datatype Scenario = Scenario(
    spec: WorkflowSpec,
    rank: map<string, nat>,
    outcome: string -> TaskExitKind,
    undispatchable: set<string>)

  ghost predicate Valid(w: Scenario) {
    UniqueNames(w.spec) && RankedBy(w.spec, w.rank)
  }

  /** The status step `s` ends with: Failed when fail-fast and some dependency ends
      Failed, Failed when it cannot be dispatched, else the exit of its task. */
  ghost function Meaning(w: Scenario, s: Step): StepStatus
    requires Valid(w) && s in w.spec.steps
    decreases (assert RankedAfter(Names(w.spec.steps), w.rank, s); w.rank[s.name])
  {
    if !w.spec.continueOnError && SomeDependencyFails(w, s) then Failed
    else if s.name in w.undispatchable then Failed
    else
      match w.outcome(s.task)
      case TaskSucceeded => Succeeded
      case TaskFailed => Failed
  }

  ghost predicate SomeDependencyFails(w: Scenario, s: Step)
    requires Valid(w) && s in w.spec.steps
    decreases (assert RankedAfter(Names(w.spec.steps), w.rank, s); w.rank[s.name]), 0
  {
    assert RankedAfter(Names(w.spec.steps), w.rank, s);
    exists e :: e in w.spec.steps && e.name in s.dependsOn && Meaning(w, e) == Failed
  }

  // ------------------------------------------------------------ agreement of every run

  /** The tick shows some of the exits of the scenario, and refuses exactly its undispatchable steps. */
  ghost predicate Follows(w: Scenario, t: TickInput) {
    && t.spec == w.spec
    && (forall s :: s in w.spec.steps && s.task in t.reports ==> t.reports[s.task] == w.outcome(s.task))
    && (forall s :: s in w.spec.steps ==> (s.name in t.refused <==> s.name in w.undispatchable))
  }

  ghost predicate RunOf(w: Scenario, run: seq<TickInput>) {
    forall i :: 0 <= i < |run| ==> Follows(w, run[i])
  }

  /** A recorded status that the meaning confirms. A Running step has no failing dependency to wait for. */
  ghost predicate Agrees(w: Scenario, s: Step, status: StepStatus)
    requires Valid(w) && s in w.spec.steps
  {
    match status
    case Pending => true
    case Running => w.spec.continueOnError || !SomeDependencyFails(w, s)
    case _ => Meaning(w, s) == status
  }

  ghost predicate Sound(w: Scenario, p: Progress)
    requires Valid(w)
  {
    p.Keys <= Names(w.spec.steps) && forall s :: s in w.spec.steps ==> Agrees(w, s, StatusIn(p, s.name))
  }

  /** Between ticks no undispatchable step is Running. */
  ghost predicate Settled(w: Scenario, p: Progress) {
    forall s :: s in w.spec.steps && StatusIn(p, s.name) == Running ==> s.name !in w.undispatchable
  }

  lemma PromoteAgrees(w: Scenario, t: TickInput, p: Progress)
    requires Valid(w) && Follows(w, t) && Sound(w, p) && Settled(w, p)
    ensures Sound(w, Observed(w.spec, p, t.reports)) && Settled(w, Observed(w.spec, p, t.reports))
  {
    var start, seen := Initialised(w.spec.steps, p), Observed(w.spec, p, t.reports);
    PromoteEffect(w.spec.steps, |w.spec.steps|, start, t.reports);
    forall s | s in w.spec.steps
      ensures Agrees(w, s, StatusIn(seen, s.name))
      ensures StatusIn(seen, s.name) == Running ==> StatusIn(p, s.name) == Running
    {
      assert s.name in start && start[s.name] == StatusIn(p, s.name);
      assert Agrees(w, s, start[s.name]);
      if start[s.name] == Running && seen[s.name] != Running {
        var e :| e in w.spec.steps && e.name == s.name && e.task in t.reports
                 && seen[s.name] == StatusOf(t.reports[e.task]);
        assert e == s;
      }
    }
  }

  lemma BlockedMeansFails(w: Scenario, p: Progress, s: Step)
    requires Valid(w) && Sound(w, p) && s in w.spec.steps && BlockedByFailure(w.spec.continueOnError, s, p)
    ensures SomeDependencyFails(w, s)
  {
    var d :| d in s.dependsOn && StatusIn(p, d) == Failed;
    var e :| e in w.spec.steps && e.name == d;
    assert Agrees(w, e, Failed);
  }

  lemma ReadyMeansNoFailure(w: Scenario, p: Progress, s: Step)
    requires Valid(w) && Sound(w, p) && s in w.spec.steps
    requires !w.spec.continueOnError && DepsReady(false, s, p)
    ensures !SomeDependencyFails(w, s)
  {
    forall e | e in w.spec.steps && e.name in s.dependsOn
      ensures Meaning(w, e) == Succeeded
    {
      assert DepReady(false, StatusIn(p, e.name));
      assert Agrees(w, e, Succeeded);
    }
  }

  lemma SweepStepAgrees(w: Scenario, p: Progress, s: Step)
    requires Valid(w) && Sound(w, p) && s in w.spec.steps
    ensures Sound(w, SweepStep(w.spec.continueOnError, s, p))
  {
    var coe := w.spec.continueOnError;
    var q := SweepStep(coe, s, p);
    if q == p {
      return;
    }
    assert Agrees(w, s, q[s.name]) by {
      if BlockedByFailure(coe, s, p) {
        BlockedMeansFails(w, p, s);
      } else if !coe {
        ReadyMeansNoFailure(w, p, s);
      }
    }
    UpdateIsSound(w, p, s, q[s.name]);
  }

  lemma UpdateIsSound(w: Scenario, p: Progress, s: Step, status: StepStatus)
    requires Valid(w) && Sound(w, p) && s in w.spec.steps && Agrees(w, s, status)
    ensures Sound(w, p[s.name := status])
  {
    forall e | e in w.spec.steps
      ensures Agrees(w, e, StatusIn(p[s.name := status], e.name))
    {
      assert Agrees(w, e, StatusIn(p, e.name));
    }
  }

  lemma {:induction false} SweepAgrees(w: Scenario, k: nat, p: Progress)
    requires Valid(w) && Sound(w, p) && k <= |w.spec.steps|
    ensures Sound(w, Sweep(w.spec, k, p))
  {
    if k > 0 {
      SweepAgrees(w, k - 1, p);
      SweepStepAgrees(w, Sweep(w.spec, k - 1, p), w.spec.steps[k - 1]);
    }
  }

  /** A step whose dispatch was refused is Failed, as it means; the others keep what was planned. */
  lemma OverrideAgrees(w: Scenario, t: TickInput, p: Progress, s: Step)
    requires Valid(w) && Follows(w, t) && s in w.spec.steps
    requires Agrees(w, s, StatusIn(Plan(t, p).next, s.name))
    requires s.name in Plan(t, p).dispatch ==> StatusIn(Plan(t, p).next, s.name) == Running
    ensures Agrees(w, s, StatusIn(Tick(t, p), s.name))
  {
  }

  lemma TickAgrees(w: Scenario, t: TickInput, p: Progress)
    requires Valid(w) && Follows(w, t) && Sound(w, p) && Settled(w, p)
    ensures Sound(w, Tick(t, p)) && Settled(w, Tick(t, p))
  {
    var k, seen, a := |w.spec.steps|, Observed(w.spec, p, t.reports), Plan(t, p);
    PromoteAgrees(w, t, p);
    SweepAgrees(w, k, seen);
    DispatchEffect(w.spec, k, seen);
    forall s | s in w.spec.steps
      ensures Agrees(w, s, StatusIn(Tick(t, p), s.name))
    {
      assert Agrees(w, s, StatusIn(a.next, s.name));
      OverrideAgrees(w, t, p, s);
    }
  }

  /** Every status a run has recorded so far is the one the workflow means, whatever
      the order and timing of reports. */
  lemma {:induction false} RunsAgreeWithMeaning(w: Scenario, run: seq<TickInput>)
    requires Valid(w) && RunOf(w, run)
    ensures Sound(w, Run(run)) && Settled(w, Run(run))
    ensures run != [] ==> Run(run).Keys == Names(w.spec.steps)
  {
    if run != [] {
      var m := |run| - 1;
      RunsAgreeWithMeaning(w, run[..m]);
      TickAgrees(w, run[m], Run(run[..m]));
      TickMovesForward(run[m], Run(run[..m]));
    }
  }

  /** A finished run ends with exactly the meaning of each step. */
  lemma FinishedRunIsMeaning(w: Scenario, run: seq<TickInput>)
    requires Valid(w) && RunOf(w, run) && run != [] && AllTerminal(Run(run))
    ensures Run(run).Keys == Names(w.spec.steps)
    ensures forall s :: s in w.spec.steps ==> StatusIn(Run(run), s.name) == Meaning(w, s)
  {
    RunsAgreeWithMeaning(w, run);
    forall s | s in w.spec.steps
      ensures StatusIn(Run(run), s.name) == Meaning(w, s)
    {
      assert s.name in Run(run);
      assert Agrees(w, s, StatusIn(Run(run), s.name));
    }
  }

  /** Some dependency of the step is recorded as Failed. */
  predicate HasFailedDependency(p: Progress, s: Step) {
    exists d :: d in s.dependsOn && d in p && p[d] == Failed
  }

  /** A finished run read by itself: a step is Failed exactly when, under fail-fast, one of its
      dependencies is, or it could not be dispatched, or its task failed; else it is Succeeded. */
  lemma FinishedStatusExactlyWhen(w: Scenario, run: seq<TickInput>, s: Step)
    requires Valid(w) && RunOf(w, run) && run != [] && AllTerminal(Run(run)) && s in w.spec.steps
    ensures s.name in Run(run)
    ensures Run(run)[s.name] == Failed
       <==> || (!w.spec.continueOnError && HasFailedDependency(Run(run), s))
            || s.name in w.undispatchable || w.outcome(s.task) == TaskFailed
    ensures Run(run)[s.name] == Failed || Run(run)[s.name] == Succeeded
  {
    FinishedRunIsMeaning(w, run);
    FailedDependencyIsMeant(w, Run(run), s);
    assert s.name in Names(w.spec.steps);
  }

  lemma FailedDependencyIsMeant(w: Scenario, p: Progress, s: Step)
    requires Valid(w) && p.Keys == Names(w.spec.steps) && s in w.spec.steps
    requires forall e :: e in w.spec.steps ==> StatusIn(p, e.name) == Meaning(w, e)
    ensures HasFailedDependency(p, s) <==> SomeDependencyFails(w, s)
  {
    if d :| d in s.dependsOn && d in p && p[d] == Failed {
      var e :| e in w.spec.steps && e.name == d;
      assert Meaning(w, e) == Failed;
    }
    if e :| e in w.spec.steps && e.name in s.dependsOn && Meaning(w, e) == Failed {
      assert e.name in Names(w.spec.steps);
      assert p[e.name] == Failed;
    }
  }

  /** Confluence: any two finished runs of workflows with the same steps, in any
      list order, under the same outcomes end with the same statuses. */
  lemma FinishedRunsCoincide(w: Scenario, run: seq<TickInput>, w': Scenario, run': seq<TickInput>)
    requires Valid(w) && RunOf(w, run) && run != [] && AllTerminal(Run(run))
    requires Valid(w') && RunOf(w', run') && run' != [] && AllTerminal(Run(run'))
    requires SameWorkflow(w, w')
    ensures Run(run) == Run(run')
  {
    FinishedRunIsMeaning(w, run);
    FinishedRunIsMeaning(w', run');
    MeaningsCoincide(w, Run(run), w', Run(run'));
  }

  /** Status maps that give every step its meaning are equal. */
  lemma MeaningsCoincide(w: Scenario, p: Progress, w': Scenario, p': Progress)
    requires Valid(w) && Valid(w') && SameWorkflow(w, w')
    requires p.Keys == Names(w.spec.steps) && p'.Keys == Names(w'.spec.steps)
    requires forall s :: s in w.spec.steps ==> StatusIn(p, s.name) == Meaning(w, s)
    requires forall s :: s in w'.spec.steps ==> StatusIn(p', s.name) == Meaning(w', s)
    ensures p == p'
  {
    assert p.Keys == p'.Keys;
    forall n | n in p
      ensures p[n] == p'[n]
    {
      var s :| s in w.spec.steps && s.name == n;
      MeaningIgnoresOrder(w, w', s);
    }
  }

  ghost predicate SameWorkflow(w: Scenario, w': Scenario) {
    && (forall s :: s in w.spec.steps <==> s in w'.spec.steps)
    && w.spec.continueOnError == w'.spec.continueOnError
    && w.outcome == w'.outcome && w.undispatchable == w'.undispatchable
  }

  /** The meaning depends neither on the list order nor on the numbering chosen. */
  lemma {:induction false} MeaningIgnoresOrder(w: Scenario, w': Scenario, s: Step)
    requires Valid(w) && Valid(w') && SameWorkflow(w, w') && s in w.spec.steps
    ensures Meaning(w, s) == Meaning(w', s)
    decreases (assert RankedAfter(Names(w.spec.steps), w.rank, s); w.rank[s.name])
  {
    assert RankedAfter(Names(w.spec.steps), w.rank, s);
    forall e | e in w.spec.steps && e.name in s.dependsOn
      ensures Meaning(w, e) == Meaning(w', e)
    {
      MeaningIgnoresOrder(w, w', e);
    }
    assert SomeDependencyFails(w, s) <==> SomeDependencyFails(w', s);
  }

  // ------------------------------------------------------------ progress and termination

  /** The tick sees an exit for the task of every Running step. */
  ghost predicate Attentive(t: TickInput, p: Progress) {
    forall s :: s in t.spec.steps && StatusIn(p, s.name) == Running ==> s.task in t.reports
  }

  /** Every tick of the run is a tick of `spec` and attentive to the statuses it starts from. */
  ghost predicate AttentiveRun(spec: WorkflowSpec, run: seq<TickInput>)
    ensures AttentiveRun(spec, run) ==> AllTicksOf(spec, run)
  {
    run != [] ==>
      var m := |run| - 1;
      AttentiveRun(spec, run[..m]) && run[m].spec == spec && Attentive(run[m], Run(run[..m]))
  }

  function Cost(status: StepStatus): nat {
    match status
    case Pending => 2
    case Running => 1
    case _ => 0
  }

  /** 2 per Pending step and 1 per Running step, over the first `k` listed steps. */
  function Weight(steps: seq<Step>, k: nat, p: Progress): nat
    requires k <= |steps|
  {
    if k == 0 then 0 else Weight(steps, k - 1, p) + Cost(StatusIn(p, steps[k - 1].name))
  }

  lemma {:induction false} WeightNeverGrows(steps: seq<Step>, k: nat, p: Progress, q: Progress)
    requires k <= |steps| && Advances(p, q)
    ensures Weight(steps, k, q) <= Weight(steps, k, p)
    ensures (exists i :: 0 <= i < k && Cost(StatusIn(q, steps[i].name)) < Cost(StatusIn(p, steps[i].name)))
            ==> Weight(steps, k, q) < Weight(steps, k, p)
  {
    if k > 0 {
      WeightNeverGrows(steps, k - 1, p, q);
    }
  }

  /** After an attentive tick every step that was Running is terminal, and every
      step whose dependencies are terminal is no longer Pending. */
  lemma AttentiveTick(t: TickInput, p: Progress, i: nat)
    requires i < |t.spec.steps| && Attentive(t, p)
    ensures StatusIn(p, t.spec.steps[i].name) != Pending ==> Terminal(StatusIn(Tick(t, p), t.spec.steps[i].name))
    ensures (forall d :: d in t.spec.steps[i].dependsOn ==> Terminal(StatusIn(Observed(t.spec, p, t.reports), d)))
            ==> StatusIn(Tick(t, p), t.spec.steps[i].name) != Pending
  {
    var spec, s := t.spec, t.spec.steps[i];
    var k, start, seen := |spec.steps|, Initialised(spec.steps, p), Observed(spec, p, t.reports);
    PromoteEffect(spec.steps, k, start, t.reports);
    SweepEffect(spec, k, seen);
    DispatchEffect(spec, k, seen);
    if forall d :: d in s.dependsOn ==> Terminal(StatusIn(seen, d)) {
      SweepResolves(spec, i, seen);
    }
  }

  /** A Pending step that only waits for settled steps, in any list order. */
  lemma {:induction false} LowestPending(spec: WorkflowSpec, rank: map<string, nat>, p: Progress, i: nat)
    returns (j: nat)
    requires RankedBy(spec, rank) && i < |spec.steps| && StatusIn(p, spec.steps[i].name) == Pending
    ensures j < |spec.steps| && StatusIn(p, spec.steps[j].name) == Pending
    ensures forall d :: d in spec.steps[j].dependsOn ==> StatusIn(p, d) != Pending
    decreases (assert RankedAfter(Names(spec.steps), rank, spec.steps[i]); rank[spec.steps[i].name])
  {
    var s := spec.steps[i];
    assert RankedAfter(Names(spec.steps), rank, s);
    if d :| d in s.dependsOn && StatusIn(p, d) == Pending {
      var e :| e in spec.steps && e.name == d;
      var i' :| 0 <= i' < |spec.steps| && spec.steps[i'] == e;
      j := LowestPending(spec, rank, p, i');
    } else {
      j := i;
    }
  }

  /** Termination measure: no tick raises the weight, and an attentive tick lowers
      it unless every step is already terminal. */
  lemma WeightDrops(rank: map<string, nat>, t: TickInput, p: Progress)
    requires RankedBy(t.spec, rank)
    ensures Weight(t.spec.steps, |t.spec.steps|, Tick(t, p)) <= Weight(t.spec.steps, |t.spec.steps|, p)
    ensures Attentive(t, p) && (exists s :: s in t.spec.steps && !Terminal(StatusIn(p, s.name)))
            ==> Weight(t.spec.steps, |t.spec.steps|, Tick(t, p)) < Weight(t.spec.steps, |t.spec.steps|, p)
  {
    var spec, q := t.spec, Tick(t, p);
    var k := |spec.steps|;
    TickMovesForward(t, p);
    WeightNeverGrows(spec.steps, k, p, q);
    if Attentive(t, p) {
      if i :| 0 <= i < k && StatusIn(p, spec.steps[i].name) == Running {
        AttentiveTick(t, p, i);
        assert Cost(StatusIn(q, spec.steps[i].name)) < Cost(StatusIn(p, spec.steps[i].name));
      } else if i :| 0 <= i < k && StatusIn(p, spec.steps[i].name) == Pending {
        var j := LowestPending(spec, rank, p, i);
        PendingResolved(rank, t, p, j);
        assert Cost(StatusIn(q, spec.steps[j].name)) < Cost(StatusIn(p, spec.steps[j].name));
      }
    }
  }

  lemma PendingResolved(rank: map<string, nat>, t: TickInput, p: Progress, j: nat)
    requires RankedBy(t.spec, rank) && Attentive(t, p) && j < |t.spec.steps|
    requires forall d :: d in t.spec.steps[j].dependsOn ==> StatusIn(p, d) != Pending
    ensures StatusIn(Tick(t, p), t.spec.steps[j].name) != Pending
  {
    var spec, s := t.spec, t.spec.steps[j];
    assert RankedAfter(Names(spec.steps), rank, s);
    PromoteEffect(spec.steps, |spec.steps|, Initialised(spec.steps, p), t.reports);
    forall d | d in s.dependsOn
      ensures Terminal(StatusIn(Observed(spec, p, t.reports), d))
    {
      var e :| e in spec.steps && e.name == d;
      var i :| 0 <= i < |spec.steps| && spec.steps[i] == e;
    }
    AttentiveTick(t, p, j);
  }

  /** Depth bound: in an attentive run a step of rank `r` has left Pending after
      `r + 1` ticks and is terminal after `r + 2`, in any list order. */
  lemma {:induction false} TerminalByRank(spec: WorkflowSpec, rank: map<string, nat>, run: seq<TickInput>, j: nat)
    requires RankedBy(spec, rank) && AttentiveRun(spec, run) && j < |spec.steps|
    requires spec.steps[j].name in rank
    ensures |run| >= rank[spec.steps[j].name] + 1 ==> StatusIn(Run(run), spec.steps[j].name) != Pending
    ensures |run| >= rank[spec.steps[j].name] + 2 ==> Terminal(StatusIn(Run(run), spec.steps[j].name))
    decreases |run|
  {
    if run != [] {
      var m := |run| - 1;
      var t, p := run[m], Run(run[..m]);
      assert RankedAfter(Names(spec.steps), rank, spec.steps[j]);
      if |run| >= rank[spec.steps[j].name] + 1 {
        forall d | d in spec.steps[j].dependsOn
          ensures StatusIn(p, d) != Pending
        {
          var e :| e in spec.steps && e.name == d;
          var i :| 0 <= i < |spec.steps| && spec.steps[i] == e;
          TerminalByRank(spec, rank, run[..m], i);
        }
        PendingResolved(rank, t, p, j);
      }
      TerminalByRank(spec, rank, run[..m], j);
      AttentiveTick(t, p, j);
    }
  }

  /** A workflow of `n` steps with unique names and no stuck set is finished after
      `n + 1` attentive ticks, and from then on every plan reports it finished. */
  lemma AcyclicWorkflowFinishes(spec: WorkflowSpec, run: seq<TickInput>, t: TickInput)
    requires UniqueNames(spec) && spec.steps != []
    requires forall c :: Stuck(spec, c) ==> c == {}
    requires AttentiveRun(spec, run) && |run| >= |Names(spec.steps)| + 1 && t.spec == spec
    ensures AllTerminal(Run(run)) && Run(run).Keys == Names(spec.steps)
    ensures Plan(t, Run(run)).finished && Plan(t, Run(run)).next == Run(run)
  {
    var rank, c := RankedOrStuck(spec);
    RankedRunFinishes(spec, rank, run);
    NothingLeftToDo(t, Run(run));
  }

  lemma RankedRunFinishes(spec: WorkflowSpec, rank: map<string, nat>, run: seq<TickInput>)
    requires RankedBy(spec, rank) && AttentiveRun(spec, run) && run != []
    requires forall n :: n in rank ==> rank[n] + 2 <= |run|
    ensures AllTerminal(Run(run)) && Run(run).Keys == Names(spec.steps)
  {
    KeysAreNames(spec, run);
    forall n | n in Run(run)
      ensures Terminal(StatusIn(Run(run), n))
    {
      var j :| 0 <= j < |spec.steps| && spec.steps[j].name == n;
      assert RankedAfter(Names(spec.steps), rank, spec.steps[j]);
      TerminalByRank(spec, rank, run, j);
    }
  }

  /** Once every listed step is terminal a plan changes nothing and says so. */
  lemma NothingLeftToDo(t: TickInput, p: Progress)
    requires p.Keys == Names(t.spec.steps) && AllTerminal(p) && t.spec.steps != []
    ensures Plan(t, p).finished && Plan(t, p).next == p && Plan(t, p).dispatch == []
  {
    AdvanceMovesForward(t.spec, p, t.reports);
    DispatchIsJustified(t.spec, p, t.reports);
    assert t.spec.steps[0].name in Names(t.spec.steps);
  }

  lemma {:induction false} KeysAreNames(spec: WorkflowSpec, run: seq<TickInput>)
    requires AllTicksOf(spec, run) && run != []
    ensures Run(run).Keys == Names(spec.steps)
  {
    var m := |run| - 1;
    if m > 0 {
      KeysAreNames(spec, run[..m]);
    }
    TickMovesForward(run[m], Run(run[..m]));
  }

  /** A stuck workflow never finishes when nothing fails: the stuck steps stay Pending. */
  lemma {:induction false} StuckWorkflowNeverFinishes(spec: WorkflowSpec, c: set<string>, run: seq<TickInput>)
    requires Stuck(spec, c) && c != {} && AllTicksOf(spec, run)
    requires forall i, task :: 0 <= i < |run| && task in run[i].reports ==> run[i].reports[task] == TaskSucceeded
    requires forall i :: 0 <= i < |run| ==> run[i].refused == {}
    ensures forall n :: n in Run(run) ==> Run(run)[n] != Failed
    ensures forall n :: n in c ==> StatusIn(Run(run), n) == Pending
    ensures run != [] ==> !AllTerminal(Run(run))
  {
    StuckStepsNeverRun(spec, c, run);
    if run != [] {
      var m := |run| - 1;
      StuckWorkflowNeverFinishes(spec, c, run[..m]);
      NothingFails(run[m], Run(run[..m]));
      KeysAreNames(spec, run);
    }
    var n :| n in c;
    assert Idle(spec.continueOnError, StatusIn(Run(run), n));
  }

  lemma NothingFails(t: TickInput, p: Progress)
    requires forall task :: task in t.reports ==> t.reports[task] == TaskSucceeded
    requires t.refused == {} && forall n :: n in p ==> p[n] != Failed
    ensures forall n :: n in Tick(t, p) ==> Tick(t, p)[n] != Failed
  {
    var seen := Observed(t.spec, p, t.reports);
    PromoteEffect(t.spec.steps, |t.spec.steps|, Initialised(t.spec.steps, p), t.reports);
    SweepFailsNothing(t.spec, |t.spec.steps|, seen);
  }

  lemma {:induction false} SweepFailsNothing(spec: WorkflowSpec, k: nat, p: Progress)
    requires k <= |spec.steps| && forall n :: n in p ==> p[n] != Failed
    ensures forall n :: n in Sweep(spec, k, p) ==> Sweep(spec, k, p)[n] != Failed
  {
    if k > 0 {
      SweepFailsNothing(spec, k - 1, p);
    }
  }
}
