/**
 Runs of the workflow planner: tick after tick, with task exits arriving in any
 order and at any time, and with dispatches that the controller may fail to send.
 */
module WorkflowRuns {
  import opened WorkflowPlan

  /** What one tick sees: the stored workflow, the exits reported so far, and the
      steps whose dispatch would fail at this tick. */
  datatype TickInput = TickInput(spec: WorkflowSpec, reports: Reports, refused: set<string>)

  function Plan(t: TickInput, p: Progress): Advance {
    AdvanceOf(t.spec, p, t.reports)
  }

  /** One tick: the plan, with the steps that could not be dispatched set to Failed. */
  function Tick(t: TickInput, p: Progress): Progress {
    var a := Plan(t, p);
    map n | n in a.next :: if n in a.dispatch && n in t.refused then Failed else a.next[n]
  }

  /** The statuses after the ticks of `run`, starting from empty progress. */
  function Run(run: seq<TickInput>): Progress {
    if run == [] then map[] else Tick(run[|run| - 1], Run(run[..|run| - 1]))
  }

  /** The names dispatched by tick `i` of `run`. */
  function DispatchedAt(run: seq<TickInput>, i: nat): seq<string>
    requires i < |run|
  {
    Plan(run[i], Run(run[..i])).dispatch
  }

  ghost predicate AllTicksOf(spec: WorkflowSpec, run: seq<TickInput>) {
    forall i :: 0 <= i < |run| ==> run[i].spec == spec
  }

  // ------------------------------------------------------------ safety of every run

  lemma TickMovesForward(t: TickInput, p: Progress)
    ensures Advances(p, Tick(t, p))
    ensures Tick(t, p).Keys == p.Keys + Names(t.spec.steps)
    ensures forall n :: n in Plan(t, p).dispatch ==> StatusIn(p, n) == Pending && StatusIn(Tick(t, p), n) != Pending
  {
    AdvanceMovesForward(t.spec, p, t.reports);
    DispatchIsJustified(t.spec, p, t.reports);
  }

  lemma RunAdvances(run: seq<TickInput>, j: nat)
    requires 0 < j <= |run|
    ensures Advances(Run(run[..j - 1]), Run(run[..j]))
  {
    assert run[..j][..j - 1] == run[..j - 1];
    TickMovesForward(run[j - 1], Run(run[..j - 1]));
  }

  /** Statuses never move backwards along a run, even when the stored workflow is
      edited between ticks. */
  lemma {:induction false} StatusesNeverMoveBack(run: seq<TickInput>, i: nat, j: nat)
    requires i <= j <= |run|
    ensures Advances(Run(run[..i]), Run(run[..j]))
  {
    if i == j {
      AdvancesReflexive(Run(run[..i]));
    } else {
      StatusesNeverMoveBack(run, i, j - 1);
      RunAdvances(run, j);
      AdvancesTransitive(Run(run[..i]), Run(run[..j - 1]), Run(run[..j]));
    }
  }

  lemma AdvancesReflexive(p: Progress)
    ensures Advances(p, p)
  {
  }

  lemma AdvancesTransitive(p: Progress, q: Progress, r: Progress)
    requires Advances(p, q) && Advances(q, r)
    ensures Advances(p, r)
  {
    forall n | n in p
      ensures n in r && Forward(p[n], r[n])
    {
      assert n in q && Forward(p[n], q[n]) && Forward(q[n], r[n]);
    }
  }

  /** No step name is dispatched twice in a run: not within a tick and not in two ticks. */
  lemma DispatchedAtMostOnce(run: seq<TickInput>, i: nat, j: nat, n: string)
    requires i < j < |run|
    requires n in DispatchedAt(run, i)
    ensures n !in DispatchedAt(run, j)
    ensures forall a, b :: 0 <= a < b < |DispatchedAt(run, i)| ==> DispatchedAt(run, i)[a] != DispatchedAt(run, i)[b]
  {
    var p := Run(run[..i]);
    TickMovesForward(run[i], p);
    assert run[..i + 1][..i] == run[..i];
    StatusesNeverMoveBack(run, i + 1, j);
    TickMovesForward(run[j], Run(run[..j]));
    DispatchIsJustified(run[i].spec, p, run[i].reports);
  }

  /** A dispatched step waited for its dependencies: after the tick each of them is
      Succeeded, or terminal under continue-on-error, and stays so. */
  lemma DispatchWaitsForDependencies(run: seq<TickInput>, i: nat, n: string)
    requires i < |run|
    requires n in DispatchedAt(run, i)
    ensures exists s :: s in run[i].spec.steps && s.name == n
                        && DepsReady(run[i].spec.continueOnError, s, Run(run[..i + 1]))
  {
    var t, p := run[i], Run(run[..i]);
    var a := Plan(t, p);
    DispatchIsJustified(t.spec, p, t.reports);
    assert run[..i + 1][..i] == run[..i];
    var s :| s in t.spec.steps && s.name == n && DepsReady(t.spec.continueOnError, s, a.next);
    forall d | d in s.dependsOn
      ensures DepReady(t.spec.continueOnError, StatusIn(Tick(t, p), d))
    {
      assert DepReady(t.spec.continueOnError, StatusIn(a.next, d));
      assert d !in a.dispatch;
    }
  }

  // ------------------------------------------------------------ cycles and undefined dependencies

  /** Step `s` waits for a member of `c` or for a name no step has. */
  ghost predicate WaitsIn(spec: WorkflowSpec, c: set<string>, s: Step) {
    exists d :: d in s.dependsOn && (d in c || d !in Names(spec.steps))
  }

  /** Every step named in `c` waits in `c`: a dependency cycle, an undefined dependency, or both. */
  ghost predicate Stuck(spec: WorkflowSpec, c: set<string>) {
    && c <= Names(spec.steps)
    && forall s :: s in spec.steps && s.name in c ==> WaitsIn(spec, c, s)
  }

  /** Not Running and not Succeeded; Failed only by fail-fast propagation. */
  predicate Idle(coe: bool, status: StepStatus) {
    status == Pending || (!coe && status == Failed)
  }

  ghost predicate NeverStarted(spec: WorkflowSpec, c: set<string>, p: Progress) {
    && p.Keys <= Names(spec.steps)
    && forall n :: n in c ==> Idle(spec.continueOnError, StatusIn(p, n))
  }

  lemma StuckNotReady(spec: WorkflowSpec, c: set<string>, p: Progress, s: Step)
    requires Stuck(spec, c) && NeverStarted(spec, c, p)
    requires s in spec.steps && s.name in c
    ensures !DepsReady(spec.continueOnError, s, p)
  {
    assert WaitsIn(spec, c, s);
    var d :| d in s.dependsOn && (d in c || d !in Names(spec.steps));
    assert Idle(spec.continueOnError, StatusIn(p, d));
    assert !DepReady(spec.continueOnError, StatusIn(p, d));
  }

  lemma StuckNotDispatched(spec: WorkflowSpec, c: set<string>, seen: Progress, n: string)
    requires Stuck(spec, c) && NeverStarted(spec, c, seen) && n in c
    ensures n !in Dispatched(spec, |spec.steps|, seen)
  {
    DispatchEffect(spec, |spec.steps|, seen);
    if n in Dispatched(spec, |spec.steps|, seen) {
      var s :| s in spec.steps && s.name == n && DepsReady(spec.continueOnError, s, seen);
      StuckNotReady(spec, c, seen, s);
      assert false;
    }
  }

  lemma StuckTick(spec: WorkflowSpec, c: set<string>, t: TickInput, p: Progress)
    requires Stuck(spec, c) && t.spec == spec && NeverStarted(spec, c, p)
    ensures NeverStarted(spec, c, Tick(t, p))
    ensures forall n :: n in c ==> n !in Plan(t, p).dispatch
  {
    var a := Plan(t, p);
    var k := |spec.steps|;
    var seen := Observed(spec, p, t.reports);
    PromoteEffect(spec.steps, k, Initialised(spec.steps, p), t.reports);
    assert NeverStarted(spec, c, seen);
    SweepEffect(spec, k, seen);
    DispatchEffect(spec, k, seen);
    forall n | n in c
      ensures n !in a.dispatch && Idle(spec.continueOnError, StatusIn(Tick(t, p), n))
    {
      StuckNotDispatched(spec, c, seen, n);
      assert Idle(spec.continueOnError, StatusIn(seen, n));
    }
  }

  /** No step on a dependency cycle, or behind an undefined dependency, ever starts or
      is dispatched, whatever is reported. */
  lemma {:induction false} StuckStepsNeverRun(spec: WorkflowSpec, c: set<string>, run: seq<TickInput>)
    requires Stuck(spec, c) && AllTicksOf(spec, run)
    ensures NeverStarted(spec, c, Run(run))
  {
    if run != [] {
      var m := |run| - 1;
      StuckStepsNeverRun(spec, c, run[..m]);
      StuckTick(spec, c, run[m], Run(run[..m]));
    }
  }

  lemma StuckStepsNeverDispatched(
      spec: WorkflowSpec, c: set<string>, run: seq<TickInput>, i: nat, n: string)
    requires Stuck(spec, c) && AllTicksOf(spec, run) && i < |run| && n in c
    ensures n !in DispatchedAt(run, i)
  {
    StuckStepsNeverRun(spec, c, run[..i]);
    StuckTick(spec, c, run[i], Run(run[..i]));
  }

  // ------------------------------------------------------------ acyclic workflows

  ghost predicate UniqueNames(spec: WorkflowSpec) {
    forall s, s' :: s in spec.steps && s' in spec.steps && s.name == s'.name ==> s == s'
  }

  /** Step `s` comes after its dependencies, all of which are steps. */
  ghost predicate RankedAfter(names: set<string>, rank: map<string, nat>, s: Step) {
    && s.name in rank
    && forall d :: d in s.dependsOn ==> d in names && d in rank && rank[d] < rank[s.name]
  }

  /** A numbering that puts every step after its dependencies. */
  ghost predicate RankedBy(spec: WorkflowSpec, rank: map<string, nat>) {
    forall s :: s in spec.steps ==> RankedAfter(Names(spec.steps), rank, s)
  }

  /** `rank` numbers exactly the steps outside `c`, below their count and after their dependencies. */
  ghost predicate RankedOutside(spec: WorkflowSpec, all: set<string>, rank: map<string, nat>, c: set<string>) {
    && c <= all && rank.Keys == all - c
    && (forall n :: n in rank ==> rank[n] < |rank|)
    && forall s :: s in spec.steps && s.name in rank ==> RankedAfter(all, rank, s)
  }

  /** A workflow with unique names either has such a numbering, with numbers below
      the step count, or a non-empty set of steps that can never start. */
  lemma RankedOrStuck(spec: WorkflowSpec) returns (rank: map<string, nat>, c: set<string>)
    requires UniqueNames(spec)
    ensures c == {} ==> RankedBy(spec, rank) && forall n :: n in rank ==> rank[n] < |Names(spec.steps)|
    ensures c != {} ==> Stuck(spec, c)
  {
    rank, c := RankRest(spec, map[], Names(spec.steps));
    if c == {} {
      assert rank.Keys == Names(spec.steps);
      forall s | s in spec.steps
        ensures RankedAfter(Names(spec.steps), rank, s)
      {
        assert s.name in rank;
      }
      assert |rank| == |Names(spec.steps)|;
    }
  }

  lemma {:induction false} RankRest(spec: WorkflowSpec, rank: map<string, nat>, c: set<string>)
    returns (rank': map<string, nat>, c': set<string>)
    requires UniqueNames(spec) && RankedOutside(spec, Names(spec.steps), rank, c)
    ensures RankedOutside(spec, Names(spec.steps), rank', c')
    ensures c' != {} ==> Stuck(spec, c')
    decreases |c|
  {
    if Stuck(spec, c) {
      rank', c' := rank, c;
    } else {
      var s :| s in spec.steps && s.name in c && !WaitsIn(spec, c, s);
      RankNext(spec, Names(spec.steps), rank, c, s);
      rank', c' := RankRest(spec, rank[s.name := |rank|], c - {s.name});
    }
  }

  lemma RankNext(
      spec: WorkflowSpec, all: set<string>, rank: map<string, nat>, c: set<string>, s: Step)
    requires UniqueNames(spec) && RankedOutside(spec, all, rank, c)
    requires s in spec.steps && s.name in c
    requires forall d :: d in s.dependsOn ==> d in all && d !in c
    ensures RankedOutside(spec, all, rank[s.name := |rank|], c - {s.name})
  {
    var next := rank[s.name := |rank|];
    assert next.Keys == rank.Keys + {s.name};
    assert |next.Keys| == |rank.Keys| + 1;
    forall e | e in spec.steps && e.name in next
      ensures RankedAfter(all, next, e)
    {
      if e != s {
        assert RankedAfter(all, rank, e);
      }
    }
  }

  /** The two cases exclude each other. */
  lemma RankedIsNotStuck(spec: WorkflowSpec, rank: map<string, nat>, c: set<string>)
    requires RankedBy(spec, rank) && Stuck(spec, c)
    ensures c == {}
  {
    if c != {} {
      var n :| n in c;
      NothingWaitsBelow(spec, rank, c, n);
    }
  }

  lemma {:induction false} NothingWaitsBelow(spec: WorkflowSpec, rank: map<string, nat>, c: set<string>, n: string)
    requires RankedBy(spec, rank) && Stuck(spec, c) && n in c
    requires n in rank
    ensures false
    decreases rank[n]
  {
    var s :| s in spec.steps && s.name == n;
    assert WaitsIn(spec, c, s) && RankedAfter(Names(spec.steps), rank, s);
    var d :| d in s.dependsOn && (d in c || d !in Names(spec.steps));
    NothingWaitsBelow(spec, rank, c, d);
  }

  // ------------------------------------------------------------ what an exit does

  /** A Running step whose task has failed is Failed after the call, and one whose task has
      succeeded is Succeeded. */
  lemma ReportedExitIsRecorded(t: TickInput, p: Progress, s: Step)
    requires UniqueNames(t.spec) && s in t.spec.steps && s.name in p && p[s.name] == Running && s.task in t.reports
    ensures s.name in Plan(t, p).next
    ensures t.reports[s.task] == TaskFailed ==> Plan(t, p).next[s.name] == Failed
    ensures t.reports[s.task] == TaskSucceeded ==> Plan(t, p).next[s.name] == Succeeded
  {
    var k, start, seen := |t.spec.steps|, Initialised(t.spec.steps, p), Observed(t.spec, p, t.reports);
    var i :| 0 <= i < k && t.spec.steps[i] == s;
    PromoteEffect(t.spec.steps, k, start, t.reports);
    SweepEffect(t.spec, k, seen);
    assert Terminal(StatusIn(seen, s.name));
  }
}
