/**
 Workflows with a dependency cycle or an undefined dependency: exactly when a run that
 has come to rest is nevertheless finished.
 */
module WorkflowStuck {
  import opened WorkflowPlan
  import opened WorkflowRuns
  import opened WorkflowMeaning

  /** Some step named `n` depends on `d`. */
  ghost predicate DependsOn(spec: WorkflowSpec, n: string, d: string) {
    exists s :: s in spec.steps && s.name == n && d in s.dependsOn
  }

  /** At most `k` dependencies lead from `n` through `c` to a failed step outside `c`. */
  ghost predicate FailureWithin(spec: WorkflowSpec, c: set<string>, p: Progress, n: string, k: nat)
    decreases k, 0
  {
    k > 0 && exists d :: DependsOn(spec, n, d) && FailureAt(spec, c, p, d, k - 1)
  }

  ghost predicate FailureAt(spec: WorkflowSpec, c: set<string>, p: Progress, d: string, k: nat)
    decreases k, 1
  {
    if d in c then FailureWithin(spec, c, p, d, k) else StatusIn(p, d) == Failed
  }

  ghost predicate FailureReaches(spec: WorkflowSpec, c: set<string>, p: Progress, n: string) {
    exists k: nat :: FailureWithin(spec, c, p, n, k)
  }

  /** Every failed step of `c` failed because of a step outside it. */
  ghost predicate Explained(spec: WorkflowSpec, c: set<string>, p: Progress) {
    forall n :: n in c && StatusIn(p, n) == Failed ==> FailureReaches(spec, c, p, n)
  }

  // ------------------------------------------------------------ failures are explained

  /** What failed outside `c` stays failed. */
  ghost predicate KeepsFailures(c: set<string>, p: Progress, q: Progress) {
    forall d :: d !in c && StatusIn(p, d) == Failed ==> StatusIn(q, d) == Failed
  }

  lemma {:induction false} FailureStays(
      spec: WorkflowSpec, c: set<string>, p: Progress, q: Progress, n: string, k: nat)
    requires KeepsFailures(c, p, q) && FailureWithin(spec, c, p, n, k)
    ensures FailureWithin(spec, c, q, n, k)
    decreases k
  {
    var d :| DependsOn(spec, n, d) && FailureAt(spec, c, p, d, k - 1);
    if d in c {
      FailureStays(spec, c, p, q, d, k - 1);
    }
    assert FailureAt(spec, c, q, d, k - 1);
  }

  lemma ReachStays(spec: WorkflowSpec, c: set<string>, p: Progress, q: Progress, n: string)
    requires KeepsFailures(c, p, q) && FailureReaches(spec, c, p, n)
    ensures FailureReaches(spec, c, q, n)
  {
    var k: nat :| FailureWithin(spec, c, p, n, k);
    FailureStays(spec, c, p, q, n, k);
  }

  /** A step that depends on a failed step is reached by a failure. */
  lemma ReachesFrom(spec: WorkflowSpec, c: set<string>, p: Progress, n: string, d: string)
    requires Explained(spec, c, p) && DependsOn(spec, n, d) && StatusIn(p, d) == Failed
    ensures FailureReaches(spec, c, p, n)
  {
    if d in c {
      var k: nat :| FailureWithin(spec, c, p, d, k);
      assert FailureAt(spec, c, p, d, k);
      assert FailureWithin(spec, c, p, n, k + 1);
    } else {
      assert FailureAt(spec, c, p, d, 0);
      assert FailureWithin(spec, c, p, n, 1);
    }
  }

  lemma ExplainedStep(spec: WorkflowSpec, c: set<string>, p: Progress, s: Step)
    requires Explained(spec, c, p) && s in spec.steps
    ensures Explained(spec, c, SweepStep(spec.continueOnError, s, p))
  {
    var q := SweepStep(spec.continueOnError, s, p);
    assert KeepsFailures(c, p, q);
    forall n | n in c && StatusIn(q, n) == Failed
      ensures FailureReaches(spec, c, q, n)
    {
      if StatusIn(p, n) != Failed {
        var d :| d in s.dependsOn && StatusIn(p, d) == Failed;
        assert DependsOn(spec, n, d);
        ReachesFrom(spec, c, p, n, d);
      }
      ReachStays(spec, c, p, q, n);
    }
  }

  lemma {:induction false} ExplainedSweep(spec: WorkflowSpec, c: set<string>, p: Progress, k: nat)
    requires Explained(spec, c, p) && k <= |spec.steps|
    ensures Explained(spec, c, Sweep(spec, k, p))
  {
    if k > 0 {
      ExplainedSweep(spec, c, p, k - 1);
      ExplainedStep(spec, c, Sweep(spec, k - 1, p), spec.steps[k - 1]);
    }
  }

  /** A change that fails nothing in `c` and keeps failures outside keeps them explained. */
  lemma ExplainedElsewhere(spec: WorkflowSpec, c: set<string>, p: Progress, q: Progress)
    requires Explained(spec, c, p) && KeepsFailures(c, p, q)
    requires forall n :: n in c && StatusIn(q, n) == Failed ==> StatusIn(p, n) == Failed
    ensures Explained(spec, c, q)
  {
    forall n | n in c && StatusIn(q, n) == Failed
      ensures FailureReaches(spec, c, q, n)
    {
      ReachStays(spec, c, p, q, n);
    }
  }

  lemma ExplainedPromotion(spec: WorkflowSpec, c: set<string>, t: TickInput, p: Progress)
    requires NeverStarted(spec, c, p) && Explained(spec, c, p)
    ensures Explained(spec, c, Observed(spec, p, t.reports))
  {
    PromoteEffect(spec.steps, |spec.steps|, Initialised(spec.steps, p), t.reports);
    assert forall n :: n in c ==> Idle(spec.continueOnError, StatusIn(p, n));
    ExplainedElsewhere(spec, c, p, Observed(spec, p, t.reports));
  }

  lemma ExplainedTick(spec: WorkflowSpec, c: set<string>, t: TickInput, p: Progress)
    requires Stuck(spec, c) && t.spec == spec && NeverStarted(spec, c, p) && Explained(spec, c, p)
    ensures Explained(spec, c, Tick(t, p))
  {
    var seen, a := Observed(spec, p, t.reports), Plan(t, p);
    ExplainedPromotion(spec, c, t, p);
    ExplainedSweep(spec, c, seen, |spec.steps|);
    StuckTick(spec, c, t, p);
    ExplainedElsewhere(spec, c, a.next, Tick(t, p));
  }

  lemma {:induction false} RunsAreExplained(spec: WorkflowSpec, c: set<string>, run: seq<TickInput>)
    requires Stuck(spec, c) && AllTicksOf(spec, run)
    ensures Explained(spec, c, Run(run))
    decreases |run|
  {
    if run != [] {
      var m := |run| - 1;
      RunsAreExplained(spec, c, run[..m]);
      StuckStepsNeverRun(spec, c, run[..m]);
      ExplainedTick(spec, c, run[m], Run(run[..m]));
    }
  }

  // ------------------------------------------------------------ at rest

  /** The tick sees an exit for every Running step and changes nothing. */
  ghost predicate AtRest(t: TickInput, p: Progress) {
    Attentive(t, p) && Tick(t, p) == p
  }

  /** Ticks that change anything lower the weight, so at most `2n` of a run do. */
  lemma {:induction false} ChangeLowersWeight(t: TickInput, p: Progress)
    requires p.Keys == Names(t.spec.steps) && Tick(t, p) != p
    ensures Weight(t.spec.steps, |t.spec.steps|, Tick(t, p)) < Weight(t.spec.steps, |t.spec.steps|, p)
  {
    var q := Tick(t, p);
    TickMovesForward(t, p);
    var n :| n in p && q[n] != p[n];
    var i :| 0 <= i < |t.spec.steps| && t.spec.steps[i].name == n;
    assert Cost(StatusIn(q, n)) < Cost(StatusIn(p, n));
    WeightNeverGrows(t.spec.steps, |t.spec.steps|, p, q);
  }

  /** Steps outside the stuck set are terminal at rest, in any list order. */
  lemma {:induction false} OutsideIsTerminal(
      spec: WorkflowSpec, rank: map<string, nat>, c: set<string>, t: TickInput, p: Progress, j: nat)
    requires RankedOutside(spec, Names(spec.steps), rank, c) && t.spec == spec && AtRest(t, p)
    requires j < |spec.steps| && spec.steps[j].name in rank
    ensures Terminal(StatusIn(p, spec.steps[j].name))
    decreases rank[spec.steps[j].name]
  {
    var s := spec.steps[j];
    assert RankedAfter(Names(spec.steps), rank, s);
    forall d | d in s.dependsOn
      ensures Terminal(StatusIn(p, d))
    {
      var i := IndexOf(spec, d);
      OutsideIsTerminal(spec, rank, c, t, p, i);
    }
    RestResolves(t, p, j);
  }

  lemma IndexOf(spec: WorkflowSpec, n: string) returns (i: nat)
    requires n in Names(spec.steps)
    ensures i < |spec.steps| && spec.steps[i].name == n
  {
    i :| 0 <= i < |spec.steps| && spec.steps[i].name == n;
  }

  /** At rest, a step whose dependencies are terminal is terminal. */
  lemma RestResolves(t: TickInput, p: Progress, j: nat)
    requires AtRest(t, p) && j < |t.spec.steps|
    requires forall d :: d in t.spec.steps[j].dependsOn ==> Terminal(StatusIn(p, d))
    ensures Terminal(StatusIn(p, t.spec.steps[j].name))
  {
    var steps := t.spec.steps;
    PromoteEffect(steps, |steps|, Initialised(steps, p), t.reports);
    assert forall d :: d in steps[j].dependsOn ==> Terminal(StatusIn(Observed(t.spec, p, t.reports), d));
    AttentiveTick(t, p, j);
  }

  /** A listed step that depends on a failed step does not stay Pending under fail-fast. */
  lemma SweepFails(spec: WorkflowSpec, i: nat, p: Progress, d: string)
    requires !spec.continueOnError && i < |spec.steps| && spec.steps[i].name in p
    requires d in spec.steps[i].dependsOn && StatusIn(p, d) == Failed
    ensures StatusIn(Sweep(spec, |spec.steps|, p), spec.steps[i].name) != Pending
  {
    var s, q := spec.steps[i], Sweep(spec, i, p);
    SweepEffect(spec, i, p);
    assert StatusIn(q, d) == Failed;
    assert BlockedByFailure(false, s, q);
    assert StatusIn(Sweep(spec, i + 1, p), s.name) != Pending;
    SweepExtends(spec, i + 1, |spec.steps|, p);
  }

  lemma TickFails(t: TickInput, p: Progress, i: nat, d: string)
    requires !t.spec.continueOnError && i < |t.spec.steps|
    requires d in t.spec.steps[i].dependsOn && StatusIn(p, d) == Failed
    ensures StatusIn(Tick(t, p), t.spec.steps[i].name) != Pending
  {
    var spec, seen := t.spec, Observed(t.spec, p, t.reports);
    assert spec.steps[i].name in Names(spec.steps);
    PromoteEffect(spec.steps, |spec.steps|, Initialised(spec.steps, p), t.reports);
    SweepFails(spec, i, seen, d);
  }

  /** At rest under fail-fast, a stuck step that a failure reaches has failed. */
  lemma {:induction false} ReachedHasFailed(
      spec: WorkflowSpec, c: set<string>, t: TickInput, p: Progress, n: string, k: nat)
    requires !spec.continueOnError && t.spec == spec && AtRest(t, p) && NeverStarted(spec, c, p)
    requires n in c && FailureWithin(spec, c, p, n, k)
    ensures StatusIn(p, n) == Failed
    decreases k
  {
    var d :| DependsOn(spec, n, d) && FailureAt(spec, c, p, d, k - 1);
    if d in c {
      ReachedHasFailed(spec, c, t, p, d, k - 1);
    }
    var s :| s in spec.steps && s.name == n && d in s.dependsOn;
    var i :| 0 <= i < |spec.steps| && spec.steps[i] == s;
    TickFails(t, p, i, d);
    assert Idle(false, StatusIn(p, n));
  }

  /** A workflow with a stuck set, once its run is at rest, is finished exactly when it is
      fail-fast and every stuck step is reached, along dependencies, by the failure of a step
      that is not stuck. */
  lemma StuckFinishesExactlyWhen(
      spec: WorkflowSpec, rank: map<string, nat>, c: set<string>, run: seq<TickInput>, t: TickInput)
    requires Stuck(spec, c) && RankedOutside(spec, Names(spec.steps), rank, c)
    requires AllTicksOf(spec, run) && run != [] && t.spec == spec && AtRest(t, Run(run))
    ensures AllTerminal(Run(run))
       <==> c == {} || (!spec.continueOnError && forall n :: n in c ==> FailureReaches(spec, c, Run(run), n))
  {
    var p := Run(run);
    KeysAreNames(spec, run);
    StuckStepsNeverRun(spec, c, run);
    RunsAreExplained(spec, c, run);
    OutsideAreTerminal(spec, rank, c, t, p);
    forall n | n in c
      ensures n in p
      ensures Terminal(p[n]) <==> !spec.continueOnError && FailureReaches(spec, c, p, n)
    {
      StuckStatus(spec, c, t, p, n);
    }
  }

  lemma OutsideAreTerminal(
      spec: WorkflowSpec, rank: map<string, nat>, c: set<string>, t: TickInput, p: Progress)
    requires RankedOutside(spec, Names(spec.steps), rank, c) && t.spec == spec && AtRest(t, p)
    requires p.Keys == Names(spec.steps)
    ensures forall n :: n in p && n !in c ==> Terminal(p[n])
  {
    forall n | n in p && n !in c
      ensures Terminal(p[n])
    {
      var j := IndexOf(spec, n);
      OutsideIsTerminal(spec, rank, c, t, p, j);
    }
  }

  lemma StuckStatus(spec: WorkflowSpec, c: set<string>, t: TickInput, p: Progress, n: string)
    requires t.spec == spec && AtRest(t, p) && NeverStarted(spec, c, p) && Explained(spec, c, p) && n in c
    ensures Terminal(StatusIn(p, n)) <==> !spec.continueOnError && FailureReaches(spec, c, p, n)
  {
    assert Idle(spec.continueOnError, StatusIn(p, n));
    if !spec.continueOnError && FailureReaches(spec, c, p, n) {
      var k: nat :| FailureWithin(spec, c, p, n, k);
      ReachedHasFailed(spec, c, t, p, n, k);
    }
  }
}
