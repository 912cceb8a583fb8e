/**
 The workflow planner of the controller: one call takes a workflow, the recorded
 step statuses and the task exits seen so far, and returns the new statuses and
 the steps to dispatch.

 `AdvanceWorkflow` runs the three passes of the original in place; the functions
 `Initialised`, `Promote` and `Sweep` name the value of each pass after its first
 `k` steps, so that lemmas can speak about a call.
 */
module WorkflowPlan {

  datatype StepStatus = Pending | Running | Succeeded | Failed

  datatype TaskExitKind = TaskSucceeded | TaskFailed

  datatype Step = Step(name: string, task: string, dependsOn: seq<string>)

  datatype WorkflowSpec = WorkflowSpec(steps: seq<Step>, continueOnError: bool)

  /** Step name to status. */
  type Progress = map<string, StepStatus>

  /** Task name to its most recent exit. */
  type Reports = map<string, TaskExitKind>

  datatype Advance = Advance(next: Progress, dispatch: seq<string>, finished: bool)

  function Names(steps: seq<Step>): set<string> {
    set s | s in steps :: s.name
  }

  function StatusIn(p: Progress, n: string): StepStatus {
    if n in p then p[n] else Pending
  }

  predicate Terminal(s: StepStatus) {
    s == Succeeded || s == Failed
  }

  predicate AllTerminal(p: Progress) {
    forall n :: n in p ==> Terminal(p[n])
  }

  function StatusOf(kind: TaskExitKind): StepStatus {
    match kind
    case TaskSucceeded => Succeeded
    case TaskFailed => Failed
  }

  // ------------------------------------------------------------ the three passes

  /** Pass 1: every listed step not yet tracked starts Pending. */
  function Initialised(steps: seq<Step>, p: Progress): Progress {
    map n | n in p.Keys + Names(steps) :: StatusIn(p, n)
  }

  /** Pass 2 on one step: a Running step whose task has reported becomes terminal. */
  function PromoteStep(s: Step, p: Progress, reports: Reports): Progress {
    if s.name in p && p[s.name] == Running && s.task in reports
    then p[s.name := StatusOf(reports[s.task])]
    else p
  }

  /** Pass 2 after the first `k` steps. */
  function Promote(steps: seq<Step>, k: nat, p: Progress, reports: Reports): Progress
    requires k <= |steps|
  {
    if k == 0 then p
    else PromoteStep(steps[k - 1], Promote(steps, k - 1, p, reports), reports)
  }

  predicate BlockedByFailure(coe: bool, s: Step, p: Progress) {
    !coe && exists d :: d in s.dependsOn && StatusIn(p, d) == Failed
  }

  predicate DepReady(coe: bool, status: StepStatus) {
    status == Succeeded || (coe && status == Failed)
  }

  predicate DepsReady(coe: bool, s: Step, p: Progress) {
    forall d :: d in s.dependsOn ==> DepReady(coe, StatusIn(p, d))
  }

  /** Pass 3 dispatches `s` from `p`. */
  predicate Launches(coe: bool, s: Step, p: Progress) {
    s.name in p && p[s.name] == Pending && !BlockedByFailure(coe, s, p) && DepsReady(coe, s, p)
  }

  /** Pass 3 on one step. */
  function SweepStep(coe: bool, s: Step, p: Progress): Progress {
    if s.name !in p || p[s.name] != Pending then p
    else if BlockedByFailure(coe, s, p) then p[s.name := Failed]
    else if DepsReady(coe, s, p) then p[s.name := Running]
    else p
  }

  /** Pass 3 after the first `k` steps: the statuses. */
  function Sweep(spec: WorkflowSpec, k: nat, p: Progress): Progress
    requires k <= |spec.steps|
  {
    if k == 0 then p
    else SweepStep(spec.continueOnError, spec.steps[k - 1], Sweep(spec, k - 1, p))
  }

  /** Pass 3 after the first `k` steps: the dispatch list. */
  function Dispatched(spec: WorkflowSpec, k: nat, p: Progress): seq<string>
    requires k <= |spec.steps|
  {
    if k == 0 then []
    else
      var s := spec.steps[k - 1];
      Dispatched(spec, k - 1, p)
      + (if Launches(spec.continueOnError, s, Sweep(spec, k - 1, p)) then [s.name] else [])
  }

  /** The statuses between pass 2 and pass 3. */
  function Observed(spec: WorkflowSpec, p: Progress, reports: Reports): Progress {
    Promote(spec.steps, |spec.steps|, Initialised(spec.steps, p), reports)
  }

  /** One planner call. */
  function AdvanceOf(spec: WorkflowSpec, p: Progress, reports: Reports): Advance {
    var seen := Observed(spec, p, reports);
    var next := Sweep(spec, |spec.steps|, seen);
    Advance(next, Dispatched(spec, |spec.steps|, seen), AllTerminal(next) && next != map[])
  }

  /** The planner as the controller runs it: three loops over the listed steps. */
  method AdvanceWorkflow(spec: WorkflowSpec, progress: Progress, reports: Reports)
    returns (r: Advance)
    ensures r == AdvanceOf(spec, progress, reports)
  {
    var start := InitialisePass(spec.steps, progress);
    var seen := start;
    for i := 0 to |spec.steps|
      invariant seen == Promote(spec.steps, i, start, reports)
    {
      var s := spec.steps[i];
      if s.name in seen && seen[s.name] == Running && s.task in reports {
        seen := seen[s.name := StatusOf(reports[s.task])];
      }
    }
    var next, dispatch := SweepPass(spec, seen);
    r := Advance(next, dispatch, AllTerminal(next) && next != map[]);
  }

  method InitialisePass(steps: seq<Step>, progress: Progress) returns (next: Progress)
    ensures next == Initialised(steps, progress)
  {
    next := progress;
    for i := 0 to |steps|
      invariant next.Keys == progress.Keys + Names(steps[..i])
      invariant forall n :: n in next ==> next[n] == StatusIn(progress, n)
    {
      assert steps[..i + 1] == steps[..i] + [steps[i]];
      if steps[i].name !in next {
        next := next[steps[i].name := Pending];
      }
    }
    assert steps[..|steps|] == steps;
  }

  method SweepPass(spec: WorkflowSpec, seen: Progress) returns (next: Progress, dispatch: seq<string>)
    ensures next == Sweep(spec, |spec.steps|, seen)
    ensures dispatch == Dispatched(spec, |spec.steps|, seen)
  {
    next, dispatch := seen, [];
    for i := 0 to |spec.steps|
      invariant next == Sweep(spec, i, seen)
      invariant dispatch == Dispatched(spec, i, seen)
    {
      var s := spec.steps[i];
      if s.name in next && next[s.name] == Pending {
        if BlockedByFailure(spec.continueOnError, s, next) {
          next := next[s.name := Failed];
        } else if DepsReady(spec.continueOnError, s, next) {
          dispatch := dispatch + [s.name];
          next := next[s.name := Running];
        }
      }
    }
  }

  // ------------------------------------------------------------ what one call does

  /** Statuses only move Pending -> Running -> terminal, or straight to terminal. */
  predicate Forward(a: StepStatus, b: StepStatus) {
    a == b || a == Pending || (a == Running && Terminal(b))
  }

  predicate Advances(p: Progress, q: Progress) {
    p.Keys <= q.Keys && forall n :: n in p ==> Forward(p[n], q[n])
  }

  /** Pass 2 turns Running into the reported exit and touches nothing else. */
  lemma {:induction false} PromoteEffect(steps: seq<Step>, k: nat, p: Progress, reports: Reports)
    requires k <= |steps|
    ensures var q := Promote(steps, k, p, reports);
            && q.Keys == p.Keys
            && (forall n :: n in p && p[n] != Running ==> q[n] == p[n])
            && (forall n :: n in p && p[n] == Running && q[n] != Running ==>
                  exists s :: s in steps && s.name == n && s.task in reports
                              && q[n] == StatusOf(reports[s.task]))
            && (forall i :: 0 <= i < k && StatusIn(p, steps[i].name) == Running && steps[i].task in reports ==>
                  Terminal(StatusIn(q, steps[i].name)))
  {
    if k > 0 {
      PromoteEffect(steps, k - 1, p, reports);
    }
  }

  /** Pass 3 only moves Pending steps, to Running or Failed, and keeps the names. */
  lemma {:induction false} SweepEffect(spec: WorkflowSpec, k: nat, p: Progress)
    requires k <= |spec.steps|
    ensures var q := Sweep(spec, k, p);
            && q.Keys == p.Keys
            && (forall n :: n in p && q[n] != p[n] ==> p[n] == Pending && (q[n] == Running || q[n] == Failed))
            && (forall n :: n in p && spec.continueOnError && q[n] == Failed ==> p[n] == Failed)
  {
    if k > 0 {
      SweepEffect(spec, k - 1, p);
    }
  }

  /** Readiness of a step does not change while the sweep is under way. */
  lemma ReadyIsStable(spec: WorkflowSpec, k: nat, p: Progress, s: Step)
    requires k <= |spec.steps|
    ensures DepsReady(spec.continueOnError, s, Sweep(spec, k, p)) <==> DepsReady(spec.continueOnError, s, p)
  {
    SweepEffect(spec, k, p);
    var q := Sweep(spec, k, p);
    assert forall d :: d in s.dependsOn ==>
        (DepReady(spec.continueOnError, StatusIn(q, d)) <==> DepReady(spec.continueOnError, StatusIn(p, d)));
  }

  /** A later stage of the same sweep only differs by steps that were still Pending. */
  lemma {:induction false} SweepExtends(spec: WorkflowSpec, j: nat, k: nat, p: Progress)
    requires j <= k <= |spec.steps|
    ensures var q, r := Sweep(spec, j, p), Sweep(spec, k, p);
            q.Keys == r.Keys && forall n :: n in q && q[n] != Pending ==> r[n] == q[n]
  {
    if j < k {
      SweepExtends(spec, j, k - 1, p);
    }
  }

  /** `n` was Pending in `p`, is Running in `q`, and a step of that name had all its dependencies ready. */
  ghost predicate LaunchedFrom(spec: WorkflowSpec, p: Progress, q: Progress, n: string) {
    && n in p && p[n] == Pending && StatusIn(q, n) == Running
    && exists s :: s in spec.steps && s.name == n && DepsReady(spec.continueOnError, s, p)
  }

  /** The dispatched names are the steps that were launched, and no other step became Running. */
  ghost predicate DispatchOk(spec: WorkflowSpec, p: Progress, q: Progress, ds: seq<string>) {
    && (forall n :: n in ds ==> LaunchedFrom(spec, p, q, n))
    && (forall n :: StatusIn(q, n) == Running ==> StatusIn(p, n) == Running || n in ds)
    && (forall i, j :: 0 <= i < j < |ds| ==> ds[i] != ds[j])
  }

  lemma LaunchIsOk(spec: WorkflowSpec, p: Progress, q: Progress, ds: seq<string>, s: Step)
    requires DispatchOk(spec, p, q, ds) && s in spec.steps && DepsReady(spec.continueOnError, s, p)
    requires StatusIn(q, s.name) == Pending && s.name in p && p[s.name] == Pending
    ensures DispatchOk(spec, p, q[s.name := Running], ds + [s.name])
  {
    var q' := q[s.name := Running];
    assert LaunchedFrom(spec, p, q', s.name);
    forall n | n in ds
      ensures n != s.name && LaunchedFrom(spec, p, q', n)
    {
      assert LaunchedFrom(spec, p, q, n);
    }
  }

  lemma FailureIsOk(spec: WorkflowSpec, p: Progress, q: Progress, ds: seq<string>, m: string)
    requires DispatchOk(spec, p, q, ds) && StatusIn(q, m) == Pending
    ensures DispatchOk(spec, p, q[m := Failed], ds)
  {
    forall n | n in ds
      ensures LaunchedFrom(spec, p, q[m := Failed], n)
    {
      assert LaunchedFrom(spec, p, q, n);
    }
  }

  /** What a dispatched name means: a Pending step all of whose dependencies were
      ready, now Running; and the list names each step at most once. */
  lemma {:induction false} DispatchEffect(spec: WorkflowSpec, k: nat, p: Progress)
    requires k <= |spec.steps|
    ensures DispatchOk(spec, p, Sweep(spec, k, p), Dispatched(spec, k, p))
  {
    if k > 0 {
      DispatchEffect(spec, k - 1, p);
      SweepEffect(spec, k - 1, p);
      var s, before, ds := spec.steps[k - 1], Sweep(spec, k - 1, p), Dispatched(spec, k - 1, p);
      ReadyIsStable(spec, k - 1, p, s);
      if Launches(spec.continueOnError, s, before) {
        LaunchIsOk(spec, p, before, ds, s);
      } else {
        assert ds + [] == ds;
        if Sweep(spec, k, p) != before {
          FailureIsOk(spec, p, before, ds, s.name);
        }
      }
    }
  }

  /** A listed step that is still Pending when its turn comes and whose
      dependencies are all terminal does not stay Pending. */
  lemma SweepResolves(spec: WorkflowSpec, i: nat, p: Progress)
    requires i < |spec.steps|
    requires spec.steps[i].name in p
    requires forall d :: d in spec.steps[i].dependsOn ==> Terminal(StatusIn(p, d))
    ensures StatusIn(Sweep(spec, |spec.steps|, p), spec.steps[i].name) != Pending
  {
    var s := spec.steps[i];
    var q := Sweep(spec, i, p);
    SweepEffect(spec, i, p);
    if q[s.name] == Pending && !BlockedByFailure(spec.continueOnError, s, q) {
      assert forall d :: d in s.dependsOn ==> StatusIn(q, d) == StatusIn(p, d);
      assert DepsReady(spec.continueOnError, s, q);
    }
    assert StatusIn(Sweep(spec, i + 1, p), s.name) != Pending;
    SweepExtends(spec, i + 1, |spec.steps|, p);
  }

  /** One call: names only grow to include the listed steps, and every status moves forward. */
  lemma AdvanceMovesForward(spec: WorkflowSpec, p: Progress, reports: Reports)
    ensures var a := AdvanceOf(spec, p, reports);
            Advances(p, a.next) && a.next.Keys == p.Keys + Names(spec.steps)
  {
    var start := Initialised(spec.steps, p);
    PromoteEffect(spec.steps, |spec.steps|, start, reports);
    SweepEffect(spec, |spec.steps|, Observed(spec, p, reports));
  }

  /** One call dispatches a step only from Pending, only when each dependency of a
      step of that name is Succeeded, or terminal under continue-on-error, in the
      resulting statuses; a finished plan dispatches nothing. */
  lemma DispatchIsJustified(spec: WorkflowSpec, p: Progress, reports: Reports)
    ensures var a := AdvanceOf(spec, p, reports);
            && (forall n :: n in a.dispatch ==>
                  && StatusIn(p, n) == Pending && StatusIn(a.next, n) == Running
                  && exists s :: s in spec.steps && s.name == n
                                 && DepsReady(spec.continueOnError, s, a.next))
            && (forall i, j :: 0 <= i < j < |a.dispatch| ==> a.dispatch[i] != a.dispatch[j])
            && (a.finished ==> a.dispatch == [])
  {
    var seen, k := Observed(spec, p, reports), |spec.steps|;
    var next, ds := Sweep(spec, k, seen), Dispatched(spec, k, seen);
    DispatchEffect(spec, k, seen);
    forall n | n in ds
      ensures StatusIn(p, n) == Pending && StatusIn(next, n) == Running
      ensures exists s :: s in spec.steps && s.name == n && DepsReady(spec.continueOnError, s, next)
    {
      assert LaunchedFrom(spec, seen, next, n);
      var s :| s in spec.steps && s.name == n && DepsReady(spec.continueOnError, s, seen);
      ReadyIsStable(spec, k, seen, s);
      WasPending(spec, p, reports, n);
    }
    NothingRunningNothingSent(next, ds);
  }

  /** The first two passes make no step Pending that was not. */
  lemma WasPending(spec: WorkflowSpec, p: Progress, reports: Reports, n: string)
    requires StatusIn(Observed(spec, p, reports), n) == Pending
    ensures StatusIn(p, n) == Pending
  {
    PromoteEffect(spec.steps, |spec.steps|, Initialised(spec.steps, p), reports);
  }

  lemma NothingRunningNothingSent(next: Progress, ds: seq<string>)
    requires forall n :: n in ds ==> StatusIn(next, n) == Running
    ensures AllTerminal(next) ==> ds == []
  {
    if ds != [] {
      assert ds[0] in ds;
      assert ds[0] in next && !Terminal(next[ds[0]]);
    }
  }
}
