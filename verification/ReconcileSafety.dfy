/**
 What is on record in every run of the reconcile loop, and when a pass converges.
 */
module ReconcileSafety {
  import opened SortedSets
  import opened Reconcile
  import opened ReconcileLoop

  // ------------------------------------------------------------ convergence

  ghost predicate DistinctIds(obs: seq<Observation>) {
    forall i, j :: 0 <= i < j < |obs| ==> obs[i].id != obs[j].id
  }

  lemma SameIdSameRecord(obs: seq<Observation>, o: Observation, o': Observation)
    requires DistinctIds(obs) && o in obs && o' in obs && o.id == o'.id
    ensures o == o'
  {
    var i :| 0 <= i < |obs| && obs[i] == o;
    var j :| 0 <= j < |obs| && obs[j] == o';
  }

  /** A partial dispatch always names a slot, so the agent never mistakes it for the
      classic fan-out, and it names exactly the missing and the restarting slots, in order. */
  lemma PartialNamesItsSlots(spec: ServiceSpec, obs: seq<Observation>)
    requires Decide(spec, obs).DispatchPartial?
    ensures var slots := Decide(spec, obs).slots;
            && slots != [] && AgentSlots(Desired(spec), slots) == slots && Ascending(slots)
            && forall x :: x in slots <==> x in Missing(spec, obs) + RestartSlots(spec.policy, obs)
  {
    var s := Missing(spec, obs) + RestartSlots(spec.policy, obs);
    assert Missing(spec, obs) <= s && RestartSlots(spec.policy, obs) <= s;
    assert s != {};
    assert |s| > 0;
  }

  /** The slots a decision makes the agent launch. */
  function LaunchedSlots(spec: ServiceSpec, a: Action): seq<u32> {
    if a.NoOp? then [] else AgentSlots(Desired(spec), Indices(a))
  }

  /** After the purge no observation waits for a restart. */
  lemma PurgeClearsRestarts(spec: ServiceSpec, obs: seq<Observation>)
    requires !Decide(spec, obs).NoOp?
    ensures forall o :: o in Purged(obs, Decide(spec, obs).purge) ==> o in obs && !WantsRestart(spec.policy, o)
    ensures DistinctIds(obs) ==>
              forall o :: o in obs && !WantsRestart(spec.policy, o) ==> o in Purged(obs, Decide(spec, obs).purge)
  {
    var ids := Decide(spec, obs).purge;
    if DistinctIds(obs) {
      forall o | o in obs && !WantsRestart(spec.policy, o)
        ensures o.id !in ids
      {
        if o.id in ids {
          var o' :| o' in obs && WantsRestart(spec.policy, o') && o'.id == o.id;
          SameIdSameRecord(obs, o, o');
        }
      }
    }
  }

  /** Convergence: purging the listed ids and adding a live instance for every slot
      the agent launches, and any further live records, leaves nothing to do. */
  lemma OnePassConverges(spec: ServiceSpec, obs: seq<Observation>, added: seq<Observation>)
    requires DistinctIds(obs)
    requires forall o :: o in added ==> Alive(o)
    requires forall slot :: slot in LaunchedSlots(spec, Decide(spec, obs)) ==> exists o :: o in added && o.slot == slot
    ensures var a := Decide(spec, obs);
            !a.NoOp? ==> Decide(spec, Purged(obs, a.purge) + added) == NoOp
  {
    var a := Decide(spec, obs);
    if !a.NoOp? {
      var kept := Purged(obs, a.purge);
      var next := kept + added;
      PurgeClearsRestarts(spec, obs);
      assert RestartSlots(spec.policy, next) == {};
      forall i: u32 | i < Desired(spec)
        ensures i in SeenSlots(next)
      {
        if a.RedispatchAll? {
          assert LaunchedSlots(spec, a)[i] == i;
        } else {
          PartialNamesItsSlots(spec, obs);
        }
        if i in LaunchedSlots(spec, a) {
          var o :| o in added && o.slot == i;
          assert o in next;
        } else {
          var o :| o in obs && o.slot == i;
          assert o in kept;
          assert o in next;
        }
      }
      assert Missing(spec, next) == {};
    }
  }

  // ------------------------------------------------------------ what is on record in every run

  /** The record is of a launched process. */
  ghost predicate HasProcess(st: Loop, o: Observation) {
    Instance(o.id, o.slot) in st.launched
  }

  /** No process was ever launched under the record's id. */
  ghost predicate NoProcess(st: Loop, o: Observation) {
    forall x :: x in st.launched ==> x.id != o.id
  }

  /** A record of a launched process below the desired count, or a live slot-0 record without one. */
  ghost predicate RecordOk(spec: ServiceSpec, st: Loop, o: Observation) {
    && o.id < st.nextId && o.slot < Desired(spec)
    && (HasProcess(st, o) || (NoProcess(st, o) && Alive(o) && o.slot == 0))
  }

  ghost predicate LaunchedOk(spec: ServiceSpec, st: Loop) {
    && (forall x :: x in st.launched ==> x.id < st.nextId && x.slot < Desired(spec))
    && (forall x, y :: x in st.launched && y in st.launched && x.id == y.id ==> x == y)
  }

  ghost predicate Tracked(spec: ServiceSpec, st: Loop) {
    && DistinctIds(st.registry)
    && (forall o :: o in st.registry ==> RecordOk(spec, st, o))
    && LaunchedOk(spec, st)
  }

  lemma {:induction false} PurgedKeepsDistinct(obs: seq<Observation>, ids: seq<nat>)
    requires DistinctIds(obs)
    ensures DistinctIds(Purged(obs, ids))
  {
    if obs != [] {
      var m := |obs| - 1;
      PurgedKeepsDistinct(obs[..m], ids);
      var kept := Purged(obs[..m], ids);
      assert forall i :: 0 <= i < |kept| ==> kept[i] in obs[..m];
    }
  }

  lemma SlotsBelowDesired(spec: ServiceSpec, st: Loop)
    requires Tracked(spec, st)
    ensures forall x :: x in LaunchedSlots(spec, Decide(spec, st.registry)) ==> x < Desired(spec)
    ensures Ascending(Indices(Decide(spec, st.registry)))
  {
    var a := Decide(spec, st.registry);
    if a.DispatchPartial? {
      PartialNamesItsSlots(spec, st.registry);
      forall x | x in RestartSlots(spec.policy, st.registry)
        ensures x < Desired(spec)
      {
        var o :| o in st.registry && o.slot == x;
        assert RecordOk(spec, st, o);
      }
    }
  }

  /** The processes a pass launches: new ids, distinct slots, among the slots it names. */
  ghost predicate FreshRun(spec: ServiceSpec, st: Loop, hi: nat, run: seq<Instance>) {
    && st.nextId < hi
    && (forall i, j :: 0 <= i < j < |run| ==> run[i].id != run[j].id && run[i].slot != run[j].slot)
    && (forall x :: x in run ==> st.nextId <= x.id < hi && x.slot < Desired(spec))
  }

  lemma AgentRunInSlots(cid: nat, replicas: u32, indices: seq<u32>, k: nat)
    ensures forall x :: x in AgentInstances(cid, replicas, indices, k) ==> x.slot in AgentSlots(replicas, indices)
  {
    var run := AgentInstances(cid, replicas, indices, k);
    forall x | x in run
      ensures x.slot in AgentSlots(replicas, indices)
    {
      var i :| 0 <= i < |run| && run[i] == x;
      assert x.slot == AgentSlots(replicas, indices)[i];
    }
  }

  lemma PassRunIsFresh(spec: ServiceSpec, st: Loop, k: nat)
    requires Tracked(spec, st) && !Decide(spec, st.registry).NoOp?
    ensures FreshRun(spec, st, ReconcileStep(spec, st, Accepted(k)).nextId, RunOf(spec, st, k))
    ensures forall x :: x in RunOf(spec, st, k) ==> x.slot in LaunchedSlots(spec, Decide(spec, st.registry))
  {
    var a := Decide(spec, st.registry);
    SlotsBelowDesired(spec, st);
    AgentInstancesDistinct(st.nextId, Desired(spec), Indices(a), k);
    AgentRunInSlots(st.nextId, Desired(spec), Indices(a), k);
  }

  /** The slot-0 record of a pass has a process exactly when the pass is a full redispatch
      that gets at least one slot through. */
  lemma ControllerRecordExactlyWhen(spec: ServiceSpec, st: Loop, k: nat)
    requires Tracked(spec, st) && !Decide(spec, st.registry).NoOp?
    ensures var next, o := ReconcileStep(spec, st, Accepted(k)), Live(Instance(st.nextId, 0));
            && (HasProcess(next, o) <==> Decide(spec, st.registry).RedispatchAll? && k > 0)
            && (NoProcess(next, o) <==> !HasProcess(next, o))
  {
    var a := Decide(spec, st.registry);
    var run := RunOf(spec, st, k);
    SlotsBelowDesired(spec, st);
    AgentInstancesDistinct(st.nextId, Desired(spec), Indices(a), k);
    if a.DispatchPartial? {
      PartialNamesItsSlots(spec, st.registry);
    } else if k > 0 {
      assert run[0] in run;
    }
  }

  lemma LaunchKeepsRecords(
      spec: ServiceSpec, st: Loop, next: Loop, run: seq<Instance>, o: Observation)
    requires LaunchedOk(spec, st) && RecordOk(spec, st, o) && FreshRun(spec, st, next.nextId, run)
    requires next.launched == st.launched + set x | x in run
    ensures RecordOk(spec, next, o)
    ensures HasProcess(next, o) <==> HasProcess(st, o)
  {
  }

  lemma LaunchKeepsLaunched(spec: ServiceSpec, st: Loop, next: Loop, run: seq<Instance>)
    requires LaunchedOk(spec, st) && FreshRun(spec, st, next.nextId, run)
    requires next.launched == st.launched + set x | x in run
    ensures LaunchedOk(spec, next)
  {
    forall x, y | x in run && y in run && x.id == y.id
      ensures x == y
    {
      var i :| 0 <= i < |run| && run[i] == x;
      var j :| 0 <= j < |run| && run[j] == y;
    }
  }

  lemma AddedIsTracked(spec: ServiceSpec, next: Loop, kept: seq<Observation>, own: Observation)
    requires next.registry == kept + [own] && LaunchedOk(spec, next) && DistinctIds(kept)
    requires RecordOk(spec, next, own) && forall o :: o in kept ==> RecordOk(spec, next, o) && o.id < own.id
    ensures Tracked(spec, next)
  {
    assert forall i :: 0 <= i < |kept| ==> kept[i] in kept;
  }

  lemma PassIsTracked(spec: ServiceSpec, st: Loop, answer: Answer)
    requires Tracked(spec, st)
    ensures Tracked(spec, ReconcileStep(spec, st, answer))
  {
    var a := Decide(spec, st.registry);
    if !a.NoOp? {
      var next, kept := ReconcileStep(spec, st, answer), Purged(st.registry, a.purge);
      PurgedKeepsDistinct(st.registry, a.purge);
      assert forall o :: o in kept ==> RecordOk(spec, st, o);
      if answer.Accepted? {
        var run, own := RunOf(spec, st, answer.launched), Live(Instance(st.nextId, 0));
        PassRunIsFresh(spec, st, answer.launched);
        LaunchKeepsLaunched(spec, st, next, run);
        forall o | o in kept
          ensures RecordOk(spec, next, o)
        {
          LaunchKeepsRecords(spec, st, next, run, o);
        }
        ControllerRecordExactlyWhen(spec, st, answer.launched);
        AddedIsTracked(spec, next, kept, own);
      }
    }
  }

  lemma MarkIsTracked(spec: ServiceSpec, st: Loop, id: nat, f: Observation -> Observation)
    requires Tracked(spec, st) && Ran(st, id)
    requires forall o :: f(o).id == o.id && f(o).slot == o.slot
    ensures Tracked(spec, Marked(st, id, f))
  {
    var next := Marked(st, id, f);
    forall i | 0 <= i < |next.registry|
      ensures RecordOk(spec, next, next.registry[i])
    {
      var o := st.registry[i];
      assert RecordOk(spec, st, o);
    }
  }

  lemma StepIsTracked(spec: ServiceSpec, st: Loop, e: Event)
    requires Tracked(spec, st)
    ensures Tracked(spec, Step(spec, st, e))
  {
    match e
    case Reconciled(answer) => PassIsTracked(spec, st, answer);
    case Exited(id, code) =>
      if Ran(st, id) {
        MarkIsTracked(spec, st, id, o => AfterExit(o, code));
      }
    case Probed(id, bad) =>
      if Ran(st, id) {
        MarkIsTracked(spec, st, id, o => AfterProbe(o, bad));
      }
    case Line(x, bad) =>
      assert IsNew(st, x) ==> HasProcess(st, FirstSeen(x, bad));
      assert IsNew(st, x) ==> forall i :: 0 <= i < |st.registry| ==> st.registry[i].id != x.id;
  }

  /** In every run from an empty registry ids are distinct, slots are below the desired count,
      and a record is of a launched process or is a live slot-0 record without one. */
  lemma {:induction false} RunsAreTracked(spec: ServiceSpec, events: seq<Event>)
    ensures Tracked(spec, RunLoop(spec, events))
    decreases |events|
  {
    if events != [] {
      var m := |events| - 1;
      RunsAreTracked(spec, events[..m]);
      StepIsTracked(spec, RunLoop(spec, events[..m]), events[m]);
    }
  }

  // ------------------------------------------------------------ convergence of the loop

  function Lines(xs: seq<Instance>): seq<Event> {
    seq(|xs|, i requires 0 <= i < |xs| => Line(xs[i], false))
  }

  /** What the loop knows after hearing from `xs`: the old records, and live ones behind them. */
  ghost predicate Heard(st: Loop, next: Loop, xs: seq<Instance>) {
    && next.launched == st.launched && next.nextId == st.nextId && st.registry <= next.registry
    && (forall i :: |st.registry| <= i < |next.registry| ==> Alive(next.registry[i]))
    && (forall x :: x in xs ==> Listed(next, x.id))
  }

  lemma {:induction false} HearingLists(spec: ServiceSpec, st: Loop, xs: seq<Instance>)
    requires Tracked(spec, st) && forall x :: x in xs ==> x in st.launched
    ensures var next := StepsFrom(spec, st, Lines(xs)); Tracked(spec, next) && Heard(st, next, xs)
    decreases |xs|
  {
    if xs != [] {
      var m := |xs| - 1;
      assert Lines(xs)[..m] == Lines(xs[..m]);
      HearingLists(spec, st, xs[..m]);
      var mid, next := StepsFrom(spec, st, Lines(xs[..m])), StepsFrom(spec, st, Lines(xs));
      StepIsTracked(spec, mid, Line(xs[m], false));
      assert next == Step(spec, mid, Line(xs[m], false));
      OneMoreHeard(spec, st, mid, next, xs, m);
    }
  }

  lemma OneMoreHeard(spec: ServiceSpec, st: Loop, mid: Loop, next: Loop, xs: seq<Instance>, m: nat)
    requires |xs| == m + 1 && Heard(st, mid, xs[..m]) && xs[m] in st.launched
    requires next == Step(spec, mid, Line(xs[m], false))
    ensures Heard(st, next, xs)
  {
    assert mid.registry <= next.registry;
    assert |next.registry| > |mid.registry| ==> next.registry[|mid.registry|] == FirstSeen(xs[m], false);
    forall x | x in xs
      ensures Listed(next, x.id)
    {
      if x in xs[..m] {
        assert Listed(mid, x.id);
        var o :| o in mid.registry && o.id == x.id;
        assert o in next.registry;
      } else {
        assert x == xs[m];
        assert !Listed(mid, x.id) ==> FirstSeen(x, false) in next.registry;
      }
    }
  }

  /** The loop converges in one pass: once a dispatch is fully carried out and its processes,
      among any others, have been heard from, the next pass is a no-op. */
  lemma CompletePassConverges(spec: ServiceSpec, st: Loop, k: nat, heard: seq<Instance>)
    requires Tracked(spec, st) && k >= |LaunchedSlots(spec, Decide(spec, st.registry))|
    requires var next := ReconcileStep(spec, st, Accepted(k));
             && (forall x :: x in heard ==> x in next.launched)
             && (forall x :: x in RunOf(spec, st, k) ==> x in heard)
    ensures var next := ReconcileStep(spec, st, Accepted(k));
            !Decide(spec, st.registry).NoOp? ==> Decide(spec, StepsFrom(spec, next, Lines(heard)).registry) == NoOp
  {
    var a := Decide(spec, st.registry);
    if !a.NoOp? {
      var next := ReconcileStep(spec, st, Accepted(k));
      var end := StepsFrom(spec, next, Lines(heard));
      PassIsTracked(spec, st, Accepted(k));
      HearingLists(spec, next, heard);
      var kept := Purged(st.registry, a.purge);
      var added := end.registry[|kept|..];
      assert kept <= next.registry <= end.registry;
      assert end.registry == kept + added;
      BehindAreLive(next, end, kept, Live(Instance(st.nextId, 0)), heard);
      forall slot | slot in LaunchedSlots(spec, a)
        ensures exists o :: o in added && o.slot == slot
      {
        LaunchedIsAdded(spec, st, k, end, kept, added, slot);
      }
      OnePassConverges(spec, st.registry, added);
    }
  }

  lemma BehindAreLive(
      next: Loop, end: Loop, kept: seq<Observation>, own: Observation, heard: seq<Instance>)
    requires next.registry == kept + [own] && Alive(own) && Heard(next, end, heard)
    ensures |kept| <= |end.registry| && forall o :: o in end.registry[|kept|..] ==> Alive(o)
  {
    forall i | |kept| <= i < |end.registry|
      ensures Alive(end.registry[i])
    {
      assert i == |kept| ==> end.registry[i] == next.registry[i] == own;
    }
  }

  lemma LaunchedIsAdded(
      spec: ServiceSpec, st: Loop, k: nat, end: Loop, kept: seq<Observation>, added: seq<Observation>, slot: u32)
    requires Tracked(spec, st) && Tracked(spec, end) && !Decide(spec, st.registry).NoOp?
    requires end.registry == kept + added && forall o :: o in kept ==> o in st.registry
    requires k >= |LaunchedSlots(spec, Decide(spec, st.registry))|
    requires slot in LaunchedSlots(spec, Decide(spec, st.registry))
    requires forall x :: x in RunOf(spec, st, k) ==> x in end.launched && Listed(end, x.id)
    ensures exists o :: o in added && o.slot == slot
  {
    var slots := LaunchedSlots(spec, Decide(spec, st.registry));
    var i :| 0 <= i < |slots| && slots[i] == slot;
    var x := RunOf(spec, st, k)[i];
    PassRunIsFresh(spec, st, k);
    assert x in RunOf(spec, st, k) && x.slot == slot;
    var o :| o in end.registry && o.id == x.id;
    assert RecordOk(spec, end, o);
    assert forall p :: p in kept ==> RecordOk(spec, st, p) && p.id < st.nextId;
    assert o in added;
  }
}
