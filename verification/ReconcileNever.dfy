/**
 How often a slot is launched. Under `Never` each slot should be launched once; every run
 does so exactly until one of two things happens at a dispatch.
 */
module ReconcileNever {
  import opened Options
  import opened SortedSets
  import opened Reconcile
  import opened ReconcileLoop
  import opened ReconcileSafety

  ghost predicate OncePerSlot(st: Loop) {
    forall x, y :: x in st.launched && y in st.launched && x.slot == y.slot ==> x == y
  }

  /** The slots a pass gets through when the agent launches `k` of them. */
  function FirstSlots(spec: ServiceSpec, st: Loop, k: nat): seq<u32> {
    var slots := LaunchedSlots(spec, Decide(spec, st.registry));
    if k < |slots| then slots[..k] else slots
  }

  lemma RunSlots(spec: ServiceSpec, st: Loop, k: nat)
    ensures |RunOf(spec, st, k)| == |FirstSlots(spec, st, k)|
    ensures forall i :: 0 <= i < |RunOf(spec, st, k)| ==> RunOf(spec, st, k)[i].slot == FirstSlots(spec, st, k)[i]
  {
    var a := Decide(spec, st.registry);
    if !a.NoOp? {
      AgentRunSlots(st.nextId, Desired(spec), Indices(a), k);
    }
  }

  lemma AgentRunSlots(cid: nat, replicas: u32, indices: seq<u32>, k: nat)
    ensures var run, slots := AgentInstances(cid, replicas, indices, k), AgentSlots(replicas, indices);
            && |run| == (if k < |slots| then k else |slots|)
            && forall i :: 0 <= i < |run| ==> run[i].slot == slots[i]
  {
  }

  /** A dispatch through `k` slots launches one again: it is a full redispatch that reaches a
      slot on record, or it reaches the slot of a process that has not been heard from. */
  ghost predicate Relaunches(spec: ServiceSpec, st: Loop, k: nat) {
    || (Decide(spec, st.registry).RedispatchAll? && exists o :: o in st.registry && o.slot < k)
    || (exists x :: IsNew(st, x) && x.slot in FirstSlots(spec, st, k))
  }

  // ------------------------------------------------------------ one dispatch

  /** New processes keep slots launched once exactly if they meet none of the old ones. */
  lemma FreshRunExactlyWhen(spec: ServiceSpec, st: Loop, next: Loop, run: seq<Instance>)
    requires LaunchedOk(spec, st) && OncePerSlot(st) && FreshRun(spec, st, next.nextId, run)
    requires next.launched == st.launched + set x | x in run
    ensures OncePerSlot(next) <==> forall x, y :: x in st.launched && y in run ==> x.slot != y.slot
  {
    forall x, y | x in run && y in run && x.slot == y.slot
      ensures x == y
    {
      var i :| 0 <= i < |run| && run[i] == x;
      var j :| 0 <= j < |run| && run[j] == y;
    }
    forall x, y | OncePerSlot(next) && x in st.launched && y in run
      ensures x.slot != y.slot
    {
      assert x in next.launched && y in next.launched;
    }
  }

  /** A launched process on record is relaunched only by a full redispatch, which then reaches its slot. */
  lemma ListedClash(spec: ServiceSpec, st: Loop, k: nat, x: Instance, y: Instance)
    requires spec.policy == Never && Tracked(spec, st) && !Decide(spec, st.registry).NoOp?
    requires x in st.launched && Listed(st, x.id) && y in RunOf(spec, st, k) && x.slot == y.slot
    ensures Decide(spec, st.registry).RedispatchAll? && exists o :: o in st.registry && o.slot < k
  {
    var o :| o in st.registry && o.id == x.id;
    assert RecordOk(spec, st, o);
    assert Instance(o.id, o.slot) == x;
    var i :| 0 <= i < |RunOf(spec, st, k)| && RunOf(spec, st, k)[i] == y;
    RunSlots(spec, st, k);
    assert o.slot in SeenSlots(st.registry);
    assert RestartSlots(Never, st.registry) == {};
    var slots := LaunchedSlots(spec, Decide(spec, st.registry));
    assert slots[i] in slots && slots[i] == o.slot;
    if Decide(spec, st.registry).DispatchPartial? {
      PartialNamesItsSlots(spec, st.registry);
      assert false;
    }
  }

  /** A full redispatch that reaches a slot on record meets the process launched there. */
  lemma RedispatchClash(spec: ServiceSpec, st: Loop, k: nat, o: Observation)
    requires Tracked(spec, st) && Decide(spec, st.registry).RedispatchAll?
    requires o in st.registry && o.slot < k
    ensures exists x, y :: x in st.launched && y in RunOf(spec, st, k) && x.slot == y.slot
  {
    assert RecordOk(spec, st, o);
    assert Alive(o) ==> o.slot in AliveSlots(st.registry);
    RunSlots(spec, st, k);
    var y := RunOf(spec, st, k)[o.slot];
    assert y in RunOf(spec, st, k) && Instance(o.id, o.slot) in st.launched;
    assert y.slot == o.slot;
  }

  /** Under `Never` a dispatch launches a slot a second time exactly when it relaunches. */
  lemma NeverRelaunchesExactlyWhen(spec: ServiceSpec, st: Loop, k: nat)
    requires spec.policy == Never && Tracked(spec, st) && OncePerSlot(st)
    ensures OncePerSlot(ReconcileStep(spec, st, Accepted(k))) <==> !Relaunches(spec, st, k)
  {
    var next, run := ReconcileStep(spec, st, Accepted(k)), RunOf(spec, st, k);
    RunSlots(spec, st, k);
    if !Decide(spec, st.registry).NoOp? {
      PassRunIsFresh(spec, st, k);
      FreshRunExactlyWhen(spec, st, next, run);
      if x, y :| x in st.launched && y in run && x.slot == y.slot {
        if Listed(st, x.id) {
          ListedClash(spec, st, k, x, y);
        } else {
          var i :| 0 <= i < |run| && run[i] == y;
          assert IsNew(st, x) && x.slot in FirstSlots(spec, st, k);
        }
      } else {
        NoClashNoRelaunch(spec, st, k);
      }
    }
  }

  lemma NoClashNoRelaunch(spec: ServiceSpec, st: Loop, k: nat)
    requires Tracked(spec, st)
    requires forall x, y :: x in st.launched && y in RunOf(spec, st, k) ==> x.slot != y.slot
    ensures !Relaunches(spec, st, k)
  {
    forall x | IsNew(st, x)
      ensures x.slot !in FirstSlots(spec, st, k)
    {
      RunSlots(spec, st, k);
      assert forall i :: 0 <= i < |RunOf(spec, st, k)| ==> RunOf(spec, st, k)[i] in RunOf(spec, st, k);
    }
    if Decide(spec, st.registry).RedispatchAll? {
      if o :| o in st.registry && o.slot < k {
        RedispatchClash(spec, st, k, o);
        assert false;
      }
    }
  }

  // ------------------------------------------------------------ every run

  /** No dispatch of the run relaunches a slot. */
  ghost predicate NothingRelaunched(spec: ServiceSpec, events: seq<Event>) {
    events != [] ==>
      var m := |events| - 1;
      && NothingRelaunched(spec, events[..m])
      && (events[m].Reconciled? && events[m].answer.Accepted?
          ==> !Relaunches(spec, RunLoop(spec, events[..m]), events[m].answer.launched))
  }

  lemma OnlyDispatchesLaunch(spec: ServiceSpec, st: Loop, e: Event)
    ensures st.launched <= Step(spec, st, e).launched
    ensures !(e.Reconciled? && e.answer.Accepted?) ==> Step(spec, st, e).launched == st.launched
  {
  }

  /** Under `Never`, for every run whatever: each slot was launched at most once if and only
      if no dispatch was a full redispatch reaching a slot on record, or reached the slot of
      a process not heard from. */
  lemma {:induction false} NeverLaunchesOnceExactlyWhen(spec: ServiceSpec, events: seq<Event>)
    requires spec.policy == Never
    ensures OncePerSlot(RunLoop(spec, events)) <==> NothingRelaunched(spec, events)
    decreases |events|
  {
    if events != [] {
      var m := |events| - 1;
      var st := RunLoop(spec, events[..m]);
      NeverLaunchesOnceExactlyWhen(spec, events[..m]);
      OnlyDispatchesLaunch(spec, st, events[m]);
      RunsAreTracked(spec, events[..m]);
      if OncePerSlot(st) && events[m].Reconciled? && events[m].answer.Accepted? {
        NeverRelaunchesExactlyWhen(spec, st, events[m].answer.launched);
      }
    }
  }

  /** Every dispatch happens with all launched processes on record. */
  ghost predicate AllHeard(spec: ServiceSpec, events: seq<Event>) {
    events != [] ==>
      var m := |events| - 1;
      && AllHeard(spec, events[..m])
      && (events[m].Reconciled? ==> forall x :: !IsNew(RunLoop(spec, events[..m]), x))
  }

  /** No dispatch is a full redispatch that reaches a slot on record. */
  ghost predicate NoneRedispatched(spec: ServiceSpec, events: seq<Event>) {
    events != [] ==>
      var m := |events| - 1;
      var st := RunLoop(spec, events[..m]);
      && NoneRedispatched(spec, events[..m])
      && (events[m].Reconciled? && events[m].answer.Accepted? && Decide(spec, st.registry).RedispatchAll?
          ==> forall o :: o in st.registry ==> o.slot >= events[m].answer.launched)
  }

  /** With every process heard from, only a redispatch over a slot on record launches twice. */
  lemma HeardLaunchesOnceExactlyWhen(spec: ServiceSpec, events: seq<Event>)
    requires spec.policy == Never && AllHeard(spec, events)
    ensures OncePerSlot(RunLoop(spec, events)) <==> NoneRedispatched(spec, events)
  {
    NeverLaunchesOnceExactlyWhen(spec, events);
    HeardRelaunch(spec, events);
  }

  lemma {:induction false} HeardRelaunch(spec: ServiceSpec, events: seq<Event>)
    requires AllHeard(spec, events)
    ensures NothingRelaunched(spec, events) <==> NoneRedispatched(spec, events)
    decreases |events|
  {
    if events != [] {
      HeardRelaunch(spec, events[..|events| - 1]);
    }
  }

  // ------------------------------------------------------------ complete fan-outs

  /** Every dispatch is carried out in full. */
  ghost predicate AllComplete(spec: ServiceSpec, events: seq<Event>) {
    events != [] ==>
      var m := |events| - 1;
      && AllComplete(spec, events[..m])
      && (events[m].Reconciled? && events[m].answer.Accepted?
          ==> events[m].answer.launched >= |LaunchedSlots(spec, Decide(spec, RunLoop(spec, events[..m]).registry))|)
  }

  ghost predicate AllOrNothing(spec: ServiceSpec, st: Loop) {
    st == EMPTY || AllLaunched(spec, st)
  }

  ghost predicate AllLaunched(spec: ServiceSpec, st: Loop) {
    forall i: u32 :: i < Desired(spec) ==> SlotLaunched(st, i)
  }

  ghost predicate SlotLaunched(st: Loop, slot: u32) {
    exists x :: x in st.launched && x.slot == slot
  }

  lemma FirstDecision(spec: ServiceSpec)
    ensures Decide(spec, []) == RedispatchAll(Desired(spec), [])
    ensures Purged([], []) == []
  {
    assert 0 in MissingBelow(Desired(spec), SeenSlots([]));
    assert AliveSlots([]) == {} && EndedSlots(spec.policy, []) == {};
  }

  /** With every slot launched and on record there is nothing to do under `Never`. */
  lemma NothingMoreToLaunch(spec: ServiceSpec, st: Loop)
    requires spec.policy == Never && Tracked(spec, st) && forall x :: !IsNew(st, x)
    requires AllLaunched(spec, st)
    ensures Decide(spec, st.registry) == NoOp
  {
    assert RestartSlots(Never, st.registry) == {};
    forall i: u32 | i < Desired(spec)
      ensures i in SeenSlots(st.registry)
    {
      assert SlotLaunched(st, i);
      var x :| x in st.launched && x.slot == i;
      assert !IsNew(st, x);
      var o :| o in st.registry && o.id == x.id;
      assert RecordOk(spec, st, o);
    }
    assert Missing(spec, st.registry) == {};
  }

  lemma FirstLaunchIsComplete(spec: ServiceSpec, k: nat)
    requires k >= |LaunchedSlots(spec, Decide(spec, []))|
    ensures AllOrNothing(spec, ReconcileStep(spec, EMPTY, Accepted(k)))
  {
    FirstDecision(spec);
    RunSlots(spec, EMPTY, k);
    var run := RunOf(spec, EMPTY, k);
    forall i: u32 | i < Desired(spec)
      ensures SlotLaunched(ReconcileStep(spec, EMPTY, Accepted(k)), i)
    {
      assert run[i] in run && run[i].slot == i;
    }
  }

  lemma CompleteStep(spec: ServiceSpec, st: Loop, e: Event)
    requires spec.policy == Never && Tracked(spec, st) && AllOrNothing(spec, st)
    requires e.Reconciled? ==> forall x :: !IsNew(st, x)
    requires e.Reconciled? && e.answer.Accepted? ==>
               e.answer.launched >= |LaunchedSlots(spec, Decide(spec, st.registry))|
    ensures AllOrNothing(spec, Step(spec, st, e))
    ensures e.Reconciled? && e.answer.Accepted? ==> !Relaunches(spec, st, e.answer.launched)
  {
    if st == EMPTY {
      FirstDecision(spec);
      if e.Reconciled? && e.answer.Accepted? {
        FirstLaunchIsComplete(spec, e.answer.launched);
      }
    } else {
      OnlyDispatchesLaunch(spec, st, e);
      forall i: u32 | SlotLaunched(st, i)
        ensures SlotLaunched(Step(spec, st, e), i)
      {
        var x :| x in st.launched && x.slot == i;
        assert x in Step(spec, st, e).launched;
      }
      if e.Reconciled? {
        NothingMoreToLaunch(spec, st);
      }
    }
  }

  /** Under `Never` no slot is launched twice in a run whose fan-outs complete and are heard
      from, however instances exit or turn unhealthy and however many dispatches fail. */
  lemma NeverLaunchesASlotTwice(spec: ServiceSpec, events: seq<Event>)
    requires spec.policy == Never && AllHeard(spec, events) && AllComplete(spec, events)
    ensures OncePerSlot(RunLoop(spec, events))
  {
    CompleteRun(spec, events);
    NeverLaunchesOnceExactlyWhen(spec, events);
  }

  lemma {:induction false} CompleteRun(spec: ServiceSpec, events: seq<Event>)
    requires spec.policy == Never && AllHeard(spec, events) && AllComplete(spec, events)
    ensures AllOrNothing(spec, RunLoop(spec, events)) && NothingRelaunched(spec, events)
    decreases |events|
  {
    if events != [] {
      var m := |events| - 1;
      CompleteRun(spec, events[..m]);
      RunsAreTracked(spec, events[..m]);
      CompleteStep(spec, RunLoop(spec, events[..m]), events[m]);
    }
  }

  // ------------------------------------------------------------ how it fails

  /** A half-finished fan-out whose process ends is launched again: of two replicas the agent
      launches one, it exits with success, and the next pass starts from slot 0. */
  lemma HalfFinishedFanOutIsRelaunched()
    ensures var spec := ServiceSpec(Some(2), Never);
            !OncePerSlot(RunLoop(spec, [Reconciled(Accepted(1)), Exited(0, 0), Reconciled(Accepted(2))]))
  {
    var spec := ServiceSpec(Some(2), Never);
    var events := [Reconciled(Accepted(1)), Exited(0, 0), Reconciled(Accepted(2))];
    var st := RunLoop(spec, events[..2]);
    var ended := Observation(0, 0, true, Some(0), false);
    assert st.registry == [ended] by {
      AfterHalf(spec);
      assert events[..2] == [Reconciled(Accepted(1)), Exited(0, 0)];
    }
    EndedHalf(spec, ended);
    assert ended in st.registry;
    assert Relaunches(spec, st, 2);
    assert !NothingRelaunched(spec, events);
    NeverLaunchesOnceExactlyWhen(spec, events);
  }

  lemma AfterHalf(spec: ServiceSpec)
    requires Desired(spec) == 2
    ensures RunLoop(spec, [Reconciled(Accepted(1)), Exited(0, 0)]).registry == [Observation(0, 0, true, Some(0), false)]
  {
    var e, e' := Reconciled(Accepted(1)), Exited(0, 0);
    FirstDecision(spec);
    var one := RunLoop(spec, [e]);
    StepsAppend(spec, EMPTY, [], e);
    StepsAppend(spec, EMPTY, [e], e');
    assert [] + [e] == [e] && [e] + [e'] == [e, e'];
    assert one == ReconcileStep(spec, EMPTY, Accepted(1));
    assert one.registry == [Live(Instance(0, 0))];
    RunSlots(spec, EMPTY, 1);
    var x := RunOf(spec, EMPTY, 1)[0];
    assert x in one.launched && x.id == 0;
    assert Ran(one, 0);
  }

  lemma EndedHalf(spec: ServiceSpec, o: Observation)
    requires spec.policy == Never && Desired(spec) == 2 && o.slot == 0 && !Alive(o)
    ensures Decide(spec, [o]).RedispatchAll?
  {
    assert SeenSlots([o]) == {0} && EndedSlots(Never, [o]) == {0} && AliveSlots([o]) == {};
    assert 1 in Missing(spec, [o]);
  }

  /** A process that has not been heard from is launched again by a pass exactly when the pass
      is a full redispatch, its slot has no record, or a record there awaits a restart. */
  lemma UnheardIsRelaunchedExactlyWhen(spec: ServiceSpec, st: Loop, x: Instance)
    requires Tracked(spec, st) && IsNew(st, x) && !Decide(spec, st.registry).NoOp?
    ensures x.slot in LaunchedSlots(spec, Decide(spec, st.registry))
       <==> || Decide(spec, st.registry).RedispatchAll?
            || x.slot !in SeenSlots(st.registry) || x.slot in RestartSlots(spec.policy, st.registry)
  {
    if Decide(spec, st.registry).RedispatchAll? {
      assert LaunchedSlots(spec, Decide(spec, st.registry))[x.slot] == x.slot;
    } else {
      PartialNamesItsSlots(spec, st.registry);
    }
  }

  /** A second pass before the first log line launches every slot but 0 again, whatever the policy. */
  lemma PassBeforeFirstLine(spec: ServiceSpec, k: nat)
    ensures var st := RunLoop(spec, [Reconciled(Accepted(k))]);
            && (Decide(spec, st.registry) == NoOp <==> Desired(spec) == 1)
            && forall i: u32 :: i < Desired(spec) ==> (i in LaunchedSlots(spec, Decide(spec, st.registry)) <==> i != 0)
  {
    var st := RunLoop(spec, [Reconciled(Accepted(k))]);
    FirstDecision(spec);
    StepsAppend(spec, EMPTY, [], Reconciled(Accepted(k)));
    assert [] + [Reconciled(Accepted(k))] == [Reconciled(Accepted(k))];
    assert st.registry == [Live(Instance(0, 0))];
    OnlySlotZero(spec, Live(Instance(0, 0)));
  }

  lemma OnlySlotZero(spec: ServiceSpec, o: Observation)
    requires Alive(o) && o.slot == 0
    ensures Decide(spec, [o]) == NoOp <==> Desired(spec) == 1
    ensures forall i: u32 :: i < Desired(spec) ==> (i in LaunchedSlots(spec, Decide(spec, [o])) <==> i != 0)
  {
    OneRecord(spec, [o], o);
    LaunchesTheMissing(spec, [o]);
  }

  lemma OneRecord(spec: ServiceSpec, obs: seq<Observation>, o: Observation)
    requires Alive(o) && o.slot == 0 && obs == [o]
    ensures AliveSlots(obs) != {} && RestartSlots(spec.policy, obs) == {}
    ensures Missing(spec, obs) == {} <==> Desired(spec) == 1
    ensures forall i: u32 :: i in Missing(spec, obs) <==> 0 < i < Desired(spec)
  {
    assert o in obs && forall p :: p in obs ==> p == o;
    assert 0 in AliveSlots(obs);
    assert forall i: u32 :: i in SeenSlots(obs) <==> i == 0;
    assert Desired(spec) > 1 ==> 1 in Missing(spec, obs);
  }

  lemma LaunchesTheMissing(spec: ServiceSpec, obs: seq<Observation>)
    requires AliveSlots(obs) != {} && RestartSlots(spec.policy, obs) == {}
    ensures Decide(spec, obs) == NoOp <==> Missing(spec, obs) == {}
    ensures forall i: u32 :: i in LaunchedSlots(spec, Decide(spec, obs)) <==> i in Missing(spec, obs)
  {
    if Missing(spec, obs) != {} {
      PartialNamesItsSlots(spec, obs);
    }
  }
}
