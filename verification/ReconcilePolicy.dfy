/**
 The restart policies read from the fields of a record: what each of them replaces and
 what it leaves alone, in one decision and over runs.
 */
module ReconcilePolicy {
  import opened Options
  import opened SortedSets
  import opened Reconcile
  import opened ReconcileLoop
  import opened ReconcileSafety
  import opened ReconcileNever
  import opened ReconcileLimits
  import opened ReconcileRunning

  /** Exited, or unhealthy. */
  predicate Down(o: Observation) {
    o.exited || o.unhealthy
  }

  /** Exited with a code other than zero, or unhealthy while it has not exited. */
  predicate Crashed(o: Observation) {
    if o.exited then o.exitCode.Some? && o.exitCode.value != 0 else o.unhealthy
  }

  /** Exited with code zero, or without a code. */
  predicate EndedWell(o: Observation) {
    o.exited && (o.exitCode.None? || o.exitCode.value == 0)
  }

  function PurgeOf(a: Action): seq<nat> {
    if a.NoOp? then [] else a.purge
  }

  // ------------------------------------------------------------ one decision

  /** `replaced` are the records the policy replaces: their ids are purged, their slots
      launched, and there is nothing to do exactly when there are none and no slot is unseen. */
  ghost predicate Replaces(spec: ServiceSpec, obs: seq<Observation>, replaced: Observation -> bool) {
    var a := Decide(spec, obs);
    && (a == NoOp <==> (forall o :: o in obs ==> !replaced(o)) && forall i: u32 :: i < Desired(spec) ==> Seen(obs, i))
    && (forall id :: id in PurgeOf(a) <==> !a.NoOp? && exists o :: o in obs && replaced(o) && o.id == id)
    && (forall o :: o in obs && replaced(o) && o.slot < Desired(spec) ==> o.slot in LaunchedSlots(spec, a))
  }

  ghost predicate Seen(obs: seq<Observation>, slot: u32) {
    exists o :: o in obs && o.slot == slot
  }

  lemma ReplacesWhatItWants(spec: ServiceSpec, obs: seq<Observation>, replaced: Observation -> bool)
    requires forall o :: replaced(o) <==> WantsRestart(spec.policy, o)
    ensures Replaces(spec, obs, replaced)
  {
    IdleExactlyWhen(spec, obs);
    forall id
      ensures id in PurgeOf(Decide(spec, obs))
         <==> !Decide(spec, obs).NoOp? && exists o :: o in obs && replaced(o) && o.id == id
    {
      PurgesExactly(spec, obs, id);
    }
    forall o | o in obs && replaced(o) && o.slot < Desired(spec)
      ensures o.slot in LaunchedSlots(spec, Decide(spec, obs))
    {
      LaunchesWhatItWants(spec, obs, o);
    }
  }

  lemma IdleExactlyWhen(spec: ServiceSpec, obs: seq<Observation>)
    ensures Decide(spec, obs) == NoOp
       <==> && (forall o :: o in obs ==> !WantsRestart(spec.policy, o))
            && forall i: u32 :: i < Desired(spec) ==> Seen(obs, i)
  {
    MissingIsUnseen(spec, obs);
    if RestartSlots(spec.policy, obs) == {} {
      assert forall o :: o in obs && WantsRestart(spec.policy, o) ==> o.slot in RestartSlots(spec.policy, obs);
    }
  }

  lemma PurgesExactly(spec: ServiceSpec, obs: seq<Observation>, id: nat)
    ensures id in PurgeOf(Decide(spec, obs))
       <==> !Decide(spec, obs).NoOp? && exists o :: o in obs && WantsRestart(spec.policy, o) && o.id == id
  {
  }

  lemma LaunchesWhatItWants(spec: ServiceSpec, obs: seq<Observation>, o: Observation)
    requires o in obs && WantsRestart(spec.policy, o) && o.slot < Desired(spec)
    ensures o.slot in LaunchedSlots(spec, Decide(spec, obs))
  {
    var a := Decide(spec, obs);
    assert o.slot in RestartSlots(spec.policy, obs);
    if a.DispatchPartial? {
      PartialNamesItsSlots(spec, obs);
    } else {
      assert LaunchedSlots(spec, a)[o.slot] == o.slot;
    }
  }

  lemma MissingIsUnseen(spec: ServiceSpec, obs: seq<Observation>)
    ensures Missing(spec, obs) == {} <==> forall i: u32 :: i < Desired(spec) ==> Seen(obs, i)
  {
    assert forall i: u32 :: Seen(obs, i) <==> i in SeenSlots(obs);
    if Missing(spec, obs) == {} {
      forall i: u32 | i < Desired(spec)
        ensures Seen(obs, i)
      {
        assert i !in Missing(spec, obs);
      }
    } else {
      var i :| i in Missing(spec, obs);
      assert !Seen(obs, i);
    }
  }

  /** `OnFailure` replaces exactly what crashed: what exited with a non-zero code or is unhealthy. */
  lemma OnFailureReplacesCrashes(spec: ServiceSpec, obs: seq<Observation>)
    requires spec.policy == OnFailure
    ensures Replaces(spec, obs, o => Crashed(o))
  {
    ReplacesWhatItWants(spec, obs, o => Crashed(o));
  }

  /** `Always` replaces exactly what is down. */
  lemma AlwaysReplacesAllDown(spec: ServiceSpec, obs: seq<Observation>)
    requires spec.policy == Always
    ensures Replaces(spec, obs, o => Down(o))
  {
    ReplacesWhatItWants(spec, obs, o => Down(o));
  }

  /** `Never` replaces nothing. */
  lemma NeverReplacesNothing(spec: ServiceSpec, obs: seq<Observation>)
    requires spec.policy == Never
    ensures Replaces(spec, obs, o => false)
  {
    ReplacesWhatItWants(spec, obs, o => false);
  }

  /** The slots with a record that is down and left alone. */
  function LeftDown(spec: ServiceSpec, obs: seq<Observation>): set<u32> {
    set o | o in obs && Down(o) && !(spec.policy == Always || (spec.policy == OnFailure && Crashed(o))) :: o.slot
  }

  /** What there is to do is a full redispatch exactly when nothing is alive and fewer slots
      than desired hold a record that is down and left alone. */
  lemma RedispatchExactlyWhen(spec: ServiceSpec, obs: seq<Observation>)
    requires Decide(spec, obs) != NoOp
    ensures Decide(spec, obs).RedispatchAll?
       <==> (forall o :: o in obs ==> Down(o)) && |LeftDown(spec, obs)| < Desired(spec)
  {
    LeftDownIsEnded(spec, obs);
    NoneAliveExactlyWhen(obs);
  }

  lemma LeftDownIsEnded(spec: ServiceSpec, obs: seq<Observation>)
    ensures LeftDown(spec, obs) == EndedSlots(spec.policy, obs)
  {
  }

  lemma NoneAliveExactlyWhen(obs: seq<Observation>)
    ensures AliveSlots(obs) == {} <==> forall o :: o in obs ==> Down(o)
  {
    if o :| o in obs && !Down(o) {
      assert o.slot in AliveSlots(obs);
    }
  }

  /** The first dispatch of a service is a fan-out over `replicas` slots, at least one. */
  lemma FirstDispatchFansOut(replicas: u32, policy: RestartPolicy)
    ensures var a := Decide(ServiceSpec(Some(replicas), policy), []);
            a.RedispatchAll? && a.replicas == (if replicas == 0 then 1 else replicas) && a.purge == []
    ensures LaunchedSlots(ServiceSpec(None, policy), Decide(ServiceSpec(None, policy), [])) == [0]
    ensures replicas > 0 ==>
              var spec := ServiceSpec(Some(replicas), policy);
              && |LaunchedSlots(spec, Decide(spec, []))| == replicas
              && forall i :: 0 <= i < replicas ==> LaunchedSlots(spec, Decide(spec, []))[i] == i
  {
    FirstDecision(ServiceSpec(Some(replicas), policy));
    FirstDecision(ServiceSpec(None, policy));
    assert LaunchedSlots(ServiceSpec(None, policy), Decide(ServiceSpec(None, policy), [])) == [0];
  }

  // ------------------------------------------------------------ over runs

  /** An exit puts its code on record, and leaves id and slot; a probe sets the health of a
      process that has not exited. */
  lemma EventsAreRecorded(spec: ServiceSpec, st: Loop, i: nat, id: nat, code: int, bad: bool)
    requires i < |st.registry| && st.registry[i].id == id && Ran(st, id)
    ensures var r := Step(spec, st, Exited(id, code)).registry;
            |r| == |st.registry| && r[i] == Observation(id, st.registry[i].slot, true, Some(code), false)
    ensures var r := Step(spec, st, Probed(id, bad)).registry;
            && |r| == |st.registry|
            && r[i] == (if st.registry[i].exited then st.registry[i] else st.registry[i].(unhealthy := bad))
  {
  }

  /** The first line of a process puts it on record in its slot, running, with the health already
      known; a line of a process on record, or of none, leaves the records as they are. */
  lemma LinesAreRecorded(spec: ServiceSpec, st: Loop, x: Instance, bad: bool)
    ensures var r := Step(spec, st, Line(x, bad)).registry;
            r == if x in st.launched && forall o :: o in st.registry ==> o.id != x.id
                 then st.registry + [Observation(x.id, x.slot, false, None, bad)] else st.registry
  {
  }

  /** An exit on record carries the code of an exit event of its process. */
  lemma {:induction false} ExitCodesAreReported(spec: ServiceSpec, events: seq<Event>, o: Observation)
    requires o in RunLoop(spec, events).registry && o.exited
    ensures o.exitCode.Some? && Exited(o.id, o.exitCode.value) in events && !o.unhealthy
    decreases |events|
  {
    var m := |events| - 1;
    var st, e := RunLoop(spec, events[..m]), events[m];
    if o in st.registry {
      ExitCodesAreReported(spec, events[..m], o);
    } else if e.Exited? || e.Probed? {
      var next := RunLoop(spec, events);
      var i :| 0 <= i < |next.registry| && next.registry[i] == o;
      assert st.registry[i] in st.registry;
    }
  }

  /** Under `OnFailure` a process on record that exits with a non-zero code is replaced by the
      next pass, and one that exits with zero is not purged by it. */
  lemma ExitDecidesRestart(spec: ServiceSpec, events: seq<Event>, id: nat, code: int)
    requires spec.policy == OnFailure && Listed(RunLoop(spec, events), id) && Ran(RunLoop(spec, events), id)
    ensures var st := RunLoop(spec, events + [Exited(id, code)]);
            id in PurgeOf(Decide(spec, st.registry)) <==> code != 0
    ensures var st := RunLoop(spec, events + [Exited(id, code)]);
            code != 0 ==> forall o :: o in st.registry && o.id == id ==>
                            o.slot in LaunchedSlots(spec, Decide(spec, st.registry))
  {
    var before, st := RunLoop(spec, events), RunLoop(spec, events + [Exited(id, code)]);
    StepsAppend(spec, EMPTY, events, Exited(id, code));
    RunsAreTracked(spec, events);
    RunsAreTracked(spec, events + [Exited(id, code)]);
    var i :| 0 <= i < |before.registry| && before.registry[i].id == id;
    EventsAreRecorded(spec, before, i, id, code, false);
    var o := st.registry[i];
    assert o in st.registry && RecordOk(spec, st, o);
    OnFailureReplacesCrashes(spec, st.registry);
    forall p | p in st.registry && p.id == id
      ensures p == o
    {
      SameIdSameRecord(st.registry, o, p);
    }
  }

  /** Under `OnFailure` a pass keeps every record that ended well, in every run. */
  lemma PassKeepsWhatEndedWell(spec: ServiceSpec, events: seq<Event>, answer: Answer, o: Observation)
    requires spec.policy == OnFailure && o in RunLoop(spec, events).registry && EndedWell(o)
    ensures o in RunLoop(spec, events + [Reconciled(answer)]).registry
  {
    var st := RunLoop(spec, events);
    StepsAppend(spec, EMPTY, events, Reconciled(answer));
    RunsAreTracked(spec, events);
    if !Decide(spec, st.registry).NoOp? {
      PurgeClearsRestarts(spec, st.registry);
    }
  }

  /** At a no-op no record is one the policy replaces: nothing crashed under `OnFailure`,
      nothing is down under `Always`. */
  lemma NoOpShowsNone(spec: ServiceSpec, obs: seq<Observation>, o: Observation)
    requires Decide(spec, obs) == NoOp && o in obs
    ensures spec.policy == OnFailure ==> !Crashed(o)
    ensures spec.policy == Always ==> !Down(o)
  {
    NoOpMeans(spec, obs);
  }

  /** A process of the slot is on record that runs, or that exited with zero or without a code. */
  ghost predicate RunsOrEndedWell(spec: ServiceSpec, events: seq<Event>, slot: u32) {
    var st := RunLoop(spec, events);
    exists o :: o in st.registry && o.slot == slot && HasProcess(st, o)
                && (o.id !in Exits(spec, events) || EndedWell(o))
  }

  /** Under `OnFailure`, with lines in order: at a no-op every slot has a process that runs or
      ended well, except slot 0 when it is hidden. */
  lemma OnFailureServesExactlyWhen(spec: ServiceSpec, events: seq<Event>, slot: u32)
    requires spec.policy == OnFailure && InOrder(spec, events)
    requires Decide(spec, RunLoop(spec, events).registry) == NoOp && slot < Desired(spec)
    ensures RunsOrEndedWell(spec, events, slot) <==> !(slot == 0 && Hidden(RunLoop(spec, events)))
  {
    NoOpServesExactlyWhen(spec, events, slot);
    assert forall o :: EndedWell(o) <==> o.exited && !WantsRestart(OnFailure, o);
  }
}
