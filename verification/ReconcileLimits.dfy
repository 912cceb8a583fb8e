/**
 Where the reconcile loop falls short, and exactly when: processes that share a slot,
 records without a process, and a slot 0 that is never launched again.
 */
module ReconcileLimits {
  import opened Options
  import opened SortedSets
  import opened Reconcile
  import opened ReconcileLoop
  import opened ReconcileSafety
  import opened ReconcileNever

  // ------------------------------------------------------------ two processes in one slot

  /** Slot 0 has two live processes on record. */
  ghost predicate SharesSlotZero(st: Loop, o: Observation, o': Observation) {
    && o in st.registry && o' in st.registry && o != o'
    && HasProcess(st, o) && HasProcess(st, o') && Alive(o) && Alive(o') && o.slot == o'.slot == 0
  }

  lemma FirstPass(spec: ServiceSpec, k: nat)
    requires k > 0
    ensures var st := RunLoop(spec, [Reconciled(Accepted(k))]);
            && st.registry == [Live(Instance(0, 0))] && Instance(0, 0) in st.launched
            && st.nextId == 1 + Desired(spec)
  {
    StepsAppend(spec, EMPTY, [], Reconciled(Accepted(k)));
    assert [] + [Reconciled(Accepted(k))] == [Reconciled(Accepted(k))];
    FirstDecision(spec);
    AgentInstancesDistinct(0, Desired(spec), [], k);
    AgentRunSlots(0, Desired(spec), [], k);
    assert RunOf(spec, EMPTY, k)[0] in RunOf(spec, EMPTY, k);
  }

  /** A full redispatch launches a process for slot 0 and records it. */
  lemma RedispatchRecords(spec: ServiceSpec, st: Loop, k: nat)
    requires Decide(spec, st.registry).RedispatchAll? && k > 0
    ensures var next := ReconcileStep(spec, st, Accepted(k));
            && next.registry == Purged(st.registry, Decide(spec, st.registry).purge) + [Live(Instance(st.nextId, 0))]
            && Instance(st.nextId, 0) in next.launched && st.launched <= next.launched
  {
    AgentInstancesDistinct(st.nextId, Desired(spec), [], k);
    AgentRunSlots(st.nextId, Desired(spec), [], k);
    assert RunOf(spec, st, k)[0] in RunOf(spec, st, k);
  }

  /** The only process on record turns unhealthy. */
  lemma AfterFirst(spec: ServiceSpec, sick: Observation)
    requires sick == Observation(0, 0, false, None, true)
    ensures var st := RunLoop(spec, [Reconciled(Accepted(1)), Probed(0, true)]);
            st.registry == [sick] && Instance(0, 0) in st.launched && st.nextId == 1 + Desired(spec)
  {
    var first, e := Reconciled(Accepted(1)), Probed(0, true);
    FirstPass(spec, 1);
    StepsAppend(spec, EMPTY, [first], e);
    assert [first] + [e] == [first, e];
    assert Ran(RunLoop(spec, [first]), 0);
  }

  /** Then a full redispatch. */
  lemma AfterSecond(spec: ServiceSpec, a: Event, b: Event, kept: seq<Observation>, id: nat)
    requires var st := RunLoop(spec, [a, b]);
             && Decide(spec, st.registry).RedispatchAll? && Instance(0, 0) in st.launched && st.nextId == id
             && Purged(st.registry, Decide(spec, st.registry).purge) == kept
    ensures var st := RunLoop(spec, [a, b, Reconciled(Accepted(1))]);
            && st.registry == kept + [Live(Instance(id, 0))]
            && Instance(0, 0) in st.launched && Instance(id, 0) in st.launched
  {
    StepsAppend(spec, EMPTY, [a, b], Reconciled(Accepted(1)));
    assert [a, b] + [Reconciled(Accepted(1))] == [a, b, Reconciled(Accepted(1))];
    RedispatchRecords(spec, RunLoop(spec, [a, b]), 1);
  }

  /** A log line after the replacement: the only replica turns unhealthy and is replaced without
      being stopped, and its next line puts it back on record beside the new one. */
  lemma LateLineSharesSlot(spec: ServiceSpec)
    requires spec.policy != Never && Desired(spec) == 1
    ensures var pass, late := Reconciled(Accepted(1)), Line(Instance(0, 0), false);
            exists o, o' :: SharesSlotZero(RunLoop(spec, [pass, Probed(0, true), pass, late]), o, o')
  {
    var a, b, c, d := Reconciled(Accepted(1)), Probed(0, true), Reconciled(Accepted(1)), Line(Instance(0, 0), false);
    var sick := Observation(0, 0, false, None, true);
    AfterFirst(spec, sick);
    ReplacesTheOnly(spec, sick);
    AfterSecond(spec, a, b, [], 2);
    StepsAppend(spec, EMPTY, [a, b, c], d);
    assert [a, b, c] + [d] == [a, b, c, d];
    LineShares(RunLoop(spec, [a, b, c]), RunLoop(spec, [a, b, c, d]), spec);
  }

  lemma LineShares(st: Loop, next: Loop, spec: ServiceSpec)
    requires st.registry == [] + [Live(Instance(2, 0))]
    requires Instance(0, 0) in st.launched && Instance(2, 0) in st.launched
    requires next == Step(spec, st, Line(Instance(0, 0), false))
    ensures SharesSlotZero(next, Live(Instance(2, 0)), Live(Instance(0, 0)))
  {
    assert IsNew(st, Instance(0, 0));
    assert next.registry[0] in next.registry && next.registry[1] in next.registry;
  }

  lemma ReplacesTheOnly(spec: ServiceSpec, o: Observation)
    requires WantsRestart(spec.policy, o)
    ensures Decide(spec, [o]).RedispatchAll? && Purged([o], Decide(spec, [o]).purge) == []
  {
    var obs := [o];
    assert o in obs && forall p :: p in obs ==> p == o;
    assert AliveSlots(obs) == {} && EndedSlots(spec.policy, obs) == {} && o.slot in RestartSlots(spec.policy, obs);
    var kept := Purged(obs, Decide(spec, obs).purge);
    assert forall i :: 0 <= i < |kept| ==> kept[i] in kept;
  }

  /** A recovered process: under `Never`, of two replicas the agent launches one, it turns
      unhealthy, slot 0 is launched again, and the first process recovers. */
  lemma RecoverySharesSlot(spec: ServiceSpec)
    requires spec.policy == Never && Desired(spec) == 2
    ensures var pass := Reconciled(Accepted(1));
            exists o, o' :: SharesSlotZero(RunLoop(spec, [pass, Probed(0, true), pass, Probed(0, false)]), o, o')
  {
    var a, b, c, d := Reconciled(Accepted(1)), Probed(0, true), Reconciled(Accepted(1)), Probed(0, false);
    var sick := Observation(0, 0, false, None, true);
    AfterFirst(spec, sick);
    EndedHalf(spec, sick);
    NothingToPurge(spec, sick);
    AfterSecond(spec, a, b, [sick], 3);
    StepsAppend(spec, EMPTY, [a, b, c], d);
    assert [a, b, c] + [d] == [a, b, c, d];
    RecoveryShares(RunLoop(spec, [a, b, c]), RunLoop(spec, [a, b, c, d]), spec, sick);
  }

  lemma RecoveryShares(st: Loop, next: Loop, spec: ServiceSpec, sick: Observation)
    requires sick == Observation(0, 0, false, None, true) && st.registry == [sick] + [Live(Instance(3, 0))]
    requires Instance(0, 0) in st.launched && Instance(3, 0) in st.launched
    requires next == Step(spec, st, Probed(0, false))
    ensures SharesSlotZero(next, Live(Instance(0, 0)), Live(Instance(3, 0)))
  {
    assert Ran(st, 0);
    assert next.registry[0] in next.registry && next.registry[1] in next.registry;
  }

  lemma NothingToPurge(spec: ServiceSpec, o: Observation)
    requires spec.policy == Never && Decide(spec, [o]).RedispatchAll?
    ensures Purged([o], Decide(spec, [o]).purge) == [o]
  {
    var ids := Decide(spec, [o]).purge;
    assert o.id !in ids;
    assert [o][..0] == [];
  }

  // ------------------------------------------------------------ records without a process

  /** The event is a dispatch that leaves the controller's record `id` without a process: a
      partial one, or one of which the agent launches nothing. */
  ghost predicate MakesPhantom(spec: ServiceSpec, st: Loop, e: Event, id: nat) {
    var a := Decide(spec, st.registry);
    && e.Reconciled? && e.answer.Accepted? && id == st.nextId
    && (a.DispatchPartial? || (a.RedispatchAll? && e.answer.launched == 0))
  }

  /** The ids such dispatches of the run recorded. */
  ghost function PhantomIds(spec: ServiceSpec, events: seq<Event>): set<nat> {
    if events == [] then {}
    else
      var m := |events| - 1;
      var st := RunLoop(spec, events[..m]);
      PhantomIds(spec, events[..m]) + (if MakesPhantom(spec, st, events[m], st.nextId) then {st.nextId} else {})
  }

  /** No process was launched under `id`, and none will be. */
  ghost predicate Unused(st: Loop, id: nat) {
    id < st.nextId && forall x :: x in st.launched ==> x.id != id
  }

  /** `ids` are the records without a process. */
  ghost predicate PhantomsAre(st: Loop, ids: set<nat>) {
    && (forall id :: id in ids ==> Unused(st, id))
    && (forall o :: o in st.registry && NoProcess(st, o) ==> o.id in ids)
  }

  /** In every run the records without a process are exactly those left by such dispatches. */
  lemma {:induction false} PhantomExactlyWhen(spec: ServiceSpec, events: seq<Event>)
    ensures PhantomsAre(RunLoop(spec, events), PhantomIds(spec, events))
    ensures forall o :: o in RunLoop(spec, events).registry ==>
              (NoProcess(RunLoop(spec, events), o) <==> o.id in PhantomIds(spec, events))
    decreases |events|
  {
    if events != [] {
      var m := |events| - 1;
      PhantomExactlyWhen(spec, events[..m]);
      RunsAreTracked(spec, events[..m]);
      PhantomsStep(spec, RunLoop(spec, events[..m]), events[m], PhantomIds(spec, events[..m]));
    }
  }

  lemma PhantomsStep(spec: ServiceSpec, st: Loop, e: Event, ids: set<nat>)
    requires Tracked(spec, st) && PhantomsAre(st, ids)
    ensures PhantomsAre(Step(spec, st, e), ids + (if MakesPhantom(spec, st, e, st.nextId) then {st.nextId} else {}))
  {
    var next := Step(spec, st, e);
    forall id | id in ids
      ensures Unused(next, id)
    {
      IdsAreNew(spec, st, e, id);
    }
    if MakesPhantom(spec, st, e, st.nextId) {
      PhantomAfterPass(spec, st, e, st.nextId);
    }
    forall o | o in next.registry && NoProcess(next, o)
      ensures o.id in ids || MakesPhantom(spec, st, e, o.id)
    {
      OnlyDispatchesLaunch(spec, st, e);
      PhantomComesFrom(spec, st, e, o);
    }
  }

  lemma PhantomComesFrom(spec: ServiceSpec, st: Loop, e: Event, o: Observation)
    requires Tracked(spec, st) && o in Step(spec, st, e).registry && NoProcess(Step(spec, st, e), o)
    requires st.launched <= Step(spec, st, e).launched
    ensures o in st.registry || MakesPhantom(spec, st, e, o.id)
  {
    if e.Reconciled? && e.answer.Accepted? && !Decide(spec, st.registry).NoOp? {
      ControllerRecordExactlyWhen(spec, st, e.answer.launched);
    } else if e.Exited? || e.Probed? {
      var next := Step(spec, st, e);
      var i :| 0 <= i < |next.registry| && next.registry[i] == o;
      assert st.registry[i] in st.registry;
    }
  }

  lemma PhantomAfterPass(spec: ServiceSpec, st: Loop, e: Event, id: nat)
    requires Tracked(spec, st) && MakesPhantom(spec, st, e, id)
    ensures Unused(Step(spec, st, e), id)
  {
    ControllerRecordExactlyWhen(spec, st, e.answer.launched);
  }

  lemma IdsAreNew(spec: ServiceSpec, st: Loop, e: Event, id: nat)
    requires Tracked(spec, st) && Unused(st, id)
    ensures Unused(Step(spec, st, e), id)
  {
    if e.Reconciled? && e.answer.Accepted? && !Decide(spec, st.registry).NoOp? {
      PassRunIsFresh(spec, st, e.answer.launched);
    }
  }

  /** When the decision is a no-op, every slot but slot 0 has a process on record,
      and slot 0 has one too unless a record without a process sits there. */
  lemma NoOpLeavesOnlySlotZero(spec: ServiceSpec, st: Loop, slot: u32)
    requires Tracked(spec, st) && Decide(spec, st.registry) == NoOp && slot < Desired(spec)
    requires slot != 0 || forall o :: o in st.registry ==> !NoProcess(st, o)
    ensures exists o :: o in st.registry && o.slot == slot && HasProcess(st, o)
  {
    assert slot !in MissingBelow(Desired(spec), SeenSlots(st.registry));
    var o :| o in st.registry && o.slot == slot;
    assert RecordOk(spec, st, o);
  }

  // ------------------------------------------------------------ the hidden slot 0

  /** Slot 0 is on record, but only with records that have no process. */
  ghost predicate Hidden(st: Loop) {
    && (exists o :: o in st.registry && o.slot == 0)
    && forall o :: o in st.registry && o.slot == 0 ==> NoProcess(st, o)
  }

  function SlotZero(launched: set<Instance>): set<Instance> {
    set x | x in launched && x.slot == 0
  }

  /** Every process on record in slot 0 is to be replaced. */
  ghost predicate AllToReplace(spec: ServiceSpec, st: Loop) {
    forall o :: o in st.registry && o.slot == 0 && HasProcess(st, o) ==> WantsRestart(spec.policy, o)
  }

  /** The pass leaves slot 0 hidden and launches no process for it. */
  ghost predicate LosesSlotZero(spec: ServiceSpec, st: Loop, answer: Answer) {
    var next := ReconcileStep(spec, st, answer);
    Hidden(next) && SlotZero(next.launched) == SlotZero(st.launched)
  }

  /** After the purge slot 0 has only records without a process exactly if all its processes are to be replaced. */
  lemma PurgedSlotZero(spec: ServiceSpec, st: Loop)
    requires Tracked(spec, st) && !Decide(spec, st.registry).NoOp?
    ensures var kept := Purged(st.registry, Decide(spec, st.registry).purge);
            && (AllToReplace(spec, st) <==> forall o :: o in kept && o.slot == 0 ==> NoProcess(st, o))
            && forall o :: o in st.registry && NoProcess(st, o) ==> o in kept && o.slot == 0
  {
    var kept := Purged(st.registry, Decide(spec, st.registry).purge);
    PurgeClearsRestarts(spec, st.registry);
    assert forall o :: o in st.registry ==> RecordOk(spec, st, o);
    forall o | o in st.registry && o.slot == 0 && HasProcess(st, o) && !WantsRestart(spec.policy, o)
      ensures o in kept && !NoProcess(st, o)
    {
    }
  }

  /** A dispatch that fails loses slot 0 exactly when every process of slot 0 is to be
      replaced and a record without a process is there to hide it. */
  lemma RefusalLosesExactlyWhen(spec: ServiceSpec, st: Loop)
    requires Tracked(spec, st) && !Decide(spec, st.registry).NoOp?
    ensures LosesSlotZero(spec, st, Refused)
       <==> AllToReplace(spec, st) && exists o :: o in st.registry && NoProcess(st, o)
  {
    PurgedSlotZero(spec, st);
    var next, kept := ReconcileStep(spec, st, Refused), Purged(st.registry, Decide(spec, st.registry).purge);
    assert forall o :: o in kept ==> o in st.registry;
    assert next == st.(registry := kept);
    HiddenIn(st, kept);
  }

  lemma HiddenIn(st: Loop, kept: seq<Observation>)
    requires forall o :: o in kept ==> o in st.registry
    requires forall o :: o in st.registry && NoProcess(st, o) ==> o in kept && o.slot == 0
    ensures Hidden(st.(registry := kept))
       <==> && (forall o :: o in kept && o.slot == 0 ==> NoProcess(st, o))
            && exists o :: o in st.registry && NoProcess(st, o)
  {
    var next := st.(registry := kept);
    assert forall o :: NoProcess(next, o) <==> NoProcess(st, o);
    if o :| o in st.registry && NoProcess(st, o) {
      assert o in kept && o.slot == 0;
    }
  }

  /** A hidden slot 0 is never seen as missing and never waits for a restart. */
  lemma HiddenIsNotLaunched(spec: ServiceSpec, st: Loop)
    requires Tracked(spec, st) && Hidden(st)
    ensures 0 !in LaunchedSlots(spec, Decide(spec, st.registry)) && !Decide(spec, st.registry).RedispatchAll?
  {
    var obs := st.registry;
    assert forall o :: o in obs ==> RecordOk(spec, st, o);
    var o :| o in obs && o.slot == 0;
    assert 0 in SeenSlots(obs) && 0 in AliveSlots(obs);
    assert 0 !in RestartSlots(spec.policy, obs);
    if Decide(spec, obs).DispatchPartial? {
      PartialNamesItsSlots(spec, obs);
    }
  }

  /** Unless it is hidden, a slot 0 whose processes are all to be replaced is launched first. */
  lemma SlotZeroComesFirst(spec: ServiceSpec, st: Loop, k: nat)
    requires Tracked(spec, st) && !Decide(spec, st.registry).NoOp? && AllToReplace(spec, st) && !Hidden(st) && k > 0
    ensures RunOf(spec, st, k) != [] && RunOf(spec, st, k)[0].slot == 0
  {
    var a := Decide(spec, st.registry);
    RunSlots(spec, st, k);
    if a.DispatchPartial? {
      PartialNamesItsSlots(spec, st.registry);
      SlotZeroIsNeeded(spec, st);
      assert 0 in a.slots;
      assert a.slots[0] == 0;
    }
  }

  lemma SlotZeroIsNeeded(spec: ServiceSpec, st: Loop)
    requires Tracked(spec, st) && AllToReplace(spec, st) && !Hidden(st)
    ensures 0 in Missing(spec, st.registry) || 0 in RestartSlots(spec.policy, st.registry)
  {
    if o :| o in st.registry && o.slot == 0 && !NoProcess(st, o) {
      assert RecordOk(spec, st, o);
      assert WantsRestart(spec.policy, o);
    } else {
      assert 0 !in SeenSlots(st.registry);
    }
  }

  /** A dispatch that is sent leaves slot 0 hidden and launches no process for it exactly when
      every process of slot 0 is to be replaced and the agent launches nothing, or slot 0 was
      hidden already. */
  lemma DispatchLosesExactlyWhen(spec: ServiceSpec, st: Loop, k: nat)
    requires Tracked(spec, st) && !Decide(spec, st.registry).NoOp?
    ensures LosesSlotZero(spec, st, Accepted(k)) <==> AllToReplace(spec, st) && (k == 0 || Hidden(st))
  {
    var next, run := ReconcileStep(spec, st, Accepted(k)), RunOf(spec, st, k);
    PurgedSlotZero(spec, st);
    PassRunIsFresh(spec, st, k);
    ControllerRecordExactlyWhen(spec, st, k);
    RunSlots(spec, st, k);
    if Hidden(st) {
      HiddenIsNotLaunched(spec, st);
    } else if k > 0 && AllToReplace(spec, st) {
      SlotZeroComesFirst(spec, st, k);
      assert run[0] in run && run[0] !in st.launched;
      assert run[0] in SlotZero(next.launched);
    }
    HiddenAfterPass(spec, st, k);
  }

  /** A dispatch that is sent leaves slot 0 hidden exactly when every process of slot 0 is to be
      replaced, unless it is a full redispatch of which a slot gets through. */
  lemma HiddenAfterPass(spec: ServiceSpec, st: Loop, k: nat)
    requires Tracked(spec, st) && !Decide(spec, st.registry).NoOp?
    ensures Hidden(ReconcileStep(spec, st, Accepted(k)))
       <==> AllToReplace(spec, st) && !(Decide(spec, st.registry).RedispatchAll? && k > 0)
  {
    var a := Decide(spec, st.registry);
    var next, kept := ReconcileStep(spec, st, Accepted(k)), Purged(st.registry, a.purge);
    var own := Live(Instance(st.nextId, 0));
    PurgedSlotZero(spec, st);
    PassRunIsFresh(spec, st, k);
    ControllerRecordExactlyWhen(spec, st, k);
    forall o | o in kept
      ensures NoProcess(next, o) <==> NoProcess(st, o)
    {
      assert RecordOk(spec, st, o);
      SameProcess(spec, st, next, RunOf(spec, st, k), o);
    }
    HiddenWithOwn(next, kept, own);
  }

  lemma SameProcess(spec: ServiceSpec, st: Loop, next: Loop, run: seq<Instance>, o: Observation)
    requires o.id < st.nextId && FreshRun(spec, st, next.nextId, run)
    requires next.launched == st.launched + set x | x in run
    ensures NoProcess(next, o) <==> NoProcess(st, o)
  {
  }

  lemma HiddenWithOwn(next: Loop, kept: seq<Observation>, own: Observation)
    requires next.registry == kept + [own] && own.slot == 0
    ensures Hidden(next) <==> NoProcess(next, own) && forall o :: o in kept && o.slot == 0 ==> NoProcess(next, o)
  {
    assert own in next.registry;
    assert forall o :: o in next.registry <==> o in kept || o == own;
  }

  /** Hidden at every point of the continuation. */
  ghost predicate StaysHidden(spec: ServiceSpec, st: Loop, events: seq<Event>) {
    && Hidden(StepsFrom(spec, st, events))
    && (events != [] ==> StaysHidden(spec, st, events[..|events| - 1]))
  }

  predicate LineOf(e: Event, xs: set<Instance>) {
    e.Line? && e.instance in xs
  }

  /** None of the processes `xs` writes a line. */
  predicate NoLineOf(events: seq<Event>, xs: set<Instance>) {
    forall e :: e in events ==> !LineOf(e, xs)
  }

  lemma NoLineUpTo(events: seq<Event>, xs: set<Instance>)
    requires events != []
    ensures var m := |events| - 1;
            NoLineOf(events, xs) <==> NoLineOf(events[..m], xs) && !LineOf(events[m], xs)
  {
    var m := |events| - 1;
    assert forall e :: e in events <==> e in events[..m] || e == events[m];
  }

  lemma HiddenStep(spec: ServiceSpec, st: Loop, e: Event)
    requires Tracked(spec, st) && Hidden(st)
    ensures Hidden(Step(spec, st, e)) <==> !LineOf(e, SlotZero(st.launched))
    ensures SlotZero(Step(spec, st, e).launched) == SlotZero(st.launched)
  {
    match e
    case Reconciled(answer) =>
      if !Decide(spec, st.registry).NoOp? {
        PurgedSlotZero(spec, st);
        assert AllToReplace(spec, st);
        if answer.Accepted? {
          DispatchLosesExactlyWhen(spec, st, answer.launched);
        } else {
          RefusalLosesExactlyWhen(spec, st);
        }
        assert LosesSlotZero(spec, st, answer);
      }
    case Exited(id, code) =>
      if Ran(st, id) {
        HiddenSurvivesMark(st, id, o => AfterExit(o, code));
      }
    case Probed(id, bad) =>
      if Ran(st, id) {
        HiddenSurvivesMark(st, id, o => AfterProbe(o, bad));
      }
    case Line(x, bad) => LineUncovers(spec, st, x, bad);
  }

  lemma LineUncovers(spec: ServiceSpec, st: Loop, x: Instance, bad: bool)
    requires Tracked(spec, st) && Hidden(st)
    ensures Hidden(Step(spec, st, Line(x, bad))) <==> !(x in SlotZero(st.launched))
  {
    var next := Step(spec, st, Line(x, bad));
    assert forall o :: o in st.registry ==> RecordOk(spec, st, o);
    if x in SlotZero(st.launched) {
      assert IsNew(st, x);
      assert FirstSeen(x, bad) in next.registry && HasProcess(next, FirstSeen(x, bad));
    } else {
      assert forall o :: o in next.registry && o.slot == 0 ==> o in st.registry;
      assert forall o :: o in st.registry ==> o in next.registry;
    }
  }

  lemma HiddenSurvivesMark(st: Loop, id: nat, f: Observation -> Observation)
    requires Hidden(st) && Ran(st, id)
    requires forall o :: f(o).id == o.id && f(o).slot == o.slot
    ensures Hidden(Marked(st, id, f))
  {
    var next := Marked(st, id, f);
    var o :| o in st.registry && o.slot == 0;
    var i :| 0 <= i < |st.registry| && st.registry[i] == o;
    assert next.registry[i] in next.registry;
    forall p | p in next.registry && p.slot == 0
      ensures NoProcess(next, p)
    {
      var j :| 0 <= j < |next.registry| && next.registry[j] == p;
      assert st.registry[j] in st.registry;
    }
  }

  /** A hidden slot 0 stays hidden exactly as long as no process ever launched for it writes a
      line, and until then no run, however long, launches it again. */
  lemma {:induction false} HiddenExactlyUntil(spec: ServiceSpec, st: Loop, events: seq<Event>)
    requires Tracked(spec, st) && Hidden(st)
    ensures StaysHidden(spec, st, events) <==> NoLineOf(events, SlotZero(st.launched))
    ensures var end := StepsFrom(spec, st, events);
            Tracked(spec, end) && (StaysHidden(spec, st, events) ==> SlotZero(end.launched) == SlotZero(st.launched))
    decreases |events|
  {
    if events != [] {
      var m := |events| - 1;
      var mid := StepsFrom(spec, st, events[..m]);
      HiddenExactlyUntil(spec, st, events[..m]);
      StepIsTracked(spec, mid, events[m]);
      if StaysHidden(spec, st, events[..m]) {
        HiddenStep(spec, mid, events[m]);
      }
      NoLineUpTo(events, SlotZero(st.launched));
    }
  }

  /** An agent that cannot launch anything: for every service, once the first dispatch has been
      sent and launched nothing, slot 0 is never launched, whatever happens afterwards. */
  lemma EmptyFirstLaunchLosesSlotZero(spec: ServiceSpec, events: seq<Event>)
    ensures var st := RunLoop(spec, [Reconciled(Accepted(0))] + events);
            && Hidden(st) && (forall x :: x in st.launched ==> x.slot != 0)
            && (Desired(spec) == 1 ==> Decide(spec, st.registry) == NoOp)
  {
    var first := [Reconciled(Accepted(0))];
    var st := RunLoop(spec, first);
    StepsAppend(spec, EMPTY, [], first[0]);
    assert [] + first == first;
    FirstDecision(spec);
    assert st.launched == {} && st.registry == [Live(Instance(0, 0))];
    assert st.registry[0] in st.registry;
    assert Hidden(st) && SlotZero(st.launched) == {};
    RunsAreTracked(spec, first);
    HiddenExactlyUntil(spec, st, events);
    StepsSplit(spec, EMPTY, first, events);
    var end := RunLoop(spec, first + events);
    assert forall x :: x in end.launched && x.slot == 0 ==> x in SlotZero(end.launched);
    if Desired(spec) == 1 {
      HiddenAlone(spec, end);
    }
  }

  lemma HiddenAlone(spec: ServiceSpec, st: Loop)
    requires Tracked(spec, st) && Hidden(st) && Desired(spec) == 1
    ensures Decide(spec, st.registry) == NoOp
  {
    assert forall o :: o in st.registry ==> RecordOk(spec, st, o) && o.slot == 0 && Alive(o);
    assert RestartSlots(spec.policy, st.registry) == {};
    assert 0 in SeenSlots(st.registry);
    assert Missing(spec, st.registry) == {};
  }
}
