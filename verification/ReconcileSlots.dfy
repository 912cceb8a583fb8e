/**
 Exclusive slots: at most one process on record per slot that runs or awaits its
 restart. Every run keeps this exactly as long as its events are legal, and runs whose
 log lines come from the latest dispatch are legal.
 */
module ReconcileSlots {
  import opened SortedSets
  import opened Reconcile
  import opened ReconcileLoop
  import opened ReconcileSafety

  /** Which records occupy a slot: those alive or awaiting their restart, or also those that
      are unhealthy and may recover. */
  datatype Sense = Active | MayBecomeActive

  predicate Occupies(sense: Sense, policy: RestartPolicy, o: Observation) {
    match sense
    case Active => Alive(o) || WantsRestart(policy, o)
    case MayBecomeActive => !o.exited || WantsRestart(policy, o)
  }

  ghost predicate Holder(sense: Sense, policy: RestartPolicy, st: Loop, o: Observation) {
    o in st.registry && HasProcess(st, o) && Occupies(sense, policy, o)
  }

  ghost predicate Held(sense: Sense, policy: RestartPolicy, st: Loop, slot: u32) {
    exists o :: Holder(sense, policy, st, o) && o.slot == slot
  }

  ghost predicate OneHolderPerSlot(sense: Sense, policy: RestartPolicy, st: Loop) {
    forall o, o' :: Holder(sense, policy, st, o) && Holder(sense, policy, st, o') && o.slot == o'.slot ==> o == o'
  }

  /** Rewriting record `o` to `o'` makes it occupy its slot, which it did not. */
  ghost predicate Revives(sense: Sense, policy: RestartPolicy, st: Loop, id: nat, o: Observation, o': Observation) {
    && o in st.registry && o.id == id && HasProcess(st, o)
    && !Occupies(sense, policy, o) && Occupies(sense, policy, o')
  }

  /** The events that leave slots exclusive. Ruled out are the first line of a process into an
      occupied slot, and an exit or a recovery that revives a record of an occupied slot. In
      the wider sense a full redispatch under `Never` is ruled out too, while slot 0 has an
      unhealthy process that has not exited. */
  ghost predicate Legal(sense: Sense, spec: ServiceSpec, st: Loop, e: Event) {
    match e
    case Reconciled(answer) =>
      && sense == MayBecomeActive && spec.policy == Never
      && answer.Accepted? && answer.launched > 0 && Decide(spec, st.registry).RedispatchAll?
      ==> !Held(sense, Never, st, 0)
    case Line(x, bad) =>
      IsNew(st, x) && Occupies(sense, spec.policy, FirstSeen(x, bad)) ==> !Held(sense, spec.policy, st, x.slot)
    case Exited(id, code) =>
      forall o :: Revives(sense, spec.policy, st, id, o, AfterExit(o, code)) ==> !Held(sense, spec.policy, st, o.slot)
    case Probed(id, bad) =>
      forall o :: Revives(sense, spec.policy, st, id, o, AfterProbe(o, bad)) ==> !Held(sense, spec.policy, st, o.slot)
  }

  ghost predicate LegalFrom(sense: Sense, spec: ServiceSpec, st: Loop, events: seq<Event>) {
    events != [] ==>
      var m := |events| - 1;
      LegalFrom(sense, spec, st, events[..m]) && Legal(sense, spec, StepsFrom(spec, st, events[..m]), events[m])
  }

  /** Slots are exclusive at every point of the run. */
  ghost predicate AlwaysExclusive(sense: Sense, spec: ServiceSpec, st: Loop, events: seq<Event>) {
    && OneHolderPerSlot(sense, spec.policy, StepsFrom(spec, st, events))
    && (events != [] ==> AlwaysExclusive(sense, spec, st, events[..|events| - 1]))
  }

  // ------------------------------------------------------------ one event

  /** One record comes to hold a slot and no other does: exclusive exactly if the slot was free. */
  lemma OneMoreHolder(sense: Sense, policy: RestartPolicy, st: Loop, next: Loop, o: Observation)
    requires OneHolderPerSlot(sense, policy, st) && !Holder(sense, policy, st, o)
    requires forall p :: Holder(sense, policy, next, p) <==> Holder(sense, policy, st, p) || p == o
    ensures OneHolderPerSlot(sense, policy, next) <==> !Held(sense, policy, st, o.slot)
  {
    if p :| Holder(sense, policy, st, p) && p.slot == o.slot {
      assert Holder(sense, policy, next, p) && Holder(sense, policy, next, o);
    }
  }

  /** A full redispatch finds no kept process in a slot, except unhealthy ones under `Never`. */
  lemma RedispatchKeepsNoHolder(sense: Sense, spec: ServiceSpec, st: Loop, o: Observation)
    requires Tracked(spec, st) && Decide(spec, st.registry).RedispatchAll?
    requires o in Purged(st.registry, Decide(spec, st.registry).purge) && Occupies(sense, spec.policy, o)
    ensures sense == MayBecomeActive && spec.policy == Never && o.unhealthy && !o.exited
  {
    PurgeClearsRestarts(spec, st.registry);
    assert Alive(o) ==> o.slot in AliveSlots(st.registry);
  }

  /** The holders after a pass: those kept, and the controller's own record if it has a process. */
  lemma HoldersAfterPass(sense: Sense, spec: ServiceSpec, st: Loop, k: nat, o: Observation)
    requires Tracked(spec, st) && !Decide(spec, st.registry).NoOp?
    ensures var next, own := ReconcileStep(spec, st, Accepted(k)), Live(Instance(st.nextId, 0));
            var kept := Purged(st.registry, Decide(spec, st.registry).purge);
            Holder(sense, spec.policy, next, o)
            <==> (o in kept && Holder(sense, spec.policy, st, o))
                 || (o == own && Decide(spec, st.registry).RedispatchAll? && k > 0)
  {
    var a := Decide(spec, st.registry);
    var next, kept := ReconcileStep(spec, st, Accepted(k)), Purged(st.registry, a.purge);
    PassRunIsFresh(spec, st, k);
    ControllerRecordExactlyWhen(spec, st, k);
    if o in kept {
      assert RecordOk(spec, st, o);
      LaunchKeepsRecords(spec, st, next, RunOf(spec, st, k), o);
    }
  }

  lemma PassExactlyWhen(sense: Sense, spec: ServiceSpec, st: Loop, answer: Answer)
    requires Tracked(spec, st) && OneHolderPerSlot(sense, spec.policy, st)
    ensures OneHolderPerSlot(sense, spec.policy, ReconcileStep(spec, st, answer))
       <==> Legal(sense, spec, st, Reconciled(answer))
  {
    var a := Decide(spec, st.registry);
    var next, own := ReconcileStep(spec, st, answer), Live(Instance(st.nextId, 0));
    if !a.NoOp? {
      var kept := Purged(st.registry, a.purge);
      if answer.Refused? {
        assert forall o :: Holder(sense, spec.policy, next, o) ==> Holder(sense, spec.policy, st, o);
      } else {
        forall o
          ensures Holder(sense, spec.policy, next, o)
             <==> (o in kept && Holder(sense, spec.policy, st, o))
                  || (o == own && a.RedispatchAll? && answer.launched > 0)
        {
          HoldersAfterPass(sense, spec, st, answer.launched, o);
        }
        if a.RedispatchAll? && answer.launched > 0 {
          RedispatchExactlyWhen(sense, spec, st, answer.launched);
        }
      }
    }
  }

  lemma RedispatchExactlyWhen(sense: Sense, spec: ServiceSpec, st: Loop, k: nat)
    requires Tracked(spec, st) && OneHolderPerSlot(sense, spec.policy, st)
    requires Decide(spec, st.registry).RedispatchAll? && k > 0
    ensures OneHolderPerSlot(sense, spec.policy, ReconcileStep(spec, st, Accepted(k)))
       <==> !(sense == MayBecomeActive && spec.policy == Never && Held(sense, Never, st, 0))
  {
    var a := Decide(spec, st.registry);
    var kept, next := Purged(st.registry, a.purge), ReconcileStep(spec, st, Accepted(k));
    var own := Live(Instance(st.nextId, 0));
    var base := st.(registry := kept);
    forall o
      ensures Holder(sense, spec.policy, next, o) <==> Holder(sense, spec.policy, base, o) || o == own
    {
      HoldersAfterPass(sense, spec, st, k, o);
    }
    assert forall o :: o in kept ==> RecordOk(spec, st, o);
    assert !Holder(sense, spec.policy, base, own);
    OneMoreHolder(sense, spec.policy, base, next, own);
    forall o | Holder(sense, spec.policy, base, o)
      ensures sense == MayBecomeActive && spec.policy == Never
    {
      RedispatchKeepsNoHolder(sense, spec, st, o);
    }
    if spec.policy == Never {
      PurgeClearsRestarts(spec, st.registry);
      assert forall o :: o in st.registry ==> o in kept;
    }
  }

  lemma LineExactlyWhen(sense: Sense, spec: ServiceSpec, st: Loop, x: Instance, bad: bool)
    requires Tracked(spec, st) && OneHolderPerSlot(sense, spec.policy, st)
    ensures OneHolderPerSlot(sense, spec.policy, Step(spec, st, Line(x, bad)))
       <==> Legal(sense, spec, st, Line(x, bad))
  {
    if IsNew(st, x) {
      var next := Step(spec, st, Line(x, bad));
      if Occupies(sense, spec.policy, FirstSeen(x, bad)) {
        OneMoreHolder(sense, spec.policy, st, next, FirstSeen(x, bad));
      } else {
        assert forall p :: Holder(sense, spec.policy, next, p) <==> Holder(sense, spec.policy, st, p);
      }
    }
  }

  /** Rewriting records without reviving one leaves slots exclusive. */
  lemma MarkIsExclusive(sense: Sense, policy: RestartPolicy, st: Loop, id: nat, f: Observation -> Observation)
    requires OneHolderPerSlot(sense, policy, st)
    requires forall o :: f(o).id == o.id && f(o).slot == o.slot
    requires forall o :: !Revives(sense, policy, st, id, o, f(o))
    ensures OneHolderPerSlot(sense, policy, Marked(st, id, f))
  {
    var next := Marked(st, id, f);
    forall o | Holder(sense, policy, next, o)
      ensures exists p :: Holder(sense, policy, st, p) && o == if p.id == id then f(p) else p
    {
      var i :| 0 <= i < |next.registry| && next.registry[i] == o;
      assert !Revives(sense, policy, st, id, st.registry[i], f(st.registry[i]));
      assert Holder(sense, policy, st, st.registry[i]);
    }
    forall o, o' | Holder(sense, policy, next, o) && Holder(sense, policy, next, o') && o.slot == o'.slot
      ensures o == o'
    {
      var p :| Holder(sense, policy, st, p) && o == if p.id == id then f(p) else p;
      var p' :| Holder(sense, policy, st, p') && o' == if p'.id == id then f(p') else p';
    }
  }

  /** Rewriting that revives record `o` makes it a holder, and no other. */
  lemma RevivedHolder(
      sense: Sense, policy: RestartPolicy, st: Loop, id: nat, f: Observation -> Observation, o: Observation)
    requires DistinctIds(st.registry) && Revives(sense, policy, st, id, o, f(o))
    requires forall p :: f(p).id == p.id && f(p).slot == p.slot
    ensures var next := Marked(st, id, f);
            && !Holder(sense, policy, st, f(o))
            && forall p :: Holder(sense, policy, next, p) <==> Holder(sense, policy, st, p) || p == f(o)
  {
    var next := Marked(st, id, f);
    var i :| 0 <= i < |st.registry| && st.registry[i] == o;
    assert next.registry[i] == f(o);
    assert forall j :: 0 <= j < |st.registry| && j != i ==> next.registry[j] == st.registry[j];
    forall p
      ensures Holder(sense, policy, next, p) <==> Holder(sense, policy, st, p) || p == f(o)
    {
      if Holder(sense, policy, st, p) {
        var j :| 0 <= j < |st.registry| && st.registry[j] == p;
        assert next.registry[j] in next.registry;
      }
      if Holder(sense, policy, next, p) {
        var j :| 0 <= j < |next.registry| && next.registry[j] == p;
        assert st.registry[j] in st.registry;
      }
    }
  }

  /** Rewriting one record leaves slots exclusive exactly if it revives none of an occupied slot. */
  lemma MarkExactlyWhen(sense: Sense, policy: RestartPolicy, st: Loop, id: nat, f: Observation -> Observation)
    requires DistinctIds(st.registry) && OneHolderPerSlot(sense, policy, st)
    requires forall o :: f(o).id == o.id && f(o).slot == o.slot
    ensures OneHolderPerSlot(sense, policy, Marked(st, id, f))
       <==> forall o :: Revives(sense, policy, st, id, o, f(o)) ==> !Held(sense, policy, st, o.slot)
  {
    if o :| Revives(sense, policy, st, id, o, f(o)) {
      RevivedHolder(sense, policy, st, id, f, o);
      OneMoreHolder(sense, policy, st, Marked(st, id, f), f(o));
      forall p | Revives(sense, policy, st, id, p, f(p))
        ensures p == o
      {
        SameIdSameRecord(st.registry, o, p);
      }
    } else {
      MarkIsExclusive(sense, policy, st, id, f);
    }
  }

  /** One event keeps slots exclusive exactly when it is legal. */
  lemma StepExactlyWhen(sense: Sense, spec: ServiceSpec, st: Loop, e: Event)
    requires Tracked(spec, st) && OneHolderPerSlot(sense, spec.policy, st)
    ensures OneHolderPerSlot(sense, spec.policy, Step(spec, st, e)) <==> Legal(sense, spec, st, e)
  {
    match e
    case Reconciled(answer) => PassExactlyWhen(sense, spec, st, answer);
    case Line(x, bad) => LineExactlyWhen(sense, spec, st, x, bad);
    case Exited(id, code) =>
      if Ran(st, id) {
        MarkExactlyWhen(sense, spec.policy, st, id, o => AfterExit(o, code));
      }
    case Probed(id, bad) =>
      if Ran(st, id) {
        MarkExactlyWhen(sense, spec.policy, st, id, o => AfterProbe(o, bad));
      }
  }

  // ------------------------------------------------------------ every run

  /** A run keeps slots exclusive throughout, in either sense, exactly when all its events are legal. */
  lemma {:induction false} ExclusiveExactlyWhen(sense: Sense, spec: ServiceSpec, events: seq<Event>)
    ensures AlwaysExclusive(sense, spec, EMPTY, events) <==> LegalFrom(sense, spec, EMPTY, events)
    decreases |events|
  {
    if events != [] {
      var m := |events| - 1;
      ExclusiveExactlyWhen(sense, spec, events[..m]);
      RunsAreTracked(spec, events[..m]);
      if LegalFrom(sense, spec, EMPTY, events[..m]) {
        StepExactlyWhen(sense, spec, RunLoop(spec, events[..m]), events[m]);
      }
    }
  }

  /** Two records of processes that are alive or awaiting restart are in different slots. */
  ghost predicate SlotsDiffer(policy: RestartPolicy, st: Loop) {
    forall i, j :: 0 <= i < j < |st.registry|
      && Holder(Active, policy, st, st.registry[i]) && Holder(Active, policy, st, st.registry[j])
      ==> st.registry[i].slot != st.registry[j].slot
  }

  ghost predicate AlwaysDiffer(spec: ServiceSpec, events: seq<Event>) {
    SlotsDiffer(spec.policy, RunLoop(spec, events)) && (events != [] ==> AlwaysDiffer(spec, events[..|events| - 1]))
  }

  /** Slot safety: a run from an empty registry has, at every point, at most one process on
      record per slot that is alive or awaiting restart, exactly if no first line, exit or
      recovery brings a second one. Slots are below the desired count in any case. */
  lemma SlotSafety(spec: ServiceSpec, events: seq<Event>)
    ensures AlwaysDiffer(spec, events) <==> LegalFrom(Active, spec, EMPTY, events)
    ensures var st := RunLoop(spec, events);
            forall i :: 0 <= i < |st.registry| ==> st.registry[i].slot < Desired(spec)
  {
    ExclusiveExactlyWhen(Active, spec, events);
    DifferIsExclusive(spec, events);
    RunsAreTracked(spec, events);
    var st := RunLoop(spec, events);
    assert forall i :: 0 <= i < |st.registry| ==> RecordOk(spec, st, st.registry[i]);
  }

  lemma {:induction false} DifferIsExclusive(spec: ServiceSpec, events: seq<Event>)
    ensures AlwaysDiffer(spec, events) <==> AlwaysExclusive(Active, spec, EMPTY, events)
    decreases |events|
  {
    RunsAreTracked(spec, events);
    OneByIndex(spec.policy, RunLoop(spec, events));
    if events != [] {
      DifferIsExclusive(spec, events[..|events| - 1]);
    }
  }

  lemma OneByIndex(policy: RestartPolicy, st: Loop)
    requires DistinctIds(st.registry)
    ensures SlotsDiffer(policy, st) <==> OneHolderPerSlot(Active, policy, st)
  {
    if SlotsDiffer(policy, st) {
      forall o, o' | Holder(Active, policy, st, o) && Holder(Active, policy, st, o') && o.slot == o'.slot
        ensures o == o'
      {
        var i :| 0 <= i < |st.registry| && st.registry[i] == o;
        var j :| 0 <= j < |st.registry| && st.registry[j] == o';
      }
    }
  }

  /** What is legal in the wider sense throughout a run is so in the narrower. */
  lemma LegalInBothSenses(spec: ServiceSpec, events: seq<Event>)
    requires LegalFrom(MayBecomeActive, spec, EMPTY, events)
    ensures LegalFrom(Active, spec, EMPTY, events)
  {
    ExclusiveExactlyWhen(MayBecomeActive, spec, events);
    NarrowerIsExclusive(spec, events);
    ExclusiveExactlyWhen(Active, spec, events);
  }

  lemma {:induction false} NarrowerIsExclusive(spec: ServiceSpec, events: seq<Event>)
    requires AlwaysExclusive(MayBecomeActive, spec, EMPTY, events)
    ensures AlwaysExclusive(Active, spec, EMPTY, events)
    decreases |events|
  {
    var st := RunLoop(spec, events);
    assert forall o :: Holder(Active, spec.policy, st, o) ==> Holder(MayBecomeActive, spec.policy, st, o);
    if events != [] {
      NarrowerIsExclusive(spec, events[..|events| - 1]);
    }
  }

  // ------------------------------------------------------------ lines that come in time

  /** The processes of the latest dispatch that was carried out. */
  function LatestRun(spec: ServiceSpec, events: seq<Event>): seq<Instance> {
    if events == [] then []
    else
      var m := |events| - 1;
      var st := RunLoop(spec, events[..m]);
      match events[m]
      case Reconciled(Accepted(k)) =>
        if Decide(spec, st.registry).NoOp? then LatestRun(spec, events[..m]) else RunOf(spec, st, k)
      case _ => LatestRun(spec, events[..m])
  }

  /** A process that is not on record speaks only until the next dispatch, no process exits
      twice, and under `Never` no slot with an unhealthy process is launched. */
  ghost predicate InTime(spec: ServiceSpec, st: Loop, latest: seq<Instance>, e: Event) {
    match e
    case Line(x, _) => IsNew(st, x) ==> x in latest
    case Exited(id, _) => forall o :: o in st.registry && o.id == id ==> !o.exited
    case Reconciled(Accepted(k)) =>
      spec.policy == Never && Decide(spec, st.registry).RedispatchAll? ==>
        forall o :: Holder(MayBecomeActive, Never, st, o) ==> o.slot >= k
    case _ => true
  }

  ghost predicate InTimeRun(spec: ServiceSpec, events: seq<Event>) {
    events != [] ==>
      var m := |events| - 1;
      InTimeRun(spec, events[..m]) && InTime(spec, RunLoop(spec, events[..m]), LatestRun(spec, events[..m]), events[m])
  }

  /** Only members of `run` hold the slots of `run`. */
  ghost predicate Reserved(policy: RestartPolicy, st: Loop, run: seq<Instance>) {
    && (forall i, j :: 0 <= i < j < |run| ==> run[i].slot != run[j].slot)
    && (forall o, x :: Holder(MayBecomeActive, policy, st, o) && x in run && o.slot == x.slot ==> o.id == x.id)
  }

  /** A pass launches no slot that a kept process holds. */
  lemma LaunchedSlotsAreFree(spec: ServiceSpec, st: Loop, k: nat, o: Observation, x: Instance)
    requires Tracked(spec, st) && OneHolderPerSlot(MayBecomeActive, spec.policy, st) && !Decide(spec, st.registry).NoOp?
    requires InTime(spec, st, [], Reconciled(Accepted(k)))
    requires o in Purged(st.registry, Decide(spec, st.registry).purge) && Holder(MayBecomeActive, spec.policy, st, o)
    requires x in RunOf(spec, st, k)
    ensures o.slot != x.slot
  {
    var a := Decide(spec, st.registry);
    PassRunIsFresh(spec, st, k);
    if a.RedispatchAll? {
      RedispatchKeepsNoHolder(MayBecomeActive, spec, st, o);
      var i :| 0 <= i < |RunOf(spec, st, k)| && RunOf(spec, st, k)[i] == x;
      assert x.slot == i < k;
    } else {
      PurgeClearsRestarts(spec, st.registry);
      PartialNamesItsSlots(spec, st.registry);
      assert o.slot in SeenSlots(st.registry);
      forall w | w in st.registry && WantsRestart(spec.policy, w)
        ensures w.slot != o.slot
      {
        assert RecordOk(spec, st, w);
        assert Holder(MayBecomeActive, spec.policy, st, w);
      }
    }
  }

  lemma PassReserves(spec: ServiceSpec, st: Loop, k: nat)
    requires Tracked(spec, st) && OneHolderPerSlot(MayBecomeActive, spec.policy, st) && !Decide(spec, st.registry).NoOp?
    requires InTime(spec, st, [], Reconciled(Accepted(k)))
    ensures Reserved(spec.policy, ReconcileStep(spec, st, Accepted(k)), RunOf(spec, st, k))
  {
    var next, run := ReconcileStep(spec, st, Accepted(k)), RunOf(spec, st, k);
    PassRunIsFresh(spec, st, k);
    forall o, x | Holder(MayBecomeActive, spec.policy, next, o) && x in run && o.slot == x.slot
      ensures o.id == x.id
    {
      HoldersAfterPass(MayBecomeActive, spec, st, k, o);
      if o in Purged(st.registry, Decide(spec, st.registry).purge) && Holder(MayBecomeActive, spec.policy, st, o) {
        LaunchedSlotsAreFree(spec, st, k, o, x);
        assert false;
      }
      ControllerRecordExactlyWhen(spec, st, k);
      assert run[0] == Instance(st.nextId, 0);
      var i :| 0 <= i < |run| && run[i] == x;
    }
  }

  /** Between dispatches holders come only from the latest run, so it stays reserved. */
  lemma OthersReserve(spec: ServiceSpec, st: Loop, run: seq<Instance>, e: Event)
    requires Tracked(spec, st) && Reserved(spec.policy, st, run) && InTime(spec, st, run, e)
    requires e.Reconciled? ==> e.answer.Refused? || Decide(spec, st.registry).NoOp?
    ensures Reserved(spec.policy, Step(spec, st, e), run)
  {
    var next := Step(spec, st, e);
    forall o, x | Holder(MayBecomeActive, spec.policy, next, o) && x in run && o.slot == x.slot
      ensures o.id == x.id
    {
      HolderComesFrom(spec, st, run, e, o);
      if p :| Holder(MayBecomeActive, spec.policy, st, p) && p.id == o.id && p.slot == o.slot {
      } else {
        assert Instance(o.id, o.slot) in run;
        var i :| 0 <= i < |run| && run[i] == Instance(o.id, o.slot);
        var j :| 0 <= j < |run| && run[j] == x;
      }
    }
  }

  lemma HolderComesFrom(spec: ServiceSpec, st: Loop, run: seq<Instance>, e: Event, o: Observation)
    requires InTime(spec, st, run, e) && Holder(MayBecomeActive, spec.policy, Step(spec, st, e), o)
    requires e.Reconciled? ==> e.answer.Refused? || Decide(spec, st.registry).NoOp?
    ensures || (exists p :: Holder(MayBecomeActive, spec.policy, st, p) && p.id == o.id && p.slot == o.slot)
            || Instance(o.id, o.slot) in run
  {
    var next := Step(spec, st, e);
    if e.Exited? || e.Probed? {
      var i :| 0 <= i < |next.registry| && next.registry[i] == o;
      assert Holder(MayBecomeActive, spec.policy, st, st.registry[i]);
    } else if o in st.registry {
      assert Holder(MayBecomeActive, spec.policy, st, o);
    }
  }

  /** Runs in which lines come in time are legal: the loop never puts two processes in a slot. */
  lemma {:induction false} InTimeRunsAreLegal(spec: ServiceSpec, events: seq<Event>)
    requires InTimeRun(spec, events)
    ensures LegalFrom(MayBecomeActive, spec, EMPTY, events)
    ensures Reserved(spec.policy, RunLoop(spec, events), LatestRun(spec, events))
    decreases |events|
  {
    if events != [] {
      var m := |events| - 1;
      var st, latest, e := RunLoop(spec, events[..m]), LatestRun(spec, events[..m]), events[m];
      InTimeRunsAreLegal(spec, events[..m]);
      ExclusiveExactlyWhen(MayBecomeActive, spec, events[..m]);
      RunsAreTracked(spec, events[..m]);
      InTimeIsLegal(spec, st, latest, e);
      if e.Reconciled? && e.answer.Accepted? && !Decide(spec, st.registry).NoOp? {
        PassReserves(spec, st, e.answer.launched);
      } else {
        OthersReserve(spec, st, latest, e);
      }
    }
  }

  lemma InTimeIsLegal(spec: ServiceSpec, st: Loop, latest: seq<Instance>, e: Event)
    requires Tracked(spec, st) && Reserved(spec.policy, st, latest) && InTime(spec, st, latest, e)
    ensures Legal(MayBecomeActive, spec, st, e)
  {
    if e.Exited? {
      assert forall o, o' :: Revives(MayBecomeActive, spec.policy, st, e.id, o, o') ==> !o.exited;
    }
  }
}
