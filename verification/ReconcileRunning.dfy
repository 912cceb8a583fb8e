/**
 What really runs: the processes launched and not exited, against the records the loop
 decides from. When nothing is left to do, every slot is served except a hidden slot 0;
 and slot 0 is lost for good exactly when it is hidden and none of its processes runs.
 */
module ReconcileRunning {
  import opened Options
  import opened SortedSets
  import opened Reconcile
  import opened ReconcileLoop
  import opened ReconcileSafety
  import opened ReconcileNever
  import opened ReconcileLimits

  // ------------------------------------------------------------ what records tell about exits

  /** The ids of the processes that have exited, on record or not. */
  ghost function Exits(spec: ServiceSpec, events: seq<Event>): set<nat> {
    if events == [] then {}
    else
      var m := |events| - 1;
      Exits(spec, events[..m]) + NewExits(RunLoop(spec, events[..m]), events[m])
  }

  ghost function NewExits(st: Loop, e: Event): set<nat> {
    if e.Exited? && Ran(st, e.id) then {e.id} else {}
  }

  /** The ids put on record by a line that came after the exit. */
  ghost function Stale(spec: ServiceSpec, events: seq<Event>): set<nat> {
    if events == [] then {}
    else
      var m := |events| - 1;
      Stale(spec, events[..m]) + NewStale(RunLoop(spec, events[..m]), events[m], Exits(spec, events[..m]))
  }

  ghost function NewStale(st: Loop, e: Event, exits: set<nat>): set<nat> {
    if e.Line? && IsNew(st, e.instance) && e.instance.id in exits then {e.instance.id} else {}
  }

  /** No line comes after the exit of its process. */
  ghost predicate InOrder(spec: ServiceSpec, events: seq<Event>) {
    events != [] ==>
      var m := |events| - 1;
      InOrder(spec, events[..m]) && (events[m].Line? ==> events[m].instance.id !in Exits(spec, events[..m]))
  }

  /** A record of a process shows its exit, unless a line after the exit put it there. */
  ghost predicate ExitsShown(st: Loop, exits: set<nat>, stale: set<nat>) {
    && (forall id :: id in exits ==> id < st.nextId)
    && stale <= exits
    && (forall o :: o in st.registry && HasProcess(st, o) ==>
          (o.exited ==> o.id in exits) && (o.id in exits ==> o.exited || o.id in stale))
  }

  lemma PassShowsExits(spec: ServiceSpec, st: Loop, answer: Answer, exits: set<nat>, stale: set<nat>)
    requires Tracked(spec, st) && ExitsShown(st, exits, stale)
    ensures ExitsShown(ReconcileStep(spec, st, answer), exits, stale)
  {
    var a := Decide(spec, st.registry);
    if !a.NoOp? && answer.Accepted? {
      var next := ReconcileStep(spec, st, answer);
      PassRunIsFresh(spec, st, answer.launched);
      forall o | o in Purged(st.registry, a.purge)
        ensures HasProcess(next, o) <==> HasProcess(st, o)
      {
        assert RecordOk(spec, st, o);
        LaunchKeepsRecords(spec, st, next, RunOf(spec, st, answer.launched), o);
      }
    }
  }

  lemma ExitIsShown(spec: ServiceSpec, st: Loop, id: nat, code: int, exits: set<nat>, stale: set<nat>)
    requires Tracked(spec, st) && ExitsShown(st, exits, stale) && Ran(st, id)
    ensures ExitsShown(Step(spec, st, Exited(id, code)), exits + {id}, stale)
  {
    var next := Step(spec, st, Exited(id, code));
    forall o | o in next.registry && HasProcess(next, o)
      ensures (o.exited ==> o.id in exits + {id}) && (o.id in exits + {id} ==> o.exited || o.id in stale)
    {
      var i :| 0 <= i < |next.registry| && next.registry[i] == o;
      assert st.registry[i] in st.registry && HasProcess(st, st.registry[i]);
    }
  }

  lemma ProbeShowsExits(spec: ServiceSpec, st: Loop, id: nat, bad: bool, exits: set<nat>, stale: set<nat>)
    requires ExitsShown(st, exits, stale)
    ensures ExitsShown(Step(spec, st, Probed(id, bad)), exits, stale)
  {
    if Ran(st, id) {
      var next := Step(spec, st, Probed(id, bad));
      forall o | o in next.registry && HasProcess(next, o)
        ensures (o.exited ==> o.id in exits) && (o.id in exits ==> o.exited || o.id in stale)
      {
        var i :| 0 <= i < |next.registry| && next.registry[i] == o;
        assert st.registry[i] in st.registry && HasProcess(st, st.registry[i]);
      }
    }
  }

  lemma StepShowsExits(spec: ServiceSpec, st: Loop, e: Event, exits: set<nat>, stale: set<nat>)
    requires Tracked(spec, st) && ExitsShown(st, exits, stale)
    ensures ExitsShown(Step(spec, st, e), exits + NewExits(st, e), stale + NewStale(st, e, exits))
  {
    match e
    case Reconciled(answer) =>
      PassShowsExits(spec, st, answer, exits, stale);
      assert exits + {} == exits && stale + {} == stale;
    case Exited(id, code) =>
      assert stale + {} == stale;
      if Ran(st, id) {
        ExitIsShown(spec, st, id, code, exits, stale);
      } else {
        assert exits + {} == exits;
      }
    case Probed(id, bad) =>
      ProbeShowsExits(spec, st, id, bad, exits, stale);
      assert exits + {} == exits && stale + {} == stale;
    case Line(x, bad) =>
      assert exits + {} == exits;
      LineShowsExits(spec, st, x, bad, exits, stale);
  }

  lemma LineShowsExits(spec: ServiceSpec, st: Loop, x: Instance, bad: bool, exits: set<nat>, stale: set<nat>)
    requires ExitsShown(st, exits, stale)
    ensures ExitsShown(Step(spec, st, Line(x, bad)), exits, stale + NewStale(st, Line(x, bad), exits))
  {
    if !IsNew(st, x) {
      assert stale + {} == stale;
    }
  }

  /** In every run the records of processes show exits as far as lines come in order. */
  lemma {:induction false} RunsShowExits(spec: ServiceSpec, events: seq<Event>)
    ensures ExitsShown(RunLoop(spec, events), Exits(spec, events), Stale(spec, events))
    ensures InOrder(spec, events) ==> Stale(spec, events) == {}
    decreases |events|
  {
    if events != [] {
      var m := |events| - 1;
      RunsShowExits(spec, events[..m]);
      RunsAreTracked(spec, events[..m]);
      StepShowsExits(
        spec, RunLoop(spec, events[..m]), events[m], Exits(spec, events[..m]), Stale(spec, events[..m]));
    }
  }

  // ------------------------------------------------------------ when nothing is left to do

  /** A process of the slot is on record that runs, or that ended in a way the policy accepts. */
  ghost predicate Served(spec: ServiceSpec, events: seq<Event>, slot: u32) {
    var st := RunLoop(spec, events);
    exists o :: o in st.registry && o.slot == slot && HasProcess(st, o)
                && (o.id !in Exits(spec, events) || (o.exited && !WantsRestart(spec.policy, o)))
  }

  /** A process of the slot is on record that runs. */
  ghost predicate RunsOnRecord(spec: ServiceSpec, events: seq<Event>, slot: u32) {
    var st := RunLoop(spec, events);
    exists o :: o in st.registry && o.slot == slot && HasProcess(st, o) && o.id !in Exits(spec, events)
  }

  lemma NoOpMeans(spec: ServiceSpec, obs: seq<Observation>)
    requires Decide(spec, obs) == NoOp
    ensures forall o :: o in obs ==> !WantsRestart(spec.policy, o)
    ensures forall slot: u32 :: slot < Desired(spec) ==> slot in SeenSlots(obs)
  {
    assert RestartSlots(spec.policy, obs) == {} && Missing(spec, obs) == {};
    forall o | o in obs
      ensures !WantsRestart(spec.policy, o)
    {
      assert WantsRestart(spec.policy, o) ==> o.slot in RestartSlots(spec.policy, obs);
    }
    forall slot: u32 | slot < Desired(spec)
      ensures slot in SeenSlots(obs)
    {
      assert slot !in Missing(spec, obs);
    }
  }

  /** At a no-op a slot is served exactly when it has a record of a process that shows an exit
      or was not put there by a line after the exit. */
  lemma ServedExactlyWhen(spec: ServiceSpec, events: seq<Event>, slot: u32)
    requires Decide(spec, RunLoop(spec, events).registry) == NoOp
    ensures var st := RunLoop(spec, events);
            Served(spec, events, slot)
            <==> exists o :: o in st.registry && o.slot == slot && HasProcess(st, o)
                             && (o.exited || o.id !in Stale(spec, events))
  {
    var st := RunLoop(spec, events);
    RunsShowExits(spec, events);
    NoOpMeans(spec, st.registry);
  }

  /** With lines in order: at a no-op every slot is served, except slot 0 when it is hidden.
      Under `Always` served means that a process of the slot runs. */
  lemma NoOpServesExactlyWhen(spec: ServiceSpec, events: seq<Event>, slot: u32)
    requires InOrder(spec, events) && Decide(spec, RunLoop(spec, events).registry) == NoOp && slot < Desired(spec)
    ensures Served(spec, events, slot) <==> !(slot == 0 && Hidden(RunLoop(spec, events)))
    ensures spec.policy == Always ==>
              (RunsOnRecord(spec, events, slot) <==> !(slot == 0 && Hidden(RunLoop(spec, events))))
  {
    var st := RunLoop(spec, events);
    RunsShowExits(spec, events);
    RunsAreTracked(spec, events);
    NoOpMeans(spec, st.registry);
    ServedExactlyWhen(spec, events, slot);
    ProcessInSlot(spec, st, slot);
    assert spec.policy == Always ==> forall o :: o in st.registry ==> !o.exited;
  }

  lemma ProcessInSlot(spec: ServiceSpec, st: Loop, slot: u32)
    requires Tracked(spec, st) && slot in SeenSlots(st.registry)
    ensures (exists o :: o in st.registry && o.slot == slot && HasProcess(st, o)) <==> !(slot == 0 && Hidden(st))
  {
    var seen :| seen in st.registry && seen.slot == slot;
    assert forall o :: o in st.registry ==> RecordOk(spec, st, o);
    assert forall o :: o in st.registry && HasProcess(st, o) ==> !NoProcess(st, o);
  }

  // ------------------------------------------------------------ slot 0 lost for good

  /** Every process launched for slot 0 has exited. */
  ghost predicate AllEnded(st: Loop, exits: set<nat>) {
    forall x :: x in SlotZero(st.launched) ==> x.id in exits
  }

  /** Slot 0 is hidden and none of its processes runs. */
  ghost predicate Lost(spec: ServiceSpec, events: seq<Event>) {
    Hidden(RunLoop(spec, events)) && AllEnded(RunLoop(spec, events), Exits(spec, events))
  }

  /** In the continuation, if its lines come in order, slot 0 stays hidden and is not launched. */
  ghost predicate StaysLost(spec: ServiceSpec, events: seq<Event>, more: seq<Event>) {
    InOrder(spec, events + more) ==>
      && Hidden(RunLoop(spec, events + more))
      && SlotZero(RunLoop(spec, events + more).launched) == SlotZero(RunLoop(spec, events).launched)
  }

  lemma OneMore(events: seq<Event>, more: seq<Event>)
    requires more != []
    ensures var all, m := events + more, |more| - 1;
            all != [] && all[..|all| - 1] == events + more[..m] && all[|all| - 1] == more[m]
  {
  }

  /** Exits are not forgotten, so in order no line comes from a process that had exited. */
  lemma {:induction false} NoLineOfEnded(spec: ServiceSpec, events: seq<Event>, more: seq<Event>, xs: set<Instance>)
    requires InOrder(spec, events + more) && forall x :: x in xs ==> x.id in Exits(spec, events)
    ensures NoLineOf(more, xs) && Exits(spec, events) <= Exits(spec, events + more)
    decreases |more|
  {
    if more == [] {
      assert events + more == events;
    } else {
      OneMore(events, more);
      NoLineOfEnded(spec, events, more[..|more| - 1], xs);
      NoLineUpTo(more, xs);
    }
  }

  lemma LostStays(spec: ServiceSpec, events: seq<Event>, more: seq<Event>)
    requires Lost(spec, events)
    ensures StaysLost(spec, events, more)
  {
    if InOrder(spec, events + more) {
      var st := RunLoop(spec, events);
      RunsAreTracked(spec, events);
      NoLineOfEnded(spec, events, more, SlotZero(st.launched));
      HiddenExactlyUntil(spec, st, more);
      StepsSplit(spec, EMPTY, events, more);
    }
  }

  /** A hidden slot 0 is lost for good, that is, no continuation with lines in order shows or
      launches it again, exactly when every process ever launched for it has exited. */
  lemma LostForGoodExactlyWhen(spec: ServiceSpec, events: seq<Event>)
    requires InOrder(spec, events) && Hidden(RunLoop(spec, events))
    ensures Lost(spec, events) <==> forall more :: StaysLost(spec, events, more)
  {
    if Lost(spec, events) {
      forall more
        ensures StaysLost(spec, events, more)
      {
        LostStays(spec, events, more);
      }
    } else {
      var x :| x in SlotZero(RunLoop(spec, events).launched) && x.id !in Exits(spec, events);
      LineBringsBack(spec, events, x);
    }
  }

  lemma LineBringsBack(spec: ServiceSpec, events: seq<Event>, x: Instance)
    requires InOrder(spec, events) && Hidden(RunLoop(spec, events))
    requires x in SlotZero(RunLoop(spec, events).launched) && x.id !in Exits(spec, events)
    ensures !StaysLost(spec, events, [Line(x, false)])
  {
    var all := events + [Line(x, false)];
    assert all[..|all| - 1] == events;
    RunsAreTracked(spec, events);
    LineUncovers(spec, RunLoop(spec, events), x, false);
    StepsAppend(spec, EMPTY, events, Line(x, false));
    assert InOrder(spec, all);
  }

  // ------------------------------------------------------------ how slot 0 gets lost

  /** The event loses slot 0: a pass that is refused or launches nothing, while every process
      of slot 0 has ended and those on record are to be replaced; or the exit of the last
      process of a hidden slot 0. */
  ghost predicate Loses(spec: ServiceSpec, st: Loop, exits: set<nat>, e: Event) {
    match e
    case Reconciled(answer) =>
      && !Decide(spec, st.registry).NoOp? && AllToReplace(spec, st) && AllEnded(st, exits)
      && (match answer
          case Refused => exists o :: o in st.registry && NoProcess(st, o)
          case Accepted(k) => k == 0)
    case Exited(id, _) => Hidden(st) && Ran(st, id) && AllEnded(st, exits + {id})
    case _ => false
  }

  ghost predicate LostIn(st: Loop, exits: set<nat>) {
    Hidden(st) && AllEnded(st, exits)
  }

  lemma PassLosesExactlyWhen(spec: ServiceSpec, st: Loop, exits: set<nat>, answer: Answer)
    requires Tracked(spec, st) && !LostIn(st, exits) && forall id :: id in exits ==> id < st.nextId
    ensures LostIn(ReconcileStep(spec, st, answer), exits) <==> Loses(spec, st, exits, Reconciled(answer))
  {
    if !Decide(spec, st.registry).NoOp? {
      var next := ReconcileStep(spec, st, answer);
      OnlyDispatchesLaunch(spec, st, Reconciled(answer));
      assert AllEnded(next, exits) ==> AllEnded(st, exits) by {
        assert SlotZero(st.launched) <= SlotZero(next.launched);
      }
      match answer
      case Refused => RefusalLosesExactlyWhen(spec, st);
      case Accepted(k) =>
        HiddenAfterPass(spec, st, k);
        DispatchLosesExactlyWhen(spec, st, k);
        if AllEnded(next, exits) {
          NothingNew(spec, st, exits, k);
        }
    }
  }

  /** A process just launched has not exited. */
  lemma NothingNew(spec: ServiceSpec, st: Loop, exits: set<nat>, k: nat)
    requires Tracked(spec, st) && !Decide(spec, st.registry).NoOp? && forall id :: id in exits ==> id < st.nextId
    requires AllEnded(ReconcileStep(spec, st, Accepted(k)), exits)
    ensures SlotZero(ReconcileStep(spec, st, Accepted(k)).launched) == SlotZero(st.launched)
  {
    PassRunIsFresh(spec, st, k);
    var next := ReconcileStep(spec, st, Accepted(k));
    forall x | x in SlotZero(next.launched)
      ensures x in SlotZero(st.launched)
    {
      assert x.id in exits;
    }
  }

  /** Exits, probes and lines of a slot 0 that is not hidden do not hide it. */
  lemma ShownStaysShown(spec: ServiceSpec, st: Loop, e: Event)
    requires Tracked(spec, st) && !Hidden(st) && !e.Reconciled?
    ensures !Hidden(Step(spec, st, e))
  {
    var next := Step(spec, st, e);
    if o :| o in st.registry && o.slot == 0 {
      var p :| p in st.registry && p.slot == 0 && !NoProcess(st, p);
      var i :| 0 <= i < |st.registry| && st.registry[i] == p;
      assert next.registry[i] in next.registry && next.registry[i].id == p.id && next.registry[i].slot == 0;
      assert !NoProcess(next, next.registry[i]);
    } else {
      NoRecordNotHidden(spec, st, e);
    }
  }

  lemma NoRecordNotHidden(spec: ServiceSpec, st: Loop, e: Event)
    requires (forall o :: o in st.registry ==> o.slot != 0) && !e.Reconciled?
    ensures !Hidden(Step(spec, st, e))
  {
    var next := Step(spec, st, e);
    assert forall i :: 0 <= i < |st.registry| ==> st.registry[i].slot != 0;
    if e.Line? {
      forall o | o in next.registry && o.slot == 0
        ensures !NoProcess(next, o)
      {
        assert o == FirstSeen(e.instance, e.unhealthy);
      }
    } else {
      assert forall i :: 0 <= i < |next.registry| ==> next.registry[i].slot == st.registry[i].slot;
    }
  }

  lemma StepLosesExactlyWhen(spec: ServiceSpec, st: Loop, exits: set<nat>, e: Event)
    requires Tracked(spec, st) && !LostIn(st, exits) && forall id :: id in exits ==> id < st.nextId
    ensures LostIn(Step(spec, st, e), exits + NewExits(st, e)) <==> Loses(spec, st, exits, e)
  {
    assert exits + {} == exits;
    if e.Reconciled? {
      PassLosesExactlyWhen(spec, st, exits, e.answer);
    } else {
      OnlyDispatchesLaunch(spec, st, e);
      if Hidden(st) {
        HiddenStep(spec, st, e);
      } else {
        ShownStaysShown(spec, st, e);
      }
    }
  }

  /** In every run: slot 0 gets lost by an event exactly when that is a pass that is refused, or
      launches nothing, with all its processes ended, or the exit of the last process of a
      hidden slot 0. */
  lemma GetsLostExactlyWhen(spec: ServiceSpec, events: seq<Event>, e: Event)
    requires !Lost(spec, events)
    ensures Lost(spec, events + [e]) <==> Loses(spec, RunLoop(spec, events), Exits(spec, events), e)
  {
    RunsAreTracked(spec, events);
    RunsShowExits(spec, events);
    StepsAppend(spec, EMPTY, events, e);
    assert (events + [e])[..|events|] == events;
    StepLosesExactlyWhen(spec, RunLoop(spec, events), Exits(spec, events), e);
  }

  // ------------------------------------------------------------ a process that never speaks

  lemma ExitsAppend(spec: ServiceSpec, events: seq<Event>, e: Event)
    ensures Exits(spec, events + [e]) == Exits(spec, events) + NewExits(RunLoop(spec, events), e)
  {
    assert (events + [e])[..|events|] == events;
  }

  /** A partial dispatch for slot 0 hides it until the new process speaks. */
  lemma PartialHides(spec: ServiceSpec, st: Loop, exits: set<nat>, k: nat)
    requires Tracked(spec, st) && forall id :: id in exits ==> id < st.nextId
    requires Decide(spec, st.registry).DispatchPartial? && k > 0
    requires AllToReplace(spec, st) && !Hidden(st) && AllEnded(st, exits)
    ensures Awaits(ReconcileStep(spec, st, Accepted(k)), exits, st.nextId + 1)
  {
    SlotZeroComesFirst(spec, st, k);
    FirstIdOfPartial(spec, st, k);
    HiddenAfterPass(spec, st, k);
    OneNewProcess(spec, st, k);
    AwaitsNew(st, ReconcileStep(spec, st, Accepted(k)), exits, RunOf(spec, st, k)[0]);
  }

  lemma AwaitsNew(st: Loop, next: Loop, exits: set<nat>, x: Instance)
    requires Hidden(next) && SlotZero(next.launched) == SlotZero(st.launched) + {x}
    requires AllEnded(st, exits) && x.id !in exits
    ensures Awaits(next, exits, x.id)
  {
    assert x in SlotZero(next.launched);
  }

  lemma FirstIdOfPartial(spec: ServiceSpec, st: Loop, k: nat)
    requires Decide(spec, st.registry).DispatchPartial? && RunOf(spec, st, k) != []
    ensures RunOf(spec, st, k)[0].id == st.nextId + 1
  {
    PartialNamesItsSlots(spec, st.registry);
  }

  /** Slot 0 is hidden, and process `id` is the only one of it that still runs. */
  ghost predicate Awaits(st: Loop, exits: set<nat>, id: nat) {
    Hidden(st) && Ran(st, id) && !LostIn(st, exits) && AllEnded(st, exits + {id})
  }

  /** The dispatch finds slot 0 shown, with all its processes ended and to be replaced. */
  ghost predicate ReplacesSlotZero(spec: ServiceSpec, st: Loop, exits: set<nat>, k: nat) {
    && Decide(spec, st.registry).DispatchPartial? && k > 0
    && AllToReplace(spec, st) && !Hidden(st) && AllEnded(st, exits)
  }

  lemma SentAwaits(spec: ServiceSpec, events: seq<Event>, k: nat)
    requires ReplacesSlotZero(spec, RunLoop(spec, events), Exits(spec, events), k)
    ensures var sent := events + [Reconciled(Accepted(k))];
            Awaits(RunLoop(spec, sent), Exits(spec, sent), RunLoop(spec, events).nextId + 1)
  {
    RunsAreTracked(spec, events);
    RunsShowExits(spec, events);
    PartialHides(spec, RunLoop(spec, events), Exits(spec, events), k);
    StepsAppend(spec, EMPTY, events, Reconciled(Accepted(k)));
    ExitsAppend(spec, events, Reconciled(Accepted(k)));
  }

  /** If the new process exits without a line, slot 0 is lost, though every dispatch was
      carried out. */
  lemma SilentExitLosesSlotZero(spec: ServiceSpec, events: seq<Event>, k: nat, code: int)
    requires ReplacesSlotZero(spec, RunLoop(spec, events), Exits(spec, events), k)
    ensures var id := RunLoop(spec, events).nextId + 1;
            Lost(spec, events + [Reconciled(Accepted(k))] + [Exited(id, code)])
  {
    SentAwaits(spec, events, k);
    LastExit(spec, events + [Reconciled(Accepted(k))], RunLoop(spec, events).nextId + 1, code);
  }

  lemma LastExit(spec: ServiceSpec, events: seq<Event>, id: nat, code: int)
    requires Awaits(RunLoop(spec, events), Exits(spec, events), id)
    ensures Lost(spec, events + [Exited(id, code)])
  {
    GetsLostExactlyWhen(spec, events, Exited(id, code));
  }

  lemma OneNewProcess(spec: ServiceSpec, st: Loop, k: nat)
    requires Tracked(spec, st) && !Decide(spec, st.registry).NoOp?
    requires RunOf(spec, st, k) != [] && RunOf(spec, st, k)[0].slot == 0
    ensures var x := RunOf(spec, st, k)[0];
            SlotZero(ReconcileStep(spec, st, Accepted(k)).launched) == SlotZero(st.launched) + {x} && x.id >= st.nextId
  {
    PassRunIsFresh(spec, st, k);
    var run := RunOf(spec, st, k);
    assert run[0] in run;
    forall y | y in run && y.slot == 0
      ensures y == run[0]
    {
      var i :| 0 <= i < |run| && run[i] == y;
    }
  }

  /** A run from an empty registry: two replicas are launched and heard from, slot 0 exits and
      is replaced, and the new process exits before its first line. */
  lemma SilentExitRun(spec: ServiceSpec)
    requires spec.policy == Always && Desired(spec) == 2
    ensures var heard := [Reconciled(Accepted(2)), Line(Instance(2, 1), false), Exited(0, 1)];
            Lost(spec, heard + [Reconciled(Accepted(1))] + [Exited(4, 1)])
  {
    var heard := [Reconciled(Accepted(2)), Line(Instance(2, 1), false), Exited(0, 1)];
    ThreeEvents(spec);
    OneDeadOfTwo(spec, RunLoop(spec, heard));
    SilentExitLosesSlotZero(spec, heard, 1, 1);
  }

  lemma OneEvent(spec: ServiceSpec)
    requires Desired(spec) == 2
    ensures var events := [Reconciled(Accepted(2))];
            var st := RunLoop(spec, events);
            && st.registry == [Live(Instance(0, 0))] && st.nextId == 3
            && st.launched == {Instance(0, 0), Instance(2, 1)} && Exits(spec, events) == {}
  {
    var a := Reconciled(Accepted(2));
    FirstDecision(spec);
    StepsAppend(spec, EMPTY, [], a);
    ExitsAppend(spec, [], a);
    assert [] + [a] == [a];
    assert RunOf(spec, EMPTY, 2) == [Instance(0, 0), Instance(2, 1)];
  }

  lemma TwoEvents(spec: ServiceSpec)
    requires Desired(spec) == 2
    ensures var events := [Reconciled(Accepted(2)), Line(Instance(2, 1), false)];
            var st := RunLoop(spec, events);
            && st.registry == [Live(Instance(0, 0)), Live(Instance(2, 1))] && st.nextId == 3
            && st.launched == {Instance(0, 0), Instance(2, 1)} && Exits(spec, events) == {}
  {
    var a, b := Reconciled(Accepted(2)), Line(Instance(2, 1), false);
    OneEvent(spec);
    StepsAppend(spec, EMPTY, [a], b);
    ExitsAppend(spec, [a], b);
    assert [a] + [b] == [a, b];
    assert IsNew(RunLoop(spec, [a]), Instance(2, 1));
  }

  lemma ThreeEvents(spec: ServiceSpec)
    requires Desired(spec) == 2
    ensures var events := [Reconciled(Accepted(2)), Line(Instance(2, 1), false), Exited(0, 1)];
            var st := RunLoop(spec, events);
            && st.registry == [AfterExit(Live(Instance(0, 0)), 1), Live(Instance(2, 1))] && st.nextId == 3
            && st.launched == {Instance(0, 0), Instance(2, 1)} && Exits(spec, events) == {0}
  {
    var a, b, c := Reconciled(Accepted(2)), Line(Instance(2, 1), false), Exited(0, 1);
    TwoEvents(spec);
    var st := RunLoop(spec, [a, b]);
    assert Instance(0, 0) in st.launched;
    assert Ran(st, 0);
    StepsAppend(spec, EMPTY, [a, b], c);
    ExitsAppend(spec, [a, b], c);
    assert [a, b] + [c] == [a, b, c];
  }

  lemma OneDeadOfTwo(spec: ServiceSpec, st: Loop)
    requires spec.policy == Always && Desired(spec) == 2
    requires st.registry == [AfterExit(Live(Instance(0, 0)), 1), Live(Instance(2, 1))]
    requires st.launched == {Instance(0, 0), Instance(2, 1)}
    ensures Decide(spec, st.registry).DispatchPartial?
    ensures AllToReplace(spec, st) && !Hidden(st) && AllEnded(st, {0})
  {
    var dead, other := st.registry[0], st.registry[1];
    assert dead in st.registry && other in st.registry;
    SomeAliveSomeNot(spec, st.registry, dead, other);
    SlotZeroIsDead(spec, st, dead, other);
  }

  lemma SlotZeroIsDead(spec: ServiceSpec, st: Loop, dead: Observation, other: Observation)
    requires st.registry == [dead, other] && dead.id == 0 && dead.slot == 0 && dead.exited && other.slot != 0
    requires st.launched == {Instance(0, 0), Instance(2, 1)}
    ensures spec.policy == Always ==> AllToReplace(spec, st)
    ensures !Hidden(st) && AllEnded(st, {0})
  {
    assert dead in st.registry;
    assert Instance(0, 0) in st.launched;
    assert !NoProcess(st, dead);
    assert forall o :: o in st.registry && o.slot == 0 ==> o == dead;
  }

  lemma SomeAliveSomeNot(spec: ServiceSpec, obs: seq<Observation>, dead: Observation, other: Observation)
    requires dead in obs && other in obs && WantsRestart(spec.policy, dead) && Alive(other)
    ensures Decide(spec, obs).DispatchPartial?
  {
    assert other.slot in AliveSlots(obs) && dead.slot in RestartSlots(spec.policy, obs);
  }
}
