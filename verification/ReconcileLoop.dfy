/**
 The reconciler in its closed loop: decide, purge, dispatch, and the agent's slot
 fan-out, interleaved with exits, health probes and log lines.

 Instances are numbered by a counter in place of random ids. A dispatch that the
 controller sends is recorded at once under slot 0 and the controller's own id;
 every other instance the agent launches comes on record with its first log line.
 */
module ReconcileLoop {
  import opened Options
  import opened SortedSets
  import opened Reconcile

  /** A launched process: its instance id and replica slot. */
  datatype Instance = Instance(id: nat, slot: u32)

  // ------------------------------------------------------------ the agent's fan-out

  /** An empty list of slot indices means the classic fan-out 0..replicas. */
  function AgentSlots(replicas: u32, slotIndices: seq<u32>): seq<u32> {
    if slotIndices != [] then slotIndices
    else seq(if replicas < 1 then 1 else replicas, i => i)
  }

  /** The `i`-th instance of a fan-out: slot 0 of the classic one reuses the
      controller's id, every other gets an id of its own. */
  function AgentInstance(controllerId: nat, replicas: u32, slotIndices: seq<u32>, i: nat): Instance
    requires i < |AgentSlots(replicas, slotIndices)|
  {
    var slot := AgentSlots(replicas, slotIndices)[i];
    Instance(if slotIndices == [] && slot == 0 then controllerId else controllerId + 1 + i, slot)
  }

  /** The instances running after the agent launched the first `k` slots. */
  function AgentInstances(controllerId: nat, replicas: u32, slotIndices: seq<u32>, k: nat): seq<Instance> {
    var n := |AgentSlots(replicas, slotIndices)|;
    seq(if k < n then k else n, i requires 0 <= i < n => AgentInstance(controllerId, replicas, slotIndices, i))
  }

  /** The agent's loop; it stops at the first launch that fails, after `k` successes. */
  method LaunchSlots(controllerId: nat, replicas: u32, slotIndices: seq<u32>, k: nat) returns (run: seq<Instance>)
    ensures run == AgentInstances(controllerId, replicas, slotIndices, k)
  {
    var partial := slotIndices != [];
    var slots := AgentSlots(replicas, slotIndices);
    run := [];
    for i := 0 to |slots|
      invariant run == AgentInstances(controllerId, replicas, slotIndices, if k < i then k else i)
    {
      if i >= k {
        return;
      }
      var id := if !partial && slots[i] == 0 then controllerId else controllerId + 1 + i;
      run := run + [Instance(id, slots[i])];
    }
  }

  lemma AgentInstancesDistinct(controllerId: nat, replicas: u32, slotIndices: seq<u32>, k: nat)
    requires Ascending(slotIndices)
    ensures var run := AgentInstances(controllerId, replicas, slotIndices, k);
            && (forall i, j :: 0 <= i < j < |run| ==> run[i].id != run[j].id && run[i].slot != run[j].slot)
            && (forall x :: x in run ==> controllerId <= x.id <= controllerId + |AgentSlots(replicas, slotIndices)|)
            && (slotIndices != [] ==> forall x :: x in run ==> x.id != controllerId)
            && (slotIndices == [] && run != [] ==> run[0] == Instance(controllerId, 0))
  {
  }

  // ------------------------------------------------------------ the loop's state and events

  /** The records of the service, the next free id, and every process ever launched. */
  datatype Loop = Loop(registry: seq<Observation>, nextId: nat, launched: set<Instance>)

  /** The fate of a dispatch: not sent, or sent and `launched` slots started. */
  datatype Answer = Refused | Accepted(launched: nat)

  /** A line arrives with the health that probes have already reported. */
  datatype Event =
    | Reconciled(answer: Answer)
    | Exited(id: nat, code: int)
    | Probed(id: nat, unhealthy: bool)
    | Line(instance: Instance, unhealthy: bool)

  const EMPTY := Loop([], 0, {})

  function Live(x: Instance): Observation {
    Observation(x.id, x.slot, false, None, false)
  }

  function FirstSeen(x: Instance, unhealthy: bool): Observation {
    Live(x).(unhealthy := unhealthy)
  }

  function Purged(obs: seq<Observation>, ids: seq<nat>): (r: seq<Observation>)
    ensures forall o :: o in r <==> o in obs && o.id !in ids
  {
    if obs == [] then []
    else
      var m := |obs| - 1;
      assert forall o :: o in obs <==> o in obs[..m] || o == obs[m];
      Purged(obs[..m], ids) + (if obs[m].id in ids then [] else [obs[m]])
  }

  function Indices(a: Action): seq<u32> {
    if a.DispatchPartial? then a.slots else []
  }

  /** The processes a pass launches when the agent gets through `k` slots. */
  function RunOf(spec: ServiceSpec, st: Loop, k: nat): seq<Instance> {
    var a := Decide(spec, st.registry);
    if a.NoOp? then [] else AgentInstances(st.nextId, Desired(spec), Indices(a), k)
  }

  /** Purge, dispatch, record slot 0 under the controller's id. */
  function ReconcileStep(spec: ServiceSpec, st: Loop, answer: Answer): Loop {
    var a := Decide(spec, st.registry);
    if a.NoOp? then st
    else
      var kept := Purged(st.registry, a.purge);
      match answer
      case Refused => st.(registry := kept)
      case Accepted(k) =>
        Loop(
          kept + [Live(Instance(st.nextId, 0))],
          st.nextId + 1 + |AgentSlots(Desired(spec), Indices(a))|,
          st.launched + (set x | x in RunOf(spec, st, k)))
  }

  function AfterExit(o: Observation, code: int): Observation {
    o.(exited := true, exitCode := Some(code), unhealthy := false)
  }

  function AfterProbe(o: Observation, unhealthy: bool): Observation {
    if o.exited then o else o.(unhealthy := unhealthy)
  }

  /** Rewrite the record with this id. */
  function Marked(st: Loop, id: nat, f: Observation -> Observation): Loop {
    st.(registry := seq(|st.registry|, i requires 0 <= i < |st.registry| =>
        if st.registry[i].id == id then f(st.registry[i]) else st.registry[i]))
  }

  predicate Listed(st: Loop, id: nat) {
    exists o :: o in st.registry && o.id == id
  }

  /** Some process was launched under this id. */
  predicate Ran(st: Loop, id: nat) {
    exists x :: x in st.launched && x.id == id
  }

  /** The line is the first of a process that is not on record. */
  predicate IsNew(st: Loop, x: Instance) {
    x in st.launched && !Listed(st, x.id)
  }

  /** One event. Exits, probes and lines come from processes; an exit or a probe of a process
      that is not on record is lost, a line puts it on record. */
  function Step(spec: ServiceSpec, st: Loop, e: Event): Loop {
    match e
    case Reconciled(answer) => ReconcileStep(spec, st, answer)
    case Exited(id, code) => if Ran(st, id) then Marked(st, id, o => AfterExit(o, code)) else st
    case Probed(id, bad) => if Ran(st, id) then Marked(st, id, o => AfterProbe(o, bad)) else st
    case Line(x, bad) => if IsNew(st, x) then st.(registry := st.registry + [FirstSeen(x, bad)]) else st
  }

  /** The loop after `events`, from state `st`. */
  function StepsFrom(spec: ServiceSpec, st: Loop, events: seq<Event>): Loop {
    if events == [] then st
    else Step(spec, StepsFrom(spec, st, events[..|events| - 1]), events[|events| - 1])
  }

  function RunLoop(spec: ServiceSpec, events: seq<Event>): Loop {
    StepsFrom(spec, EMPTY, events)
  }

  lemma StepsAppend(spec: ServiceSpec, st: Loop, events: seq<Event>, e: Event)
    ensures StepsFrom(spec, st, events + [e]) == Step(spec, StepsFrom(spec, st, events), e)
  {
    assert (events + [e])[..|events|] == events;
  }

  lemma {:induction false} StepsSplit(spec: ServiceSpec, st: Loop, first: seq<Event>, rest: seq<Event>)
    ensures StepsFrom(spec, st, first + rest) == StepsFrom(spec, StepsFrom(spec, st, first), rest)
    decreases |rest|
  {
    if rest == [] {
      assert first + rest == first;
    } else {
      var m := |rest| - 1;
      assert (first + rest)[..|first + rest| - 1] == first + rest[..m];
      StepsSplit(spec, st, first, rest[..m]);
    }
  }

  class ServiceReconciler {
    var registry: seq<Observation>
    var nextId: nat
    ghost var launched: set<Instance>

    ghost function State(): Loop
      reads this
    {
      Loop(registry, nextId, launched)
    }

    constructor ()
      ensures State() == EMPTY
    {
      registry, nextId, launched := [], 0, {};
    }

    /** One reconciliation pass over the service. `answer` is what becomes of the dispatch. */
    method ReconcileOnce(spec: ServiceSpec, answer: Answer)
      modifies this
      ensures State() == ReconcileStep(spec, old(State()), answer)
    {
      var action := DecideReconcile(spec, registry);
      if action.NoOp? {
        return;
      }
      PurgeIds(action.purge);
      if answer.Accepted? {
        RecordLaunch(Desired(spec), Indices(action), answer.launched);
      }
    }

    /** The agent launches slots; the controller records slot 0 under its own id. */
    method RecordLaunch(replicas: u32, slotIndices: seq<u32>, k: nat)
      modifies this
      ensures registry == old(registry) + [Live(Instance(old(nextId), 0))]
      ensures nextId == old(nextId) + 1 + |AgentSlots(replicas, slotIndices)|
      ensures launched == old(launched) + (set x | x in AgentInstances(old(nextId), replicas, slotIndices, k))
    {
      var run := LaunchSlots(nextId, replicas, slotIndices, k);
      launched := launched + (set x | x in run);
      registry := registry + [Live(Instance(nextId, 0))];
      nextId := nextId + 1 + |AgentSlots(replicas, slotIndices)|;
    }

    /** The exit of a process: overwrites what is on record, if anything is. */
    method RecordExit(id: nat, code: int)
      requires Ran(State(), id)
      modifies this`registry
      ensures forall spec :: State() == Step(spec, old(State()), Exited(id, code))
    {
      var marked := [];
      for i := 0 to |registry|
        invariant registry == old(registry) && |marked| == i
        invariant forall j :: 0 <= j < i ==>
                    marked[j] == if registry[j].id == id then AfterExit(registry[j], code) else registry[j]
      {
        var o := registry[i];
        if o.id == id {
          o := o.(exited := true, exitCode := Some(code), unhealthy := false);
        }
        marked := marked + [o];
      }
      registry := marked;
    }

    /** A log line: a process that is not on record is put there. */
    method NoteLine(x: Instance, unhealthy: bool)
      requires x in launched
      modifies this`registry
      ensures forall spec :: State() == Step(spec, old(State()), Line(x, unhealthy))
    {
      var found := false;
      for i := 0 to |registry|
        invariant found <==> exists j :: 0 <= j < i && registry[j].id == x.id
        invariant registry == old(registry)
      {
        if registry[i].id == x.id {
          found := true;
        }
      }
      assert found <==> Listed(old(State()), x.id);
      if !found {
        registry := registry + [Observation(x.id, x.slot, false, None, unhealthy)];
      }
    }

    method PurgeIds(ids: seq<nat>)
      modifies this`registry
      ensures registry == Purged(old(registry), ids)
    {
      var kept := [];
      for i := 0 to |registry|
        invariant registry == old(registry)
        invariant kept == Purged(registry[..i], ids)
      {
        assert registry[..i + 1][..i] == registry[..i];
        if registry[i].id !in ids {
          kept := kept + [registry[i]];
        }
      }
      assert registry[..|registry|] == registry;
      registry := kept;
    }
  }
}
