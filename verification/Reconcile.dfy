/**
 The reconciler's decision: from a service specification and the observed
 instances of that service, what to launch and what to purge.
 */
module Reconcile {
  import opened Options
  import opened SortedSets

  datatype RestartPolicy = Always | OnFailure | Never

  datatype ServiceSpec = ServiceSpec(replicas: Option<u32>, policy: RestartPolicy)

  /** One observed instance. `slot` is its replica index. */
  datatype Observation = Observation(id: nat, slot: u32, exited: bool, exitCode: Option<int>, unhealthy: bool)

  datatype Action =
    | NoOp
    | RedispatchAll(replicas: u32, purge: seq<nat>)
    | DispatchPartial(slots: seq<u32>, purge: seq<nat>)

  function Desired(spec: ServiceSpec): u32 {
    var r := if spec.replicas.Some? then spec.replicas.value else 1;
    if r < 1 then 1 else r
  }

  predicate Alive(o: Observation) {
    !o.exited && !o.unhealthy
  }

  /** A dead or unhealthy instance that the policy replaces. An unhealthy one counts
      as a failure; an exit without a code counts as a success. */
  predicate WantsRestart(policy: RestartPolicy, o: Observation) {
    && !Alive(o)
    && match policy
       case Always => true
       case OnFailure => !o.exited || (o.exitCode.Some? && o.exitCode.value != 0)
       case Never => false
  }

  /** A dead or unhealthy instance that the policy leaves alone. */
  predicate Ended(policy: RestartPolicy, o: Observation) {
    !Alive(o) && !WantsRestart(policy, o)
  }

  function AliveSlots(obs: seq<Observation>): set<u32> {
    set o | o in obs && Alive(o) :: o.slot
  }

  function RestartSlots(policy: RestartPolicy, obs: seq<Observation>): set<u32> {
    set o | o in obs && WantsRestart(policy, o) :: o.slot
  }

  function EndedSlots(policy: RestartPolicy, obs: seq<Observation>): set<u32> {
    set o | o in obs && Ended(policy, o) :: o.slot
  }

  function SeenSlots(obs: seq<Observation>): set<u32> {
    set o | o in obs :: o.slot
  }

  /** The slots below `n` that `seen` lacks. */
  function MissingBelow(n: u32, seen: set<u32>): set<u32> {
    set i: u32 | 0 <= i < n && i !in seen
  }

  function Missing(spec: ServiceSpec, obs: seq<Observation>): set<u32> {
    MissingBelow(Desired(spec), SeenSlots(obs))
  }

  /** The ids of the instances to replace, in observation order. */
  function RestartIds(policy: RestartPolicy, obs: seq<Observation>): (ids: seq<nat>)
    ensures forall id :: id in ids <==> exists o :: o in obs && WantsRestart(policy, o) && o.id == id
  {
    if obs == [] then []
    else
      var m := |obs| - 1;
      assert forall o :: o in obs <==> o in obs[..m] || o == obs[m];
      RestartIds(policy, obs[..m]) + (if WantsRestart(policy, obs[m]) then [obs[m].id] else [])
  }

  function SortedSlots(s: set<u32>): (r: seq<u32>)
    ensures Ascending(r)
    ensures forall x :: x in r <==> x in s
    ensures |r| == |s|
  {
    var r := Sorted(s);
    assert forall i :: 0 <= i < |r| ==> r[i] in r;
    r
  }

  function Decide(spec: ServiceSpec, obs: seq<Observation>): Action {
    var missing, restart := Missing(spec, obs), RestartSlots(spec.policy, obs);
    if missing == {} && restart == {} then NoOp
    else if AliveSlots(obs) == {} && |EndedSlots(spec.policy, obs)| < Desired(spec) then
      RedispatchAll(Desired(spec), RestartIds(spec.policy, obs))
    else
      DispatchPartial(SortedSlots(missing + restart), RestartIds(spec.policy, obs))
  }

  /** The decision as the controller computes it: one pass over the observations,
      then one over the slots. */
  method DecideReconcile(spec: ServiceSpec, instances: seq<Observation>) returns (r: Action)
    ensures r == Decide(spec, instances)
  {
    var desired := Desired(spec);
    var alive, ended, restart, purge := Classify(spec.policy, instances);
    EverySlotIsClassified(spec.policy, instances);
    var missing := MissingSlots(desired, alive, ended, restart);
    assert SlotSet(missing) == Missing(spec, instances);
    var toLaunch := |missing| + |restart|;
    assert toLaunch == 0 <==> Missing(spec, instances) == {} && restart == {};
    if toLaunch == 0 {
      return NoOp;
    }
    if |alive| == 0 && |ended| < desired {
      return RedispatchAll(desired, purge);
    }
    r := DispatchPartial(SortedSlots(SlotSet(missing) + restart), purge);
  }

  function SlotSet(s: seq<u32>): set<u32> {
    set x | x in s
  }

  /** Alive, ended and to-be-replaced instances together occupy every seen slot. */
  lemma EverySlotIsClassified(policy: RestartPolicy, obs: seq<Observation>)
    ensures SeenSlots(obs) == AliveSlots(obs) + EndedSlots(policy, obs) + RestartSlots(policy, obs)
  {
  }

  lemma OneMore(policy: RestartPolicy, obs: seq<Observation>, i: nat)
    requires i < |obs|
    ensures AliveSlots(obs[..i + 1]) == AliveSlots(obs[..i]) + (if Alive(obs[i]) then {obs[i].slot} else {})
    ensures RestartSlots(policy, obs[..i + 1])
         == RestartSlots(policy, obs[..i]) + (if WantsRestart(policy, obs[i]) then {obs[i].slot} else {})
    ensures EndedSlots(policy, obs[..i + 1])
         == EndedSlots(policy, obs[..i]) + (if Ended(policy, obs[i]) then {obs[i].slot} else {})
    ensures RestartIds(policy, obs[..i + 1])
         == RestartIds(policy, obs[..i]) + (if WantsRestart(policy, obs[i]) then [obs[i].id] else [])
  {
    assert obs[..i + 1] == obs[..i] + [obs[i]];
    assert forall x :: x in obs[..i + 1] <==> x in obs[..i] || x == obs[i];
  }

  method Classify(policy: RestartPolicy, instances: seq<Observation>)
    returns (alive: set<u32>, ended: set<u32>, restart: set<u32>, purge: seq<nat>)
    ensures alive == AliveSlots(instances)
    ensures ended == EndedSlots(policy, instances)
    ensures restart == RestartSlots(policy, instances)
    ensures purge == RestartIds(policy, instances)
  {
    alive, ended, restart, purge := {}, {}, {}, [];
    for i := 0 to |instances|
      invariant alive == AliveSlots(instances[..i])
      invariant ended == EndedSlots(policy, instances[..i])
      invariant restart == RestartSlots(policy, instances[..i])
      invariant purge == RestartIds(policy, instances[..i])
    {
      var o := instances[i];
      OneMore(policy, instances, i);
      if !o.exited && !o.unhealthy {
        alive := alive + {o.slot};
      } else {
        var code := if o.exited then (if o.exitCode.Some? then o.exitCode.value else 0) else 1;
        var again := policy == Always || (policy == OnFailure && code != 0);
        if again {
          purge := purge + [o.id];
          restart := restart + {o.slot};
        } else {
          ended := ended + {o.slot};
        }
      }
    }
    assert instances[..|instances|] == instances;
  }

  method MissingSlots(desired: u32, alive: set<u32>, ended: set<u32>, restart: set<u32>) returns (missing: seq<u32>)
    ensures Ascending(missing)
    ensures SlotSet(missing) == MissingBelow(desired, alive + ended + restart)
    ensures missing == [] <==> SlotSet(missing) == {}
  {
    missing := [];
    for i := 0 to desired
      invariant forall x :: x in missing <==> x in MissingBelow(i, alive + ended + restart)
      invariant Ascending(missing)
      invariant forall j :: 0 <= j < |missing| ==> missing[j] < i
    {
      if i !in alive && i !in ended && i !in restart {
        missing := missing + [i];
      }
    }
    assert missing != [] ==> missing[0] in SlotSet(missing);
  }
}
