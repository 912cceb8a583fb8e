/**
 Placement in its loop: the loads the scheduler sees come from the instance
 registry, and each dispatch is recorded there on the node it picked.
 */
module PlacementLoop {
  import opened Options
  import opened Scheduler
  import opened InstanceRegistry
  import opened Workloads

  function Loads(reg: Registry): string -> nat {
    node => LoadOf(reg, node)
  }

  /** `next` is `reg` after a new instance was dispatched to the picked node. */
  ghost predicate PlacesOne(candidates: seq<CandidateNode>, placement: Placement, reg: Registry, next: Registry) {
    exists id: nat, key: WorkloadKey, node: string, at: int ::
      && id !in reg.byId
      && Picks(EligibleKeys(candidates, placement, Loads(reg)), Some(node))
      && next == Apply(reg, Dispatched(id, key, Some(node), at))
  }

  lemma PlacingRaisesThePick(
      candidates: seq<CandidateNode>, placement: Placement, reg: Registry, next: Registry)
    requires PlacesOne(candidates, placement, reg, next)
    ensures Dispatches(candidates, placement, Loads(reg), Loads(next))
  {
    var id: nat, key: WorkloadKey, node: string, at: int :|
      && id !in reg.byId
      && Picks(EligibleKeys(candidates, placement, Loads(reg)), Some(node))
      && next == Apply(reg, Dispatched(id, key, Some(node), at));
    forall n
      ensures Loads(next)(n) == Raise(Loads(reg), node)(n)
    {
      DispatchRaisesLoad(reg, id, key, node, at, n);
    }
  }

  /** Balance over the registry: among equally preferred eligible nodes, running
      counts that differ by at most `d >= 1` still do after any number of dispatches. */
  lemma RegistryStaysBalanced(
      candidates: seq<CandidateNode>, placement: Placement, regs: seq<Registry>, d: nat)
    requires EvenPreferences(candidates, placement) && d >= 1
    requires regs != [] && Spread(candidates, placement, Loads(regs[0]), d)
    requires forall i :: 0 <= i < |regs| - 1 ==> PlacesOne(candidates, placement, regs[i], regs[i + 1])
    ensures Spread(candidates, placement, Loads(regs[|regs| - 1]), d)
  {
    var loads := seq(|regs|, i requires 0 <= i < |regs| => Loads(regs[i]));
    forall i | 0 <= i < |loads| - 1
      ensures Dispatches(candidates, placement, loads[i], loads[i + 1])
    {
      PlacingRaisesThePick(candidates, placement, regs[i], regs[i + 1]);
    }
    DispatchesStayBalanced(candidates, placement, loads, d);
  }
}
