/**
 The controller's instance registry: records by id, and a second index from
 (kind, name) to ids. Each method runs as one atomic step.
 */
module InstanceRegistry {
  import opened Options
  import opened SortedSets
  import opened StableSort
  import opened Workloads

  datatype Record = Record(
    id: nat, key: WorkloadKey, node: Option<string>, replicaIndex: u32,
    dispatchedAt: Option<int>, firstSeenAt: Option<int>, lastSeenAt: Option<int>, lineCount: u32,
    exitedAt: Option<int>, exitCode: Option<int>, exitKind: Option<string>)

  datatype Registry = Registry(byId: map<nat, Record>, byWorkload: map<WorkloadKey, seq<nat>>)

  datatype Op =
    | Dispatched(id: nat, key: WorkloadKey, node: Option<string>, at: int)
    | LineSeen(id: nat, key: WorkloadKey, nodeName: string, replicaIndex: u32, at: int)
    | ExitSeen(id: nat, code: int, kind: string, at: int)
    | Purged(id: nat)
    | Drained(key: WorkloadKey)

  // ------------------------------------------------------------ the operations on values

  function IdsOf(reg: Registry, key: WorkloadKey): seq<nat> {
    if key in reg.byWorkload then reg.byWorkload[key] else []
  }

  /** Add `id` to the list of `key` unless it is there. */
  function List(index: map<WorkloadKey, seq<nat>>, key: WorkloadKey, id: nat): map<WorkloadKey, seq<nat>> {
    var ids := if key in index then index[key] else [];
    index[key := if id in ids then ids else ids + [id]]
  }

  function OnDispatch(r: Option<Record>, id: nat, key: WorkloadKey, node: Option<string>, at: int): Record {
    match r
    case Some(r) => r.(dispatchedAt := Some(at), node := if node.Some? then node else r.node)
    case None => Record(id, key, node, 0, Some(at), None, None, 0, None, None, None)
  }

  function OnLine(r: Option<Record>, id: nat, key: WorkloadKey, node: string, replicaIndex: u32, at: int): Record {
    match r
    case Some(r) => r.(
      firstSeenAt := if r.firstSeenAt.Some? then r.firstSeenAt else Some(at),
      lastSeenAt := Some(at),
      lineCount := if r.lineCount < 0xFFFF_FFFF then r.lineCount + 1 else r.lineCount,
      replicaIndex := replicaIndex,
      node := if r.node.None? then Some(node) else r.node)
    case None => Record(id, key, Some(node), replicaIndex, None, Some(at), Some(at), 1, None, None, None)
  }

  function Lookup(byId: map<nat, Record>, id: nat): Option<Record> {
    if id in byId then Some(byId[id]) else None
  }

  function Without(ids: seq<nat>, id: nat): (r: seq<nat>)
    ensures forall x :: x in r <==> x in ids && x != id
  {
    if ids == [] then []
    else
      var m := |ids| - 1;
      assert forall x :: x in ids <==> x in ids[..m] || x == ids[m];
      Without(ids[..m], id) + (if ids[m] == id then [] else [ids[m]])
  }

  function IdSet(ids: seq<nat>): set<nat> {
    set id | id in ids
  }

  function Apply(reg: Registry, op: Op): Registry {
    match op
    case Dispatched(id, key, node, at) =>
      Registry(reg.byId[id := OnDispatch(Lookup(reg.byId, id), id, key, node, at)], List(reg.byWorkload, key, id))
    case LineSeen(id, key, node, idx, at) =>
      Registry(reg.byId[id := OnLine(Lookup(reg.byId, id), id, key, node, idx, at)], List(reg.byWorkload, key, id))
    case ExitSeen(id, code, kind, at) =>
      if id !in reg.byId then reg
      else reg.(byId := reg.byId[id :=
        reg.byId[id].(exitedAt := Some(at), exitCode := Some(code), exitKind := Some(kind))])
    case Purged(id) =>
      Registry(reg.byId - {id}, map key | key in reg.byWorkload :: Without(reg.byWorkload[key], id))
    case Drained(key) =>
      Registry(reg.byId - IdSet(IdsOf(reg, key)), reg.byWorkload - {key})
  }

  function RunOps(ops: seq<Op>): Registry {
    if ops == [] then Registry(map[], map[]) else Apply(RunOps(ops[..|ops| - 1]), ops[|ops| - 1])
  }

  /** The records listed by `ids`, in order; unknown ids are skipped. */
  function Records(byId: map<nat, Record>, ids: seq<nat>): (rs: seq<Record>)
    ensures forall r :: r in rs <==> exists id :: id in ids && id in byId && byId[id] == r
  {
    if ids == [] then []
    else
      var m := |ids| - 1;
      assert forall x :: x in ids <==> x in ids[..m] || x == ids[m];
      Records(byId, ids[..m]) + (if ids[m] in byId then [byId[ids[m]]] else [])
  }

  /** The ids without repetitions. */
  function Firsts(ids: seq<nat>): seq<nat> {
    if ids == [] then []
    else
      var m := |ids| - 1;
      Firsts(ids[..m]) + (if ids[m] in ids[..m] then [] else [ids[m]])
  }

  lemma {:induction false} FirstsOfDistinct(ids: seq<nat>)
    ensures NoDuplicates(ids) ==> Firsts(ids) == ids
  {
    if ids != [] && NoDuplicates(ids) {
      var m := |ids| - 1;
      FirstsOfDistinct(ids[..m]);
      assert ids == ids[..m] + [ids[m]];
    }
  }

  lemma RecordsOfFirsts(byId: map<nat, Record>, ids: seq<nat>, i: nat)
    requires i < |ids|
    ensures Records(byId, Firsts(ids[..i + 1]))
         == Records(byId, Firsts(ids[..i]))
            + (if ids[i] in byId && ids[i] !in ids[..i] then [byId[ids[i]]] else [])
  {
    var before, after := Firsts(ids[..i]), Firsts(ids[..i + 1]);
    assert ids[..i + 1][..i] == ids[..i];
    if ids[i] !in ids[..i] {
      assert after[..|before|] == before;
    } else {
      assert after == before;
    }
  }

  function ByReplica(): (Record, Record) -> bool {
    (a: Record, b: Record) => a.replicaIndex <= b.replicaIndex
  }

  /** The listed records of a workload, by replica index. */
  function SnapshotFor(reg: Registry, key: WorkloadKey): seq<Record> {
    Sort(ByReplica(), Records(reg.byId, IdsOf(reg, key)))
  }

  lemma DroppedOneMore(byId: map<nat, Record>, ids: seq<nat>, i: nat)
    requires i < |ids|
    ensures byId - IdSet(ids[..i + 1]) == byId - IdSet(ids[..i]) - {ids[i]}
    ensures ids[i] in byId - IdSet(ids[..i]) <==> ids[i] in byId && ids[i] !in ids[..i]
  {
    assert ids[..i + 1] == ids[..i] + [ids[i]];
    assert IdSet(ids[..i + 1]) == IdSet(ids[..i]) + {ids[i]};
  }

  /** Remove the listed records one by one and return those that were there. */
  method RemoveListed(byId: map<nat, Record>, ids: seq<nat>) returns (rest: map<nat, Record>, removed: seq<Record>)
    ensures rest == byId - IdSet(ids)
    ensures removed == Records(byId, Firsts(ids))
  {
    rest, removed := byId, [];
    for i := 0 to |ids|
      invariant rest == byId - IdSet(ids[..i])
      invariant removed == Records(byId, Firsts(ids[..i]))
    {
      RecordsOfFirsts(byId, ids, i);
      DroppedOneMore(byId, ids, i);
      if ids[i] in rest {
        removed := removed + [rest[ids[i]]];
        rest := rest - {ids[i]};
      }
    }
    assert ids[..|ids|] == ids;
  }

  // ------------------------------------------------------------ the registry object

  class Instances {
    var byId: map<nat, Record>
    var byWorkload: map<WorkloadKey, seq<nat>>

    ghost function Value(): Registry
      reads this
    {
      Registry(byId, byWorkload)
    }

    constructor ()
      ensures Value() == RunOps([])
    {
      byId, byWorkload := map[], map[];
    }

    method ListId(key: WorkloadKey, id: nat)
      modifies this`byWorkload
      ensures byWorkload == List(old(byWorkload), key, id)
    {
      if key !in byWorkload {
        byWorkload := byWorkload[key := []];
      }
      if id !in byWorkload[key] {
        byWorkload := byWorkload[key := byWorkload[key] + [id]];
      } else {
        byWorkload := byWorkload[key := byWorkload[key]];
      }
    }

    method RecordDispatch(id: nat, key: WorkloadKey, node: Option<string>, at: int)
      modifies this
      ensures Value() == Apply(old(Value()), Dispatched(id, key, node, at))
    {
      if id in byId {
        var r := byId[id];
        byId := byId[id := r.(dispatchedAt := Some(at), node := if node.Some? then node else r.node)];
      } else {
        byId := byId[id := Record(id, key, node, 0, Some(at), None, None, 0, None, None, None)];
      }
      ListId(key, id);
    }

    method NoteLine(id: nat, key: WorkloadKey, node: string, replicaIndex: u32, at: int)
      modifies this
      ensures Value() == Apply(old(Value()), LineSeen(id, key, node, replicaIndex, at))
    {
      if id in byId {
        var r := byId[id];
        if r.firstSeenAt.None? {
          r := r.(firstSeenAt := Some(at));
        }
        r := r.(lastSeenAt := Some(at), replicaIndex := replicaIndex);
        if r.lineCount < 0xFFFF_FFFF {
          r := r.(lineCount := r.lineCount + 1);
        }
        if r.node.None? {
          r := r.(node := Some(node));
        }
        byId := byId[id := r];
      } else {
        byId := byId[id := Record(id, key, Some(node), replicaIndex, None, Some(at), Some(at), 1, None, None, None)];
      }
      ListId(key, id);
    }

    method RecordExit(id: nat, code: int, kind: string, at: int) returns (r: Option<Record>)
      modifies this
      ensures Value() == Apply(old(Value()), ExitSeen(id, code, kind, at))
      ensures r == if id in old(byId) then Some(byId[id]) else None
      ensures r.Some? ==> ExitedFrom(old(byId)[id], r.value, code, kind, at)
    {
      if id !in byId {
        return None;
      }
      byId := byId[id := byId[id].(exitedAt := Some(at), exitCode := Some(code), exitKind := Some(kind))];
      r := Some(byId[id]);
    }

    method Purge(id: nat)
      modifies this
      ensures Value() == Apply(old(Value()), Purged(id))
    {
      byId := byId - {id};
      var rest := byWorkload.Keys;
      var index := byWorkload;
      while rest != {}
        invariant rest <= byWorkload.Keys && index.Keys == byWorkload.Keys
        invariant forall key :: key in index ==>
                    index[key] == if key in rest then byWorkload[key] else Without(byWorkload[key], id)
        decreases rest
      {
        var key :| key in rest;
        index := index[key := Without(index[key], id)];
        rest := rest - {key};
      }
      byWorkload := index;
    }

    method DrainFor(key: WorkloadKey) returns (drained: seq<Record>)
      modifies this
      ensures Value() == Apply(old(Value()), Drained(key))
      ensures drained == Records(old(byId), Firsts(IdsOf(old(Value()), key)))
    {
      var ids := if key in byWorkload then byWorkload[key] else [];
      byWorkload := byWorkload - {key};
      byId, drained := RemoveListed(byId, ids);
    }

    method Snapshot(key: WorkloadKey) returns (out: seq<Record>)
      ensures out == SnapshotFor(Value(), key)
    {
      var ids := if key in byWorkload then byWorkload[key] else [];
      var found := [];
      for i := 0 to |ids|
        invariant found == Records(byId, ids[..i])
      {
        assert ids[..i + 1][..i] == ids[..i];
        if ids[i] in byId {
          found := found + [byId[ids[i]]];
        }
      }
      assert ids[..|ids|] == ids;
      out := Sort(ByReplica(), found);
    }

    method CountAlive(key: WorkloadKey) returns (count: nat)
      ensures count == AliveOf(Value(), key)
    {
      var ids := if key in byWorkload then byWorkload[key] else [];
      count := 0;
      for i := 0 to |ids|
        invariant count == AliveCount(Records(byId, ids[..i]))
      {
        assert ids[..i + 1][..i] == ids[..i];
        if ids[i] in byId {
          CountOneMore(Records(byId, ids[..i]), byId[ids[i]]);
          if byId[ids[i]].exitedAt.None? {
            count := count + 1;
          }
        } else {
          assert Records(byId, ids[..i + 1]) == Records(byId, ids[..i]);
        }
      }
      assert ids[..|ids|] == ids;
    }
  }

  function AliveCount(rs: seq<Record>): nat {
    if rs == [] then 0
    else AliveCount(rs[..|rs| - 1]) + (if rs[|rs| - 1].exitedAt.None? then 1 else 0)
  }

  // ------------------------------------------------------------ agreement of the two indexes

  /** Every record is stored under its id and listed under its own workload; lists have no duplicates. */
  ghost predicate Indexed(reg: Registry) {
    && (forall id :: id in reg.byId ==> reg.byId[id].id == id && id in IdsOf(reg, reg.byId[id].key))
    && (forall key :: key in reg.byWorkload ==> NoDuplicates(reg.byWorkload[key]))
  }

  /** Every listed id is stored, as a record of that workload. */
  ghost predicate Consistent(reg: Registry) {
    forall key, id :: key in reg.byWorkload && id in reg.byWorkload[key] ==> id in reg.byId && reg.byId[id].key == key
  }

  lemma {:induction false} WithoutHasNoDuplicates(ids: seq<nat>, id: nat)
    requires NoDuplicates(ids)
    ensures NoDuplicates(Without(ids, id))
  {
    if ids != [] {
      var m := |ids| - 1;
      WithoutHasNoDuplicates(ids[..m], id);
      var kept := Without(ids[..m], id);
      assert forall i :: 0 <= i < |kept| ==> kept[i] in ids[..m];
    }
  }

  lemma ReportKeepsIndexed(reg: Registry, id: nat, key: WorkloadKey, r: Record)
    requires Indexed(reg) && r.id == id
    requires r.key == if id in reg.byId then reg.byId[id].key else key
    ensures Indexed(Registry(reg.byId[id := r], List(reg.byWorkload, key, id)))
  {
    var next := Registry(reg.byId[id := r], List(reg.byWorkload, key, id));
    forall x | x in next.byId
      ensures x in IdsOf(next, next.byId[x].key)
    {
      if x != id || id in reg.byId {
        assert x in IdsOf(reg, reg.byId[x].key);
      }
    }
  }

  lemma ApplyKeepsIndexed(reg: Registry, op: Op)
    requires Indexed(reg)
    ensures Indexed(Apply(reg, op))
  {
    match op
    case Dispatched(id, key, node, at) =>
      ReportKeepsIndexed(reg, id, key, OnDispatch(Lookup(reg.byId, id), id, key, node, at));
    case LineSeen(id, key, node, idx, at) =>
      ReportKeepsIndexed(reg, id, key, OnLine(Lookup(reg.byId, id), id, key, node, idx, at));
    case ExitSeen(id, code, kind, at) =>
    case Purged(id) =>
      forall key | key in reg.byWorkload
        ensures NoDuplicates(Without(reg.byWorkload[key], id))
      {
        WithoutHasNoDuplicates(reg.byWorkload[key], id);
      }
    case Drained(key) =>
  }

  /** After any sequence of operations the indexes agree on every stored record. */
  lemma {:induction false} AlwaysIndexed(ops: seq<Op>)
    ensures Indexed(RunOps(ops))
  {
    if ops != [] {
      AlwaysIndexed(ops[..|ops| - 1]);
      ApplyKeepsIndexed(RunOps(ops[..|ops| - 1]), ops[|ops| - 1]);
    }
  }

  /** In every run a drain returns each listed record once, in order. */
  lemma DrainReturnsAll(ops: seq<Op>, key: WorkloadKey)
    ensures Firsts(IdsOf(RunOps(ops), key)) == IdsOf(RunOps(ops), key)
  {
    AlwaysIndexed(ops);
    FirstsOfDistinct(IdsOf(RunOps(ops), key));
  }

  /** An operation that reports an id names the workload `owner` gives it. */
  predicate NamesOwner(owner: nat -> WorkloadKey, op: Op) {
    match op
    case Dispatched(id, key, _, _) => key == owner(id)
    case LineSeen(id, key, _, _, _) => key == owner(id)
    case _ => true
  }

  ghost predicate Owned(owner: nat -> WorkloadKey, reg: Registry) {
    forall id :: id in reg.byId ==> reg.byId[id].key == owner(id)
  }

  lemma ApplyKeepsConsistent(owner: nat -> WorkloadKey, reg: Registry, op: Op)
    requires Consistent(reg) && Owned(owner, reg) && NamesOwner(owner, op)
    ensures Consistent(Apply(reg, op)) && Owned(owner, Apply(reg, op))
  {
    var next := Apply(reg, op);
    forall key, id | key in next.byWorkload && id in next.byWorkload[key]
      ensures id in next.byId && next.byId[id].key == key
    {
      if key in reg.byWorkload && id in reg.byWorkload[key] {
        assert id in reg.byId && reg.byId[id].key == key;
      }
    }
  }

  /** If each id is always reported with the same kind and name, listing and storage coincide. */
  lemma {:induction false} ConsistentWhenOwned(owner: nat -> WorkloadKey, ops: seq<Op>)
    requires forall i :: 0 <= i < |ops| ==> NamesOwner(owner, ops[i])
    ensures Consistent(RunOps(ops)) && Owned(owner, RunOps(ops))
  {
    if ops != [] {
      ConsistentWhenOwned(owner, ops[..|ops| - 1]);
      ApplyKeepsConsistent(owner, RunOps(ops[..|ops| - 1]), ops[|ops| - 1]);
    }
  }

  /** The condition is exact: reporting an id keeps the indexes consistent if and only
      if the id is new or already recorded under that workload. */
  lemma ReportIsConsistentExactlyWhen(reg: Registry, op: Op)
    requires Consistent(reg) && (op.Dispatched? || op.LineSeen?)
    ensures Consistent(Apply(reg, op)) <==> op.id !in reg.byId || reg.byId[op.id].key == op.key
  {
    var next := Apply(reg, op);
    assert op.id in IdsOf(next, op.key);
    if op.id !in reg.byId || reg.byId[op.id].key == op.key {
      forall key, id | key in next.byWorkload && id in next.byWorkload[key]
        ensures id in next.byId && next.byId[id].key == key
      {
        if key in reg.byWorkload && id in reg.byWorkload[key] {
          assert id in reg.byId && reg.byId[id].key == key;
        }
      }
    } else {
      assert next.byId[op.id].key != op.key;
    }
  }

  /** The ids of all records of a workload, found without the second index. */
  function OfWorkload(reg: Registry, key: WorkloadKey): set<nat> {
    set id | id in reg.byId && reg.byId[id].key == key
  }

  lemma ListedAreAll(reg: Registry, key: WorkloadKey)
    requires Indexed(reg) && Consistent(reg)
    ensures NoDuplicates(IdsOf(reg, key))
    ensures forall id :: id in IdsOf(reg, key) <==> id in OfWorkload(reg, key)
  {
  }

  /** A snapshot lists exactly the records of the workload, each once, by replica index. */
  lemma SnapshotIsBruteForce(reg: Registry, key: WorkloadKey)
    requires Indexed(reg) && Consistent(reg)
    ensures forall r :: r in SnapshotFor(reg, key) <==> exists id :: id in OfWorkload(reg, key) && reg.byId[id] == r
    ensures |SnapshotFor(reg, key)| == |OfWorkload(reg, key)|
    ensures forall i, j :: 0 <= i < j < |SnapshotFor(reg, key)| ==>
              SnapshotFor(reg, key)[i].replicaIndex <= SnapshotFor(reg, key)[j].replicaIndex
  {
    ListedAreAll(reg, key);
    var ids := IdsOf(reg, key);
    SortKeepsElements(ByReplica(), Records(reg.byId, ids));
    SortSorts(ByReplica(), Records(reg.byId, ids));
    CountListed(reg.byId, ids, OfWorkload(reg, key));
  }

  /** A snapshot keeps the listed order of the records of one replica index. */
  lemma SnapshotIsStable(reg: Registry, key: WorkloadKey, index: u32)
    ensures var ofIndex := (r: Record) => r.replicaIndex == index;
            Filter(ofIndex, SnapshotFor(reg, key)) == Filter(ofIndex, Records(reg.byId, IdsOf(reg, key)))
  {
    SortIsStable(ByReplica(), (r: Record) => r.replicaIndex == index, Records(reg.byId, IdsOf(reg, key)));
  }

  lemma CountOneMore(rs: seq<Record>, r: Record)
    ensures AliveCount(rs + [r]) == AliveCount(rs) + (if r.exitedAt.None? then 1 else 0)
  {
    assert (rs + [r])[..|rs|] == rs;
  }

  /** The ids among `ids` whose records have not exited. */
  function AliveAmong(byId: map<nat, Record>, ids: set<nat>): set<nat> {
    set id | id in ids && id in byId && byId[id].exitedAt.None?
  }

  lemma AliveOneMore(byId: map<nat, Record>, rest: set<nat>, last: nat)
    requires last !in rest && last in byId
    ensures |AliveAmong(byId, rest + {last})| == |AliveAmong(byId, rest)| + (if byId[last].exitedAt.None? then 1 else 0)
  {
    var more := if byId[last].exitedAt.None? then {last} else {};
    assert AliveAmong(byId, rest + {last}) == AliveAmong(byId, rest) + more;
  }

  lemma {:induction false} CountListed(byId: map<nat, Record>, ids: seq<nat>, all: set<nat>)
    requires NoDuplicates(ids) && forall id :: id in ids ==> id in byId
    requires forall id :: id in ids <==> id in all
    ensures |Records(byId, ids)| == |all|
    ensures AliveCount(Records(byId, ids)) == |AliveAmong(byId, all)|
  {
    if ids == [] {
      assert all == {};
      assert AliveAmong(byId, all) == {};
    } else {
      var m := |ids| - 1;
      var last, rest := ids[m], all - {ids[m]};
      assert forall id :: id in ids <==> id in ids[..m] || id == last;
      var before := Records(byId, ids[..m]);
      CountListed(byId, ids[..m], rest);
      CountOneMore(before, byId[last]);
      assert last in all && all == rest + {last};
      AliveOneMore(byId, rest, last);
      assert Records(byId, ids) == before + [byId[last]];
    }
  }

  /** The alive count equals a count over all records. */
  lemma AliveCountIsBruteForce(reg: Registry, key: WorkloadKey)
    requires Indexed(reg) && Consistent(reg)
    ensures AliveOf(reg, key) == |AliveAmong(reg.byId, OfWorkload(reg, key))|
  {
    ListedAreAll(reg, key);
    CountListed(reg.byId, IdsOf(reg, key), OfWorkload(reg, key));
  }

  // ------------------------------------------------------------ node load

  /** The instances on a node that have not exited. */
  function RunningOn(reg: Registry, node: string): set<nat> {
    set id | id in reg.byId && RunsOn(reg.byId[id], node)
  }

  predicate RunsOn(r: Record, node: string) {
    r.node == Some(node) && r.exitedAt.None?
  }

  /** The load the scheduler sees. */
  function LoadOf(reg: Registry, node: string): nat {
    |RunningOn(reg, node)|
  }

  /** Recording a new instance on a node raises the load of that node by one and no other. */
  lemma DispatchRaisesLoad(
      reg: Registry, id: nat, key: WorkloadKey, node: string, at: int, other: string)
    requires id !in reg.byId
    ensures LoadOf(Apply(reg, Dispatched(id, key, Some(node), at)), other)
            == LoadOf(reg, other) + (if other == node then 1 else 0)
  {
    var r := OnDispatch(None, id, key, Some(node), at);
    NewRecordOn(reg, Apply(reg, Dispatched(id, key, Some(node), at)), id, r, other);
    assert RunsOn(r, other) <==> other == node;
  }

  lemma NewRecordOn(reg: Registry, next: Registry, id: nat, r: Record, node: string)
    requires id !in reg.byId && next.byId == reg.byId[id := r]
    ensures LoadOf(next, node) == LoadOf(reg, node) + (if RunsOn(r, node) then 1 else 0)
  {
    var before, after := RunningOn(reg, node), RunningOn(next, node);
    forall x
      ensures x in after <==> x in before || (x == id && RunsOn(r, node))
    {
    }
    if RunsOn(r, node) {
      assert after == before + {id};
    } else {
      assert after == before;
    }
  }

  /** Recording the exit of a running instance lowers the load of its node by one and of no other;
      that of any other instance changes nothing. */
  lemma ExitLowersLoad(reg: Registry, id: nat, code: int, kind: string, at: int, node: string)
    ensures LoadOf(Apply(reg, ExitSeen(id, code, kind, at)), node)
         == LoadOf(reg, node)
            - (if id in reg.byId && reg.byId[id].exitedAt.None? && reg.byId[id].node == Some(node) then 1 else 0)
  {
    var before, after := RunningOn(reg, node), RunningOn(Apply(reg, ExitSeen(id, code, kind, at)), node);
    if id in before {
      assert after == before - {id};
    } else {
      assert after == before;
    }
  }

  // ------------------------------------------------------------ what an operation leaves on record

  /** The record `r` is `was` with nothing but its exit changed. */
  predicate ExitedFrom(was: Record, r: Record, code: int, kind: string, at: int) {
    && r.exitedAt == Some(at) && r.exitCode == Some(code) && r.exitKind == Some(kind)
    && r.id == was.id && r.key == was.key && r.node == was.node && r.replicaIndex == was.replicaIndex
    && r.dispatchedAt == was.dispatchedAt && r.firstSeenAt == was.firstSeenAt && r.lastSeenAt == was.lastSeenAt
    && r.lineCount == was.lineCount
  }

  /** An exit is put on the record of a known id and changes nothing else; that of an unknown
      id changes nothing. */
  lemma ExitIsRecorded(reg: Registry, id: nat, code: int, kind: string, at: int)
    ensures var next := Apply(reg, ExitSeen(id, code, kind, at));
            && next.byWorkload == reg.byWorkload && next.byId.Keys == reg.byId.Keys
            && (forall x :: x in reg.byId && x != id ==> next.byId[x] == reg.byId[x])
            && (id in reg.byId ==> ExitedFrom(reg.byId[id], next.byId[id], code, kind, at))
  {
  }

  /** The alive count of a workload drops by one when one of its running instances exits, and
      not otherwise. */
  lemma ExitLowersAliveCount(reg: Registry, id: nat, code: int, kind: string, at: int, key: WorkloadKey)
    requires Indexed(reg) && Consistent(reg)
    ensures AliveOf(Apply(reg, ExitSeen(id, code, kind, at)), key)
         == AliveOf(reg, key)
            - (if id in reg.byId && reg.byId[id].exitedAt.None? && reg.byId[id].key == key then 1 else 0)
  {
    ExitKeepsIndexes(reg, id, code, kind, at);
    AliveCountIsBruteForce(reg, key);
    AliveCountIsBruteForce(Apply(reg, ExitSeen(id, code, kind, at)), key);
    ExitLeavesAlive(reg, id, code, kind, at, key);
  }

  /** The alive count of a workload. */
  function AliveOf(reg: Registry, key: WorkloadKey): nat {
    AliveCount(Records(reg.byId, IdsOf(reg, key)))
  }

  lemma ExitLeavesAlive(reg: Registry, id: nat, code: int, kind: string, at: int, key: WorkloadKey)
    ensures var next := Apply(reg, ExitSeen(id, code, kind, at));
            && (id in AliveAmong(reg.byId, OfWorkload(reg, key))
                <==> id in reg.byId && reg.byId[id].exitedAt.None? && reg.byId[id].key == key)
            && AliveAmong(next.byId, OfWorkload(next, key)) == AliveAmong(reg.byId, OfWorkload(reg, key)) - {id}
  {
  }

  lemma ExitKeepsIndexes(reg: Registry, id: nat, code: int, kind: string, at: int)
    requires Indexed(reg) && Consistent(reg)
    ensures var next := Apply(reg, ExitSeen(id, code, kind, at)); Indexed(next) && Consistent(next)
  {
  }

  /** A dispatch stamps a known record and sets its node if one is given; an unknown id gets a
      fresh record in slot 0. Nothing else on record changes, and the id is listed. */
  lemma DispatchIsRecorded(reg: Registry, id: nat, key: WorkloadKey, node: Option<string>, at: int)
    ensures var next := Apply(reg, Dispatched(id, key, node, at));
            && next.byId.Keys == reg.byId.Keys + {id}
            && (forall x :: x in reg.byId && x != id ==> next.byId[x] == reg.byId[x])
            && (id in reg.byId ==>
                  next.byId[id] == reg.byId[id].(
                    dispatchedAt := Some(at), node := if node == None then reg.byId[id].node else node))
            && (id !in reg.byId ==>
                  next.byId[id] == Record(id, key, node, 0, Some(at), None, None, 0, None, None, None))
            && ListedBehind(reg, next, key, id)
  {
  }

  /** A line counts on a known record, and sets its slot, its times and a missing node; an unknown
      id gets a fresh record with one line. */
  lemma LineIsRecorded(reg: Registry, id: nat, key: WorkloadKey, node: string, index: u32, at: int)
    ensures var next := Apply(reg, LineSeen(id, key, node, index, at));
            && next.byId.Keys == reg.byId.Keys + {id}
            && (forall x :: x in reg.byId && x != id ==> next.byId[x] == reg.byId[x])
            && (id in reg.byId ==> LineAdded(reg.byId[id], next.byId[id], node, index, at))
            && (id !in reg.byId ==>
                  next.byId[id] == Record(id, key, Some(node), index, None, Some(at), Some(at), 1, None, None, None))
            && ListedBehind(reg, next, key, id)
  {
  }

  predicate LineAdded(was: Record, r: Record, node: string, index: u32, at: int) {
    && r.id == was.id && r.key == was.key && r.dispatchedAt == was.dispatchedAt
    && r.exitedAt == was.exitedAt && r.exitCode == was.exitCode && r.exitKind == was.exitKind
    && r.replicaIndex == index && r.lastSeenAt == Some(at)
    && r.firstSeenAt == (if was.firstSeenAt == None then Some(at) else was.firstSeenAt)
    && r.node == (if was.node == None then Some(node) else was.node)
    && r.lineCount as int == (if was.lineCount == 0xFFFF_FFFF then 0xFFFF_FFFF else was.lineCount + 1)
  }

  /** The id stands at the end of its workload's list if it was not there; other lists are as before. */
  predicate ListedBehind(reg: Registry, next: Registry, key: WorkloadKey, id: nat) {
    && next.byWorkload.Keys == reg.byWorkload.Keys + {key}
    && (forall k :: k in reg.byWorkload && k != key ==> next.byWorkload[k] == reg.byWorkload[k])
    && next.byWorkload[key] == IdsOf(reg, key) + (if id in IdsOf(reg, key) then [] else [id])
  }

  /** A purge removes the record and its listings; a drain removes a workload's list and its records. */
  lemma RemovalsRemove(reg: Registry, id: nat, key: WorkloadKey)
    ensures var next := Apply(reg, Purged(id));
            && next.byId.Keys == reg.byId.Keys - {id} && (forall x :: x in next.byId ==> next.byId[x] == reg.byId[x])
            && next.byWorkload.Keys == reg.byWorkload.Keys
            && forall k, x :: k in reg.byWorkload ==> (x in next.byWorkload[k] <==> x in reg.byWorkload[k] && x != id)
    ensures var next := Apply(reg, Drained(key));
            && (forall x :: x in next.byId <==> x in reg.byId && x !in IdsOf(reg, key))
            && (forall x :: x in next.byId ==> next.byId[x] == reg.byId[x])
            && next.byWorkload == map k | k in reg.byWorkload && k != key :: reg.byWorkload[k]
  {
  }

  /** The operation removes the record of `id`. */
  predicate Removes(reg: Registry, op: Op, id: nat) {
    match op
    case Purged(x) => x == id
    case Drained(key) => id in IdsOf(reg, key)
    case _ => false
  }

  function After(reg: Registry, ops: seq<Op>): Registry {
    if ops == [] then reg else Apply(After(reg, ops[..|ops| - 1]), ops[|ops| - 1])
  }

  ghost predicate KeepsRecord(reg: Registry, ops: seq<Op>, id: nat) {
    ops != [] ==>
      var m := |ops| - 1;
      KeepsRecord(reg, ops[..m], id) && !Removes(After(reg, ops[..m]), ops[m], id)
  }

  /** An exit stays on record until the record is removed: no line and no dispatch clears it. */
  lemma {:induction false} ExitsStay(reg: Registry, ops: seq<Op>, id: nat)
    requires id in reg.byId && reg.byId[id].exitedAt.Some? && KeepsRecord(reg, ops, id)
    ensures id in After(reg, ops).byId && After(reg, ops).byId[id].exitedAt.Some?
    decreases |ops|
  {
    if ops != [] {
      ExitsStay(reg, ops[..|ops| - 1], id);
    }
  }
}
