/**
 The placement scheduler: a hard filter, a score from soft preferences and load,
 and a three-key sort whose first entry wins.
 */
module Scheduler {
  import opened Options
  import opened StableSort
  import opened Workloads

  datatype Arch = X86_64 | Arm64
  datatype OperatingSystem = Linux | Macos
  datatype GpuVendor = Nvidia | Amd | Apple | Intel

  datatype NodeGpu = NodeGpu(vendor: GpuVendor, vramGb: nat)
  datatype GpuRequirement = GpuRequirement(vendor: Option<GpuVendor>, minVramGb: Option<nat>)

  datatype CandidateNode = CandidateNode(
    nodeId: string, arch: Arch, os: OperatingSystem, gpus: seq<NodeGpu>, labels: map<string, string>)

  datatype Placement = Placement(
    arch: seq<Arch>, os: seq<OperatingSystem>, gpu: Option<GpuRequirement>,
    nodeLabels: map<string, string>, preferLabels: map<string, string>)

  // ------------------------------------------------------------ filter and score

  predicate GpuMatches(have: seq<NodeGpu>, need: GpuRequirement) {
    exists g :: g in have
                && (need.vendor.Some? ==> g.vendor == need.vendor.value)
                && (need.minVramGb.Some? ==> g.vramGb >= need.minVramGb.value)
  }

  predicate HasLabel(node: CandidateNode, k: string, v: string) {
    k in node.labels && node.labels[k] == v
  }

  /** The node meets every hard constraint. */
  predicate Eligible(placement: Placement, n: CandidateNode) {
    && (placement.arch == [] || n.arch in placement.arch)
    && (placement.os == [] || n.os in placement.os)
    && (placement.gpu.Some? ==> GpuMatches(n.gpus, placement.gpu.value))
    && (forall k :: k in placement.nodeLabels ==> HasLabel(n, k, placement.nodeLabels[k]))
  }

  /** The preferred labels the node carries. */
  function Matching(placement: Placement, n: CandidateNode): set<string> {
    set k | k in placement.preferLabels && HasLabel(n, k, placement.preferLabels[k])
  }

  /** 100 per matching preferred label, minus one per running instance. */
  method ScoreNode(node: CandidateNode, placement: Placement, load: nat) returns (score: int)
    ensures score == 100 * |Matching(placement, node)| - load
  {
    score := 0;
    var rest := placement.preferLabels.Keys;
    assert Matching(placement, node) - rest == {};
    while rest != {}
      invariant rest <= placement.preferLabels.Keys
      invariant score == 100 * |Matching(placement, node) - rest|
      decreases rest
    {
      var k :| k in rest;
      OneMoreLabel(Matching(placement, node), rest, k);
      rest := rest - {k};
      if HasLabel(node, k, placement.preferLabels[k]) {
        score := score + 100;
      }
    }
    assert Matching(placement, node) - {} == Matching(placement, node);
    score := score - load;
  }

  lemma OneMoreLabel(matching: set<string>, rest: set<string>, k: string)
    requires k in rest
    ensures |matching - (rest - {k})| == |matching - rest| + (if k in matching then 1 else 0)
  {
    if k in matching {
      assert matching - (rest - {k}) == (matching - rest) + {k};
    } else {
      assert matching - (rest - {k}) == matching - rest;
    }
  }

  // ------------------------------------------------------------ the ranking

  datatype Key = Key(score: int, load: nat, id: string)

  /** Lexicographic order on node ids. */
  predicate IdLess(a: string, b: string) {
    if b == [] then false
    else if a == [] then true
    else if a[0] != b[0] then a[0] < b[0]
    else IdLess(a[1..], b[1..])
  }

  /** Higher score, then lower load, then smaller id. */
  predicate Before(a: Key, b: Key) {
    if a.score != b.score then a.score > b.score
    else if a.load != b.load then a.load < b.load
    else IdLess(a.id, b.id)
  }

  lemma {:induction false} IdLessIsTotal(a: string, b: string)
    ensures a == b || IdLess(a, b) || IdLess(b, a)
    ensures !(IdLess(a, b) && IdLess(b, a)) && !IdLess(a, a)
    decreases |a|
  {
    if a != [] && b != [] {
      IdLessIsTotal(a[1..], b[1..]);
      IdLessIsTotal(a[1..], a[1..]);
      assert a == [a[0]] + a[1..] && b == [b[0]] + b[1..];
    } else if a != [] {
      IdLessIsTotal(a[1..], a[1..]);
    }
  }

  lemma {:induction false} IdLessIsTransitive(a: string, b: string, c: string)
    requires IdLess(a, b) && IdLess(b, c)
    ensures IdLess(a, c)
    decreases |a|
  {
    if a != [] && a[0] == b[0] == c[0] {
      IdLessIsTransitive(a[1..], b[1..], c[1..]);
    }
  }

  lemma BeforeIsTotal(a: Key, b: Key)
    ensures a == b || Before(a, b) || Before(b, a)
    ensures !(Before(a, b) && Before(b, a)) && !Before(a, a)
  {
    IdLessIsTotal(a.id, b.id);
    IdLessIsTotal(a.id, a.id);
  }

  lemma BeforeIsTransitive(a: Key, b: Key, c: Key)
    requires Before(a, b) && Before(b, c)
    ensures Before(a, c)
  {
    if a.score == b.score == c.score && a.load == b.load == c.load {
      IdLessIsTransitive(a.id, b.id, c.id);
    }
  }

  /** `k` is the optimum of `keys`: nothing ranks before it. */
  ghost predicate IsBest(keys: set<Key>, k: Key) {
    k in keys && forall k' :: k' in keys ==> k == k' || Before(k, k')
  }

  lemma BestIsUnique(keys: set<Key>, k: Key, k': Key)
    requires IsBest(keys, k) && IsBest(keys, k')
    ensures k == k'
  {
    BeforeIsTotal(k, k');
  }

  function RankOrder(): (Key, Key) -> bool {
    (a: Key, b: Key) => a == b || Before(a, b)
  }

  lemma RankOrderIsTotal()
    ensures TotalPreorder(RankOrder())
  {
    var le := RankOrder();
    forall a, b
      ensures le(a, b) || le(b, a)
    {
      BeforeIsTotal(a, b);
    }
    forall a, b, c | le(a, b) && le(b, c)
      ensures le(a, c)
    {
      if a != b && b != c {
        BeforeIsTransitive(a, b, c);
      }
    }
  }

  // ------------------------------------------------------------ pick_best

  function KeyOf(placement: Placement, load: string -> nat, n: CandidateNode): Key {
    Key(100 * |Matching(placement, n)| - load(n.nodeId), load(n.nodeId), n.nodeId)
  }

  /** The ranking keys of the eligible candidates. */
  function EligibleKeys(candidates: seq<CandidateNode>, placement: Placement, load: string -> nat): set<Key> {
    set n | n in candidates && Eligible(placement, n) :: KeyOf(placement, load, n)
  }

  /** What a pick must be: nothing exactly when no candidate is eligible, else the id of the optimum. */
  ghost predicate Picks(keys: set<Key>, pick: Option<string>) {
    match pick
    case None => keys == {}
    case Some(id) => exists k :: IsBest(keys, k) && k.id == id
  }

  /** The pick depends on the set of eligible keys alone. */
  lemma PickIsUnique(keys: set<Key>, p: Option<string>, p': Option<string>)
    requires Picks(keys, p) && Picks(keys, p')
    ensures p == p'
  {
    if p.Some? && p'.Some? {
      var k :| IsBest(keys, k) && k.id == p.value;
      var k' :| IsBest(keys, k') && k'.id == p'.value;
      BestIsUnique(keys, k, k');
    }
  }

  /** Filter, score, sort, take the first. */
  method PickBest(candidates: seq<CandidateNode>, placement: Placement, load: string -> nat)
    returns (pick: Option<string>)
    ensures Picks(EligibleKeys(candidates, placement, load), pick)
  {
    var scored: seq<Key> := [];
    for i := 0 to |candidates|
      invariant forall k :: k in scored <==> k in EligibleKeys(candidates[..i], placement, load)
    {
      var n := candidates[i];
      assert forall c :: c in candidates[..i + 1] <==> c in candidates[..i] || c == n;
      if Eligible(placement, n) {
        var score := ScoreNode(n, placement, load(n.nodeId));
        scored := scored + [Key(score, load(n.nodeId), n.nodeId)];
      }
    }
    assert candidates[..|candidates|] == candidates;
    pick := TakeFirst(EligibleKeys(candidates, placement, load), scored);
  }

  method TakeFirst(ghost keys: set<Key>, scored: seq<Key>) returns (pick: Option<string>)
    requires forall k :: k in scored <==> k in keys
    ensures Picks(keys, pick)
  {
    var sorted := Sort(RankOrder(), scored);
    SortKeepsElements(RankOrder(), scored);
    if sorted == [] {
      pick := None;
    } else {
      RankOrderIsTotal();
      SortSorts(RankOrder(), scored);
      assert sorted[0] in sorted;
      assert forall i :: 0 < i < |sorted| ==> RankOrder()(sorted[0], sorted[i]);
      assert IsBest(keys, sorted[0]);
      pick := Some(sorted[0].id);
    }
  }

  /** Neither the order nor the multiplicity of candidates matters. */
  lemma PickIgnoresOrder(
      cs: seq<CandidateNode>, cs': seq<CandidateNode>, placement: Placement, load: string -> nat,
      p: Option<string>, p': Option<string>)
    requires forall n :: n in cs <==> n in cs'
    requires Picks(EligibleKeys(cs, placement, load), p) && Picks(EligibleKeys(cs', placement, load), p')
    ensures p == p'
  {
    assert EligibleKeys(cs, placement, load) == EligibleKeys(cs', placement, load);
    PickIsUnique(EligibleKeys(cs, placement, load), p, p');
  }

  /** Dropping candidates other than the picked node does not change the pick. */
  lemma PickIgnoresOthers(
      cs: seq<CandidateNode>, cs': seq<CandidateNode>, placement: Placement, load: string -> nat,
      p: Option<string>, p': Option<string>)
    requires forall n :: n in cs' ==> n in cs
    requires forall n :: n in cs && n !in cs' ==> Some(n.nodeId) != p
    requires Picks(EligibleKeys(cs, placement, load), p) && Picks(EligibleKeys(cs', placement, load), p')
    ensures p == p'
  {
    var keys, keys' := EligibleKeys(cs, placement, load), EligibleKeys(cs', placement, load);
    if p.Some? {
      var k :| IsBest(keys, k) && k.id == p.value;
      var n :| n in cs && Eligible(placement, n) && KeyOf(placement, load, n) == k;
      assert n in cs';
      assert IsBest(keys', k);
      assert Picks(keys', p);
    } else {
      assert keys' <= keys;
    }
    PickIsUnique(keys', p, p');
  }

  // ------------------------------------------------------------ what the pick means

  /** The picked node is a candidate with an allowed architecture and operating system, a GPU
      that meets the requirement, and every required label with its value. */
  lemma PickMeetsConstraints(cs: seq<CandidateNode>, placement: Placement, load: string -> nat, id: string)
    requires Picks(EligibleKeys(cs, placement, load), Some(id))
    ensures exists n :: n in cs && n.nodeId == id
              && (placement.arch == [] || n.arch in placement.arch) && (placement.os == [] || n.os in placement.os)
              && (placement.gpu != None ==> HasGpu(n.gpus, placement.gpu.value.vendor, placement.gpu.value.minVramGb))
              && (forall k :: k in placement.nodeLabels ==> k in n.labels && n.labels[k] == placement.nodeLabels[k])
  {
    var k :| IsBest(EligibleKeys(cs, placement, load), k) && k.id == id;
    var n :| n in cs && Eligible(placement, n) && KeyOf(placement, load, n) == k;
    if placement.gpu.Some? {
      SameGpu(n.gpus, placement.gpu.value);
    }
  }

  /** One GPU has the vendor, if one is asked for, and at least the memory asked for. */
  predicate HasGpu(gpus: seq<NodeGpu>, vendor: Option<GpuVendor>, minVramGb: Option<nat>) {
    exists g :: g in gpus && Suits(g, vendor, minVramGb)
  }

  predicate Suits(g: NodeGpu, vendor: Option<GpuVendor>, minVramGb: Option<nat>) {
    (vendor == None || vendor == Some(g.vendor)) && (minVramGb == None || minVramGb.value <= g.vramGb)
  }

  /** Nothing is picked exactly when every candidate breaks some constraint. */
  lemma NothingPickedExactlyWhen(cs: seq<CandidateNode>, placement: Placement, load: string -> nat)
    ensures Picks(EligibleKeys(cs, placement, load), None)
       <==> forall n :: n in cs ==>
              || (placement.arch != [] && n.arch !in placement.arch) || (placement.os != [] && n.os !in placement.os)
              || (placement.gpu != None && !HasGpu(n.gpus, placement.gpu.value.vendor, placement.gpu.value.minVramGb))
              || exists k :: k in placement.nodeLabels && (k !in n.labels || n.labels[k] != placement.nodeLabels[k])
  {
    var keys := EligibleKeys(cs, placement, load);
    assert forall n :: n in cs && Eligible(placement, n) ==> KeyOf(placement, load, n) in keys;
    forall n | n in cs && placement.gpu.Some?
      ensures GpuMatches(n.gpus, placement.gpu.value)
         <==> HasGpu(n.gpus, placement.gpu.value.vendor, placement.gpu.value.minVramGb)
    {
      SameGpu(n.gpus, placement.gpu.value);
    }
  }

  lemma SameGpu(gpus: seq<NodeGpu>, need: GpuRequirement)
    ensures GpuMatches(gpus, need) <==> HasGpu(gpus, need.vendor, need.minVramGb)
  {
    assert forall g: NodeGpu ::
        Suits(g, need.vendor, need.minVramGb)
        <==> && (need.vendor.Some? ==> g.vendor == need.vendor.value)
             && (need.minVramGb.Some? ==> g.vramGb >= need.minVramGb.value);
  }

  /** The preferred labels that count are those the node carries with the preferred value. */
  lemma MatchingExactlyWhen(placement: Placement, n: CandidateNode, k: string)
    ensures k in Matching(placement, n)
       <==> k in placement.preferLabels && k in n.labels && n.labels[k] == placement.preferLabels[k]
  {
  }

  /** No eligible candidate beats the pick: on 100 per matching label less the load, then on a
      lower load, then on a smaller id. */
  lemma PickIsOptimal(cs: seq<CandidateNode>, placement: Placement, load: string -> nat, id: string)
    requires Picks(EligibleKeys(cs, placement, load), Some(id))
    ensures exists w :: w in cs && w.nodeId == id && Eligible(placement, w) && Unbeaten(cs, placement, load, w)
  {
    var k :| IsBest(EligibleKeys(cs, placement, load), k) && k.id == id;
    var w :| w in cs && Eligible(placement, w) && KeyOf(placement, load, w) == k;
    forall n | n in cs && Eligible(placement, n)
      ensures NotBeatenBy(placement, load, w, n)
    {
      assert KeyOf(placement, load, n) in EligibleKeys(cs, placement, load);
    }
  }

  ghost predicate Unbeaten(cs: seq<CandidateNode>, placement: Placement, load: string -> nat, w: CandidateNode) {
    forall n :: n in cs && Eligible(placement, n) ==> NotBeatenBy(placement, load, w, n)
  }

  predicate NotBeatenBy(placement: Placement, load: string -> nat, w: CandidateNode, n: CandidateNode) {
    var sw, sn := 100 * |Matching(placement, w)| - load(w.nodeId), 100 * |Matching(placement, n)| - load(n.nodeId);
    || sw > sn
    || (sw == sn && load(w.nodeId) < load(n.nodeId))
    || (sw == sn && load(w.nodeId) == load(n.nodeId) && (w.nodeId == n.nodeId || IdLess(w.nodeId, n.nodeId)))
  }

  /** Ids are compared character by character: the first difference decides, a prefix comes first. */
  lemma {:induction false} IdLessExactlyWhen(a: string, b: string)
    ensures IdLess(a, b)
       <==> exists i :: 0 <= i < |b| && i <= |a| && a[..i] == b[..i] && (i == |a| || a[i] < b[i])
    decreases |a|
  {
    if b != [] && a != [] {
      if a[0] == b[0] {
        IdLessExactlyWhen(a[1..], b[1..]);
        if i :| 0 <= i < |b[1..]| && i <= |a[1..]| && a[1..][..i] == b[1..][..i]
                && (i == |a[1..]| || a[1..][i] < b[1..][i]) {
          Shifted(a, b, i);
        }
        if i :| 0 <= i < |b| && i <= |a| && a[..i] == b[..i] && (i == |a| || a[i] < b[i]) {
          assert i > 0;
          assert a[1..][..i - 1] == a[..i][1..] && b[1..][..i - 1] == b[..i][1..];
        }
      } else {
        assert a[..0] == b[..0];
        forall i | 0 < i < |b| && i <= |a|
          ensures a[..i] != b[..i]
        {
          assert a[..i][0] != b[..i][0];
        }
      }
    } else if b != [] {
      assert a[..0] == b[..0];
    }
  }

  lemma Shifted(a: string, b: string, i: nat)
    requires a != [] && b != [] && a[0] == b[0] && i <= |a| - 1 && i <= |b| - 1 && a[1..][..i] == b[1..][..i]
    ensures a[..i + 1] == b[..i + 1]
  {
    assert a[..i + 1] == [a[0]] + a[1..][..i] && b[..i + 1] == [b[0]] + b[1..][..i];
  }

  // ------------------------------------------------------------ preference against load

  /** A node matching more preferred labels ranks first exactly while its load exceeds
      the other's by less than 100 per extra label. */
  lemma PreferenceWinsExactlyWhen(
      placement: Placement, load: string -> nat, a: CandidateNode, b: CandidateNode)
    requires |Matching(placement, a)| > |Matching(placement, b)|
    ensures Before(KeyOf(placement, load, a), KeyOf(placement, load, b))
            <==> load(a.nodeId) - load(b.nodeId) < 100 * (|Matching(placement, a)| - |Matching(placement, b)|)
    ensures load(a.nodeId) - load(b.nodeId) < 100 ==> Before(KeyOf(placement, load, a), KeyOf(placement, load, b))
  {
  }

  /** A hundred running instances do override a label match. */
  lemma HundredInstancesOverrideALabel()
    ensures var p := Placement([], [], None, map[], map["site" := "belmont"]);
            var a := CandidateNode("a", Arm64, Linux, [], map["site" := "belmont"]);
            var b := CandidateNode("b", Arm64, Linux, [], map[]);
            var load := (id: string) => if id == "a" then 100 else 0;
            && Matching(p, a) == {"site"} && Matching(p, b) == {}
            && Before(KeyOf(p, load, b), KeyOf(p, load, a))
  {
  }

  /** Scores tie while loads differ exactly when the loads differ by 100 per label of difference. */
  lemma LoadBreaksTiesExactlyWhen(
      placement: Placement, load: string -> nat, a: CandidateNode, b: CandidateNode)
    ensures var ka, kb := KeyOf(placement, load, a), KeyOf(placement, load, b);
            ka.score == kb.score && ka.load != kb.load
            <==> load(a.nodeId) - load(b.nodeId) == 100 * (|Matching(placement, a)| - |Matching(placement, b)|)
                 && load(a.nodeId) != load(b.nodeId)
  {
  }

  // ------------------------------------------------------------ load over many dispatches

  /** The loads after one more instance on `id`. */
  function Raise(load: string -> nat, id: string): string -> nat {
    n => if n == id then load(n) + 1 else load(n)
  }

  /** `loads` is a sequence of dispatches: each raises the load of the node picked from the previous loads. */
  ghost predicate DispatchRun(candidates: seq<CandidateNode>, placement: Placement, loads: seq<string -> nat>) {
    forall i :: 0 <= i < |loads| - 1 ==> Dispatches(candidates, placement, loads[i], loads[i + 1])
  }

  ghost predicate Dispatches(
      candidates: seq<CandidateNode>, placement: Placement, load: string -> nat, load': string -> nat) {
    exists id ::
      Picks(EligibleKeys(candidates, placement, load), Some(id)) && forall n :: load'(n) == Raise(load, id)(n)
  }

  ghost predicate EvenPreferences(candidates: seq<CandidateNode>, placement: Placement) {
    forall a, b :: a in candidates && b in candidates && Eligible(placement, a) && Eligible(placement, b) ==>
      |Matching(placement, a)| == |Matching(placement, b)|
  }

  /** Loads of eligible nodes differ by at most `d`. */
  ghost predicate Spread(candidates: seq<CandidateNode>, placement: Placement, load: string -> nat, d: nat) {
    forall a, b :: a in candidates && b in candidates && Eligible(placement, a) && Eligible(placement, b) ==>
      load(a.nodeId) <= load(b.nodeId) + d
  }

  /** With even preferences the pick is an eligible node of least load. */
  lemma PickIsLeastLoaded(
      candidates: seq<CandidateNode>, placement: Placement, load: string -> nat, id: string)
    requires EvenPreferences(candidates, placement)
    requires Picks(EligibleKeys(candidates, placement, load), Some(id))
    ensures exists n :: n in candidates && Eligible(placement, n) && n.nodeId == id
    ensures forall n :: n in candidates && Eligible(placement, n) ==> load(id) <= load(n.nodeId)
  {
    var keys := EligibleKeys(candidates, placement, load);
    var k :| IsBest(keys, k) && k.id == id;
    var w :| w in candidates && Eligible(placement, w) && KeyOf(placement, load, w) == k;
    forall n | n in candidates && Eligible(placement, n)
      ensures load(id) <= load(n.nodeId)
    {
      assert KeyOf(placement, load, n) in keys;
    }
  }

  lemma DispatchKeepsSpread(
      candidates: seq<CandidateNode>, placement: Placement, load: string -> nat, load': string -> nat, d: nat)
    requires EvenPreferences(candidates, placement) && d >= 1 && Spread(candidates, placement, load, d)
    requires Dispatches(candidates, placement, load, load')
    ensures Spread(candidates, placement, load', d)
  {
    var id :| Picks(EligibleKeys(candidates, placement, load), Some(id)) && forall n :: load'(n) == Raise(load, id)(n);
    PickIsLeastLoaded(candidates, placement, load, id);
  }

  /** Balance: among equally preferred nodes a load difference of at most `d >= 1`
      survives any number of dispatches; in particular a difference of 1. */
  lemma {:induction false} DispatchesStayBalanced(
      candidates: seq<CandidateNode>, placement: Placement, loads: seq<string -> nat>, d: nat)
    requires EvenPreferences(candidates, placement) && d >= 1
    requires loads != [] && Spread(candidates, placement, loads[0], d) && DispatchRun(candidates, placement, loads)
    ensures Spread(candidates, placement, loads[|loads| - 1], d)
  {
    var m := |loads| - 1;
    if m > 0 {
      DispatchesStayBalanced(candidates, placement, loads[..m], d);
      assert loads[..m][m - 1] == loads[m - 1];
      DispatchKeepsSpread(candidates, placement, loads[m - 1], loads[m], d);
    }
  }

  /** How far the first `k` nodes are below the level `top`, in total. */
  function Gap(nodes: seq<string>, k: nat, load: string -> nat, top: nat): int
    requires k <= |nodes|
  {
    if k == 0 then 0 else Gap(nodes, k - 1, load, top) + (top - load(nodes[k - 1]))
  }

  /** `nodes` lists the ids of the eligible candidates once each, none above `top`. */
  ghost predicate Below(
      candidates: seq<CandidateNode>, placement: Placement, nodes: seq<string>, load: string -> nat, top: nat) {
    && NoDuplicates(nodes)
    && (forall n :: n in candidates && Eligible(placement, n) ==> n.nodeId in nodes)
    && (forall id :: id in nodes ==> load(id) <= top
                                     && exists n :: n in candidates && Eligible(placement, n) && n.nodeId == id)
  }

  lemma {:induction false} GapAfterRaise(
      nodes: seq<string>, k: nat, load: string -> nat, load': string -> nat, id: string, top: nat)
    requires k <= |nodes| && NoDuplicates(nodes) && forall n :: load'(n) == Raise(load, id)(n)
    ensures Gap(nodes, k, load', top) == Gap(nodes, k, load, top) - (if id in nodes[..k] then 1 else 0)
  {
    if k > 0 {
      GapAfterRaise(nodes, k - 1, load, load', id, top);
      assert nodes[..k] == nodes[..k - 1] + [nodes[k - 1]];
      assert nodes[k - 1] !in nodes[..k - 1];
    }
  }

  lemma {:induction false} GapIsPositive(nodes: seq<string>, k: nat, load: string -> nat, top: nat)
    requires k <= |nodes| && forall id :: id in nodes ==> load(id) <= top
    ensures Gap(nodes, k, load, top) >= 0
    ensures Gap(nodes, k, load, top) == 0 ==> forall i :: 0 <= i < k ==> load(nodes[i]) == top
    ensures Gap(nodes, k, load, top) > 0 ==> exists i :: 0 <= i < k && load(nodes[i]) < top
  {
    if k > 0 {
      GapIsPositive(nodes, k - 1, load, top);
      assert nodes[k - 1] in nodes;
    }
  }

  /** Evening out: from any loads, with `top` the highest, after exactly as many
      dispatches as the nodes are below `top` in total, every node is at `top`. */
  lemma {:induction false} DispatchesEvenOut(
      candidates: seq<CandidateNode>, placement: Placement, nodes: seq<string>, loads: seq<string -> nat>, top: nat)
    requires EvenPreferences(candidates, placement) && loads != [] && DispatchRun(candidates, placement, loads)
    requires Below(candidates, placement, nodes, loads[0], top)
    requires |loads| - 1 == Gap(nodes, |nodes|, loads[0], top)
    ensures forall id :: id in nodes ==> loads[|loads| - 1](id) == top
    decreases |loads|
  {
    GapIsPositive(nodes, |nodes|, loads[0], top);
    if |loads| == 1 {
      forall id | id in nodes
        ensures loads[0](id) == top
      {
        var i :| 0 <= i < |nodes| && nodes[i] == id;
      }
    } else {
      OneStepCloser(candidates, placement, nodes, loads[0], loads[1], top);
      assert DispatchRun(candidates, placement, loads[1..]) by {
        assert forall i :: 0 <= i < |loads| - 1 ==> loads[1..][i] == loads[i + 1];
      }
      DispatchesEvenOut(candidates, placement, nodes, loads[1..], top);
    }
  }

  lemma OneStepCloser(
      candidates: seq<CandidateNode>, placement: Placement, nodes: seq<string>,
      load: string -> nat, load': string -> nat, top: nat)
    requires EvenPreferences(candidates, placement) && Below(candidates, placement, nodes, load, top)
    requires Dispatches(candidates, placement, load, load') && Gap(nodes, |nodes|, load, top) > 0
    ensures Below(candidates, placement, nodes, load', top)
    ensures Gap(nodes, |nodes|, load', top) == Gap(nodes, |nodes|, load, top) - 1
  {
    var id :| Picks(EligibleKeys(candidates, placement, load), Some(id)) && forall n :: load'(n) == Raise(load, id)(n);
    PickIsLeastLoaded(candidates, placement, load, id);
    GapIsPositive(nodes, |nodes|, load, top);
    var i :| 0 <= i < |nodes| && load(nodes[i]) < top;
    assert nodes[i] in nodes;
    assert load(id) < top && id in nodes;
    assert nodes[..|nodes|] == nodes;
    GapAfterRaise(nodes, |nodes|, load, load', id, top);
  }
}
