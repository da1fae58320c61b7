/** Conservation of resources: what a node's counters say against the instances on it. */
module PlmAccounting {
  import opened PlmStore
  import opened PlmRuns

  /** What the live instances on a host add up to. */
  ghost function Live(s: Store, host: Id, k: Kind): int {
    SumOf(s.instances, On(s, host), k)
  }

  /** How far a node's counter is off. */
  ghost function Discrepancy(s: Store, host: Id, k: Kind): int {
    if host in s.nodes then Part(s.nodes[host], k) - Live(s, host, k) else 0
  }

  // ---------------------------------------------------------------- sums

  lemma {:induction false} SumPick(m: map<Id, Instance>, ids: set<Id>, i: Id, k: Kind)
    requires ids <= m.Keys && i in ids
    ensures SumOf(m, ids, k) == Part(UsageOf(m[i]), k) + SumOf(m, ids - {i}, k)
    decreases |ids|
  {
    var j :| j in ids && SumOf(m, ids, k) == Part(UsageOf(m[j]), k) + SumOf(m, ids - {j}, k);
    if j != i {
      SumPick(m, ids - {j}, i, k);
      SumPick(m, ids - {i}, j, k);
      assert ids - {j} - {i} == ids - {i} - {j};
    }
  }

  lemma {:induction false} SumAgree(m: map<Id, Instance>, n: map<Id, Instance>, ids: set<Id>, k: Kind)
    requires ids <= m.Keys && ids <= n.Keys && forall i :: i in ids ==> m[i] == n[i]
    ensures SumOf(m, ids, k) == SumOf(n, ids, k)
    decreases |ids|
  {
    if ids != {} {
      var i :| i in ids;
      SumPick(m, ids, i, k);
      SumPick(n, ids, i, k);
      SumAgree(m, n, ids - {i}, k);
    }
  }

  lemma {:induction false} SumSplit(m: map<Id, Instance>, a: set<Id>, b: set<Id>, k: Kind)
    requires a !! b && a <= m.Keys && b <= m.Keys
    ensures SumOf(m, a + b, k) == SumOf(m, a, k) + SumOf(m, b, k)
    decreases |a|
  {
    if a == {} {
      assert a + b == b;
    } else {
      var i :| i in a;
      SumPick(m, a, i, k);
      SumPick(m, a + b, i, k);
      SumSplit(m, a - {i}, b, k);
      assert a + b - {i} == (a - {i}) + b;
    }
  }

  /** An instance that counts for nothing but one instance. */
  predicate Weightless(i: Instance) {
    i.vcpus == 0 && i.vmemKb < 1024
  }

  lemma {:induction false} PartNonNegative(i: Instance, k: Kind)
    ensures Part(UsageOf(i), k) >= 0
    ensures k != Instances && Weightless(i) ==> Part(UsageOf(i), k) == 0
    ensures Part(UsageOf(i), Vcpus) == 0 && Part(UsageOf(i), Vmem) == 0 ==> Weightless(i)
  {
  }

  lemma {:induction false} SumNonNegative(m: map<Id, Instance>, ids: set<Id>, k: Kind)
    requires ids <= m.Keys
    ensures SumOf(m, ids, k) >= 0
    decreases |ids|
  {
    if ids != {} {
      var i :| i in ids;
      SumPick(m, ids, i, k);
      PartNonNegative(m[i], k);
      SumNonNegative(m, ids - {i}, k);
    }
  }

  ghost predicate AllWeightless(m: map<Id, Instance>, ids: set<Id>)
    requires ids <= m.Keys
  {
    forall i :: i in ids ==> Weightless(m[i])
  }

  lemma {:induction false} WeightlessSum(m: map<Id, Instance>, ids: set<Id>, k: Kind)
    requires ids <= m.Keys && AllWeightless(m, ids) && k != Instances
    ensures SumOf(m, ids, k) == 0
    decreases |ids|
  {
    if ids != {} {
      var i :| i in ids;
      SumPick(m, ids, i, k);
      PartNonNegative(m[i], k);
      WeightlessSum(m, ids - {i}, k);
    }
  }

  /** Sums of amounts vanish exactly when each of them does. */
  lemma {:induction false} SumZeroExactly(m: map<Id, Instance>, ids: set<Id>)
    requires ids <= m.Keys
    ensures SumOf(m, ids, Vcpus) == 0 && SumOf(m, ids, Vmem) == 0 <==> AllWeightless(m, ids)
  {
    if AllWeightless(m, ids) {
      WeightlessSum(m, ids, Vcpus);
      WeightlessSum(m, ids, Vmem);
    } else {
      var i :| i in ids && !Weightless(m[i]);
      forall k: Kind ensures SumOf(m, ids, k) >= Part(UsageOf(m[i]), k) >= 0 {
        SumPick(m, ids, i, k);
        PartNonNegative(m[i], k);
        SumNonNegative(m, ids - {i}, k);
      }
      PartNonNegative(m[i], Vcpus);
    }
  }

  // ---------------------------------------------------------------- pieces of a call

  lemma {:induction false} PartPlus(u: Usage, v: Usage, k: Kind)
    ensures Part(u.Plus(v), k) == Part(u, k) + Part(v, k)
    ensures Part(NONE.Minus(u), k) == -Part(u, k)
  {
  }

  lemma {:induction false} CountedPart(s: Store, h: Id, u: Usage, host: Id, k: Kind)
    requires h in s.nodes && host in s.nodes
    ensures Part(Count(s, h, u).nodes[host], k) == Part(s.nodes[host], k) + if host == h then Part(u, k) else 0
    ensures Live(Count(s, h, u), host, k) == Live(s, host, k)
  {
    PartPlus(s.nodes[h], u, k);
    SameLive(s, Count(s, h, u), host, k);
  }

  lemma {:induction false} SameLive(s: Store, t: Store, host: Id, k: Kind)
    requires t.instances == s.instances
    ensures Live(t, host, k) == Live(s, host, k)
  {
    assert On(t, host) == On(s, host);
  }

  /** What the instance now recorded under a name counts for on a host. */
  function Occupied(s: Store, id: Id, host: Id, k: Kind): int {
    if id in s.instances && s.instances[id].host == host then Part(UsageOf(s.instances[id]), k) else 0
  }

  lemma {:induction false} LiveWithout(s: Store, id: Id, host: Id, k: Kind)
    ensures On(s, host) - {id} <= s.instances.Keys
    ensures Live(s, host, k) == SumOf(s.instances, On(s, host) - {id}, k) + Occupied(s, id, host, k)
  {
    if id in On(s, host) {
      SumPick(s.instances, On(s, host), id, k);
    } else {
      assert On(s, host) - {id} == On(s, host);
    }
  }

  /** A new record counts, and the one it overwrites no longer does. */
  lemma {:induction false} RecordedLive(s: Store, id: Id, h: Id, vcpus: nat, kb: nat, disks: seq<Id>, byPlm: bool,
                                        host: Id, k: Kind)
    ensures Live(RecordInstance(s, id, h, vcpus, kb, disks, byPlm).store, host, k) ==
      Live(s, host, k) - Occupied(s, id, host, k) + if host == h then Part(Usage(vcpus, kb / 1024, 1), k) else 0
  {
    var t := RecordInstance(s, id, h, vcpus, kb, disks, byPlm).store;
    LiveWithout(s, id, host, k);
    LiveWithout(t, id, host, k);
    assert On(t, host) - {id} == On(s, host) - {id};
    SumAgree(t.instances, s.instances, On(s, host) - {id}, k);
  }

  lemma {:induction false} PurgedLive(s: Store, h: Id, gone: set<Id>, host: Id, k: Kind)
    requires gone <= s.instances.Keys
    ensures Live(Purge(s, h, gone), host, k) == Live(s, host, k) - SumOf(s.instances, gone * On(s, host), k)
  {
    var t := Purge(s, h, gone);
    var rest, lost := On(s, host) - gone, gone * On(s, host);
    assert On(t, host) == rest && rest + lost == On(s, host);
    SumAgree(t.instances, s.instances, rest, k);
    SumSplit(s.instances, rest, lost, k);
  }

  // ---------------------------------------------------------------- the law of every call

  /** What a run leaves on a node's counters: the whole request if it fails after its
      placement, and what it overwrites if its name is in use. */
  function RunLeak(s: Store, r: RunRequest, host: Id, k: Kind): int {
    if r.host !in s.nodes then 0
    else if !Reaches(s, r) then if r.host == host then Part(RequestOf(r), k) else 0
    else Occupied(s, r.id, host, k)
  }

  /** Stale removal adds amounts that it should take off. */
  ghost function StaleLeak(s: Store, h: Id, gone: set<Id>, host: Id, k: Kind): int
    requires gone <= s.instances.Keys
  {
    (if h == host then Part(StaleCount(Sum(s.instances, gone)), k) else 0) + SumOf(s.instances, gone * On(s, host), k)
  }

  /** It overwrites an instance and is not counted itself. */
  function DomainLeak(s: Store, h: Id, found: seq<FoundDomain>, host: Id, k: Kind): int {
    if NamesFree(s, found) then 0
    else
      var d := FirstTaken(s, found);
      Occupied(s, d.id, host, k) - if h == host then Part(Usage(d.vcpus, d.vmemKb / 1024, 1), k) else 0
  }

  /** A new node starts at zero, whatever instances it had before. */
  ghost function NewNodeLeak(s: Store, h: Id, found: Hypervisor, host: Id, k: Kind): int {
    (if h == host then -Live(s, h, k) else 0) +
    if Discoverable(s, found) then DomainLeak(s, h, found.domains, host, k) else 0
  }

  /** What one call adds to the discrepancy of a node. */
  ghost function Leak(s: Store, c: Call, host: Id, k: Kind): int {
    match c
    case InstanceRun(r) => RunLeak(s, r, host, k)
    case NodeRegister(h, found, reached) =>
      if h in s.nodes then StaleLeak(s, h, Removed(s, h, found.domains, reached), host, k)
      else NewNodeLeak(s, h, found, host, k)
    case _ => 0
  }

  lemma {:induction false} RunLaw(s: Store, r: RunRequest, host: Id, k: Kind)
    requires host in s.nodes
    ensures host in Run(s, r).store.nodes
    ensures Discrepancy(Run(s, r).store, host, k) == Discrepancy(s, host, k) + RunLeak(s, r, host, k)
  {
    if r.host in s.nodes {
      var placed := Count(s, r.host, RequestOf(r));
      CountedPart(s, r.host, RequestOf(r), host, k);
      var images := CreateImages(placed, r.images);
      PlacedImages(s, r);
      SameLive(placed, images.store, host, k);
      RecordedLive(images.store, r.id, r.host, r.vcpus, r.vmem * 1024, r.disks, true, host, k);
      MegabytesBack(r.vmem);
    }
  }

  /** MB to KB and back. */
  lemma {:induction false} MegabytesBack(mb: nat)
    ensures mb * 1024 / 1024 == mb
  {
  }

  lemma {:induction false} DestroyLaw(s: Store, id: Id, stuck: set<Id>, host: Id, k: Kind)
    requires host in s.nodes
    ensures host in Destroy(s, id, stuck).store.nodes
    ensures Discrepancy(Destroy(s, id, stuck).store, host, k) == Discrepancy(s, host, k)
  {
    if id in s.instances && s.instances[id].byPlm {
      var i := s.instances[id];
      var dropped := DropDisks(s, i.disks, stuck);
      SameLive(s, dropped.store, host, k);
      if !dropped.result.Raised? {
        var t := dropped.store;
        PurgedLive(t, i.host, {id}, host, k);
        OneGone(t, id, host, k);
        if i.host in t.nodes {
          CountedPart(Purge(t, i.host, {id}), i.host, NONE.Minus(UsageOf(i)), host, k);
          PartPlus(UsageOf(i), NONE, k);
        }
      }
    }
  }

  lemma {:induction false} OneGone(s: Store, id: Id, host: Id, k: Kind)
    requires id in s.instances
    ensures SumOf(s.instances, {id} * On(s, host), k) == Occupied(s, id, host, k)
  {
    if id in On(s, host) {
      assert {id} * On(s, host) == {id} && {id} - {id} == {};
      SumPick(s.instances, {id}, id, k);
    } else {
      assert {id} * On(s, host) == {};
    }
  }

  lemma {:induction false} StaleLaw(s: Store, h: Id, found: seq<FoundDomain>, reached: set<Id>, host: Id, k: Kind)
    requires host in s.nodes && h in s.nodes
    ensures host in RemoveStale(s, h, found, reached).store.nodes
    ensures Discrepancy(RemoveStale(s, h, found, reached).store, host, k) ==
      Discrepancy(s, host, k) + StaleLeak(s, h, Removed(s, h, found, reached), host, k)
  {
    var gone := Removed(s, h, found, reached);
    if gone == {} {
      assert gone * On(s, host) == {};
    } else {
      PurgedAndCounted(s, h, gone, StaleCount(Sum(s.instances, gone)), host, k);
    }
  }

  lemma {:induction false} PurgedAndCounted(s: Store, h: Id, gone: set<Id>, u: Usage, host: Id, k: Kind)
    requires host in s.nodes && h in s.nodes && gone <= s.instances.Keys
    ensures host in Count(Purge(s, h, gone), h, u).nodes
    ensures Discrepancy(Count(Purge(s, h, gone), h, u), host, k) ==
      Discrepancy(s, host, k) + (if h == host then Part(u, k) else 0) + SumOf(s.instances, gone * On(s, host), k)
  {
    PurgedLive(s, h, gone, host, k);
    CountedPart(Purge(s, h, gone), h, u, host, k);
  }

  lemma {:induction false} DomainsLaw(s: Store, h: Id, found: seq<FoundDomain>, host: Id, k: Kind)
    requires h in s.nodes && host in s.nodes && DistinctNames(found)
    ensures host in RecordDomains(s, h, found).store.nodes
    ensures Discrepancy(RecordDomains(s, h, found).store, host, k) ==
      Discrepancy(s, host, k) + DomainLeak(s, h, found, host, k)
  {
    if found != [] {
      var front, d := found[..|found| - 1], found[|found| - 1];
      DomainsLaw(s, h, front, host, k);
      DomainsCompleteExactly(s, h, front);
      NamesFreeStep(s, found);
      if NamesFree(s, front) {
        assert !Named(front, d.id);
        DomainLaw(s, RecordDomains(s, h, front).store, h, d, host, k);
      }
    }
  }

  lemma {:induction false} DomainLaw(s: Store, t: Store, h: Id, d: FoundDomain, host: Id, k: Kind)
    requires h in t.nodes && host in t.nodes && (d.id in t.instances <==> d.id in s.instances)
    requires d.id in s.instances ==> t.instances[d.id] == s.instances[d.id]
    ensures host in RecordDomain(t, h, d).store.nodes
    ensures Discrepancy(RecordDomain(t, h, d).store, host, k) == Discrepancy(t, host, k) +
      if d.id !in s.instances then 0
      else Occupied(s, d.id, host, k) - if h == host then Part(Usage(d.vcpus, d.vmemKb / 1024, 1), k) else 0
  {
    var u := RecordInstance(t, d.id, h, d.vcpus, d.vmemKb, d.disks, d.byPlm).store;
    RecordedLive(t, d.id, h, d.vcpus, d.vmemKb, d.disks, d.byPlm, host, k);
    CountedPart(u, h, Usage(d.vcpus, d.vmemKb / 1024, 1), host, k);
  }

  lemma {:induction false} NewNodeLaw(s: Store, h: Id, found: Hypervisor, host: Id, k: Kind)
    requires h !in s.nodes && (host == h || host in s.nodes)
    ensures host in RegisterNew(s, h, found).store.nodes
    ensures Discrepancy(RegisterNew(s, h, found).store, host, k) ==
      Discrepancy(s, host, k) + NewNodeLeak(s, h, found, host, k)
  {
    var t := Discover(WithNode(s, h), found).store;
    SameLive(s, t, host, k);
    DiscoveryCompletesExactly(s, h, found);
    DomainsLaw(t, h, found.domains, host, k);
    SameTaken(s, t, found.domains);
  }

  /** Every call, whatever the store: each counter of a node that is registered afterwards
      is off by what it was off before, plus the leak. */
  lemma {:induction false} StepLaw(s: Store, c: Call, host: Id, k: Kind)
    requires host in Step(s, c).store.nodes
    ensures Discrepancy(Step(s, c).store, host, k) == Discrepancy(s, host, k) + Leak(s, c, host, k)
  {
    NodesAfter(s, c);
    match c
    case NodeRegister(h, found, reached) =>
      if h in s.nodes { StaleLaw(s, h, found.domains, reached, host, k); } else { NewNodeLaw(s, h, found, host, k); }
    case InstanceRun(r) => RunLaw(s, r, host, k);
    case InstanceDestroy(id, stuck) => DestroyLaw(s, id, stuck, host, k);
    case _ => SameLive(s, Step(s, c).store, host, k);
  }

  /** No call but a registration adds a node. */
  lemma {:induction false} NodesAfter(s: Store, c: Call)
    ensures Step(s, c).store.nodes.Keys <= s.nodes.Keys + if c.NodeRegister? then {c.host} else {}
  {
    if c.NodeRegister? && c.host !in s.nodes {
      var t := Discover(WithNode(s, c.host), c.found).store;
      DomainNodes(t, c.host, c.found.domains);
    }
  }

  lemma {:induction false} DomainNodes(s: Store, h: Id, found: seq<FoundDomain>)
    requires h in s.nodes
    ensures RecordDomains(s, h, found).store.nodes.Keys == s.nodes.Keys
  {
    if found != [] { DomainNodes(s, h, found[..|found| - 1]); }
  }

  // ---------------------------------------------------------------- which calls leak

  /** While the lists are right, a call leaks on a host if it is a run there that cannot
      complete, or a registration that removes a stale instance with CPUs or memory. */
  ghost predicate Leaks(s: Store, c: Call, host: Id) {
    match c
    case InstanceRun(r) => r.host == host && !(Reaches(s, r) && r.id !in s.instances)
    case NodeRegister(h, found, reached) =>
      h == host && h in s.nodes && !AllWeightless(s.instances, Removed(s, h, found.domains, reached))
    case _ => false
  }

  ghost predicate LeaksNothing(s: Store, c: Call, host: Id) {
    Leak(s, c, host, Vcpus) == 0 && Leak(s, c, host, Vmem) == 0 && Leak(s, c, host, Instances) == 0
  }

  lemma {:induction false} RunLeakSign(s: Store, r: RunRequest, host: Id, k: Kind)
    requires host in s.nodes && KeepsLists(s, InstanceRun(r))
    ensures RunLeak(s, r, host, k) >= 0
    ensures !Leaks(s, InstanceRun(r), host) ==> RunLeak(s, r, host, k) == 0
    ensures Leaks(s, InstanceRun(r), host) && k == Instances ==> RunLeak(s, r, host, k) == 1
  {
  }

  lemma {:induction false} NewNodeLeaksNothing(s: Store, h: Id, found: Hypervisor, host: Id, k: Kind)
    requires Consistent(s) && h !in s.nodes && KeepsLists(s, NodeRegister(h, found, {}))
    ensures NewNodeLeak(s, h, found, host, k) == 0
  {
    if Discoverable(s, found) { NewNodeFree(s, h, found); }
    assert On(s, h) == {};
  }

  lemma {:induction false} OneHostLeak(s: Store, h: Id, gone: set<Id>, host: Id, k: Kind)
    requires gone <= s.instances.Keys && forall i :: i in gone ==> s.instances[i].host == h
    ensures StaleLeak(s, h, gone, host, k) == if h == host && k != Instances then 2 * SumOf(s.instances, gone, k) else 0
  {
    if h == host {
      assert gone * On(s, host) == gone;
    } else {
      assert gone * On(s, host) == {};
    }
  }

  /** With right lists a registration leaks on its own node only: twice the CPUs and memory
      of the stale instances; their number is right. */
  lemma {:induction false} RegisterLeakIs(s: Store, h: Id, found: Hypervisor, reached: set<Id>, host: Id, k: Kind)
    requires Consistent(s) && KeepsLists(s, NodeRegister(h, found, reached)) && (host == h || host in s.nodes)
    ensures Leak(s, NodeRegister(h, found, reached), host, k) ==
      if h == host && h in s.nodes && k != Instances then 2 * SumOf(s.instances, Removed(s, h, found.domains, reached), k)
      else 0
    ensures Leak(s, NodeRegister(h, found, reached), host, k) >= 0
  {
    if h in s.nodes {
      var gone := Removed(s, h, found.domains, reached);
      forall i | i in gone ensures s.instances[i].host == h {
        assert i in ListOf(s, h);
      }
      OneHostLeak(s, h, gone, host, k);
      SumNonNegative(s.instances, gone, k);
    } else {
      NewNodeLeaksNothing(s, h, found, host, k);
    }
  }

  lemma {:induction false} RegisterLeakExactly(s: Store, h: Id, found: Hypervisor, reached: set<Id>, host: Id)
    requires Consistent(s) && KeepsLists(s, NodeRegister(h, found, reached)) && (host == h || host in s.nodes)
    ensures LeaksNothing(s, NodeRegister(h, found, reached), host) <==> !Leaks(s, NodeRegister(h, found, reached), host)
  {
    RegisterLeakIs(s, h, found, reached, host, Vcpus);
    RegisterLeakIs(s, h, found, reached, host, Vmem);
    RegisterLeakIs(s, h, found, reached, host, Instances);
    if h == host && h in s.nodes { SumZeroExactly(s.instances, Removed(s, h, found.domains, reached)); }
  }

  lemma {:induction false} LeakExactly(s: Store, c: Call, host: Id)
    requires Consistent(s) && KeepsConsistent(s, c) && host in Step(s, c).store.nodes
    ensures LeaksNothing(s, c, host) <==> !Leaks(s, c, host)
  {
    NodesAfter(s, c);
    match c
    case InstanceRun(r) =>
      RunLeakSign(s, r, host, Vcpus);
      RunLeakSign(s, r, host, Vmem);
      RunLeakSign(s, r, host, Instances);
    case NodeRegister(h, found, reached) => RegisterLeakExactly(s, h, found, reached, host);
    case _ =>
  }

  lemma {:induction false} LeakNonNegative(s: Store, c: Call, host: Id, k: Kind)
    requires Consistent(s) && KeepsConsistent(s, c) && host in Step(s, c).store.nodes
    ensures Leak(s, c, host, k) >= 0
  {
    NodesAfter(s, c);
    match c
    case InstanceRun(r) => RunLeakSign(s, r, host, k);
    case NodeRegister(h, found, reached) => RegisterLeakIs(s, h, found, reached, host, k);
    case _ =>
  }

  // ---------------------------------------------------------------- whole runs

  /** Everything that leaked on a host since its registration, the registration included. */
  ghost function Leaked(calls: seq<Call>, stores: seq<Store>, n: nat, host: Id, k: Kind): int
    requires n <= |calls| && |stores| == |calls| + 1
  {
    if n == 0 then 0
    else (if host in stores[n - 1].nodes then Leaked(calls, stores, n - 1, host, k) else 0) +
         Leak(stores[n - 1], calls[n - 1], host, k)
  }

  /** After every run, whatever its calls, each counter of every registered node is the sum
      over the instances on it plus exactly what the calls leaked. */
  lemma {:induction false} CountersAccounted(calls: seq<Call>, stores: seq<Store>, n: nat, host: Id, k: Kind)
    requires History(calls, stores) && n <= |calls|
    ensures host in stores[n].nodes ==>
      Part(stores[n].nodes[host], k) == Live(stores[n], host, k) + Leaked(calls, stores, n, host, k)
  {
    if n > 0 && host in stores[n].nodes {
      CountersAccounted(calls, stores, n - 1, host, k);
      assert Follows(stores, calls, n - 1);
      StepLaw(stores[n - 1], calls[n - 1], host, k);
    }
  }

  /** No call since the host was registered leaked on it. */
  ghost predicate Tight(calls: seq<Call>, stores: seq<Store>, n: nat, host: Id)
    requires n <= |calls| && |stores| == |calls| + 1
  {
    forall i :: 0 <= i < n && RegisteredSince(stores, i, n, host) ==> !Leaks(stores[i], calls[i], host)
  }

  ghost predicate RegisteredSince(stores: seq<Store>, i: nat, n: nat, host: Id)
    requires n < |stores|
  {
    forall j :: i <= j <= n ==> host in stores[j].nodes
  }

  ghost predicate LeakedNothing(calls: seq<Call>, stores: seq<Store>, n: nat, host: Id)
    requires n <= |calls| && |stores| == |calls| + 1
  {
    Leaked(calls, stores, n, host, Vcpus) == 0 && Leaked(calls, stores, n, host, Vmem) == 0 &&
    Leaked(calls, stores, n, host, Instances) == 0
  }

  lemma {:induction false} LeakedNonNegative(calls: seq<Call>, stores: seq<Store>, n: nat, host: Id, k: Kind)
    requires History(calls, stores) && n <= |calls| && host in stores[n].nodes
    requires forall i :: 0 <= i < n ==> KeepsConsistent(stores[i], calls[i])
    ensures Leaked(calls, stores, n, host, k) >= 0
  {
    if n > 0 {
      AlwaysConsistentExactly(calls, stores, n - 1);
      assert Consistent(stores[n - 1]) && Follows(stores, calls, n - 1);
      LeakNonNegative(stores[n - 1], calls[n - 1], host, k);
      if host in stores[n - 1].nodes { LeakedNonNegative(calls, stores, n - 1, host, k); }
    }
  }

  lemma {:induction false} LeakedExactly(calls: seq<Call>, stores: seq<Store>, n: nat, host: Id)
    requires History(calls, stores) && n <= |calls| && host in stores[n].nodes
    requires forall i :: 0 <= i < n ==> KeepsConsistent(stores[i], calls[i])
    ensures LeakedNothing(calls, stores, n, host) <==> Tight(calls, stores, n, host)
  {
    if n > 0 {
      var s, c := stores[n - 1], calls[n - 1];
      AlwaysConsistentExactly(calls, stores, n - 1);
      assert Consistent(s) && Follows(stores, calls, n - 1);
      LeakExactly(s, c, host);
      if host in s.nodes {
        LeakedExactly(calls, stores, n - 1, host);
        TightStep(calls, stores, n, host);
        NothingExactly(calls, stores, n, host);
      } else {
        assert !Leaks(s, c, host);
        assert forall i :: 0 <= i < n ==> !RegisteredSince(stores, i, n, host);
      }
    }
  }

  /** Leaks are never negative, so they cannot cancel out. */
  lemma {:induction false} NothingExactly(calls: seq<Call>, stores: seq<Store>, n: nat, host: Id)
    requires History(calls, stores) && 0 < n <= |calls| && host in stores[n - 1].nodes && host in stores[n].nodes
    requires forall i :: 0 <= i < n ==> KeepsConsistent(stores[i], calls[i])
    ensures LeakedNothing(calls, stores, n, host) <==>
      LeakedNothing(calls, stores, n - 1, host) && LeaksNothing(stores[n - 1], calls[n - 1], host)
  {
    KindExactly(calls, stores, n, host, Vcpus);
    KindExactly(calls, stores, n, host, Vmem);
    KindExactly(calls, stores, n, host, Instances);
  }

  lemma {:induction false} KindExactly(calls: seq<Call>, stores: seq<Store>, n: nat, host: Id, k: Kind)
    requires History(calls, stores) && 0 < n <= |calls| && host in stores[n - 1].nodes && host in stores[n].nodes
    requires forall i :: 0 <= i < n ==> KeepsConsistent(stores[i], calls[i])
    ensures Leaked(calls, stores, n, host, k) == 0 <==>
      Leaked(calls, stores, n - 1, host, k) == 0 && Leak(stores[n - 1], calls[n - 1], host, k) == 0
  {
    AlwaysConsistentExactly(calls, stores, n - 1);
    assert Consistent(stores[n - 1]) && Follows(stores, calls, n - 1);
    LeakedNonNegative(calls, stores, n - 1, host, k);
    LeakNonNegative(stores[n - 1], calls[n - 1], host, k);
  }

  lemma {:induction false} TightStep(calls: seq<Call>, stores: seq<Store>, n: nat, host: Id)
    requires 0 < n <= |calls| && |stores| == |calls| + 1
    requires host in stores[n - 1].nodes && host in stores[n].nodes
    ensures Tight(calls, stores, n, host) <==>
      Tight(calls, stores, n - 1, host) && !Leaks(stores[n - 1], calls[n - 1], host)
  {
    assert RegisteredSince(stores, n - 1, n, host);
    forall i | 0 <= i < n - 1
      ensures RegisteredSince(stores, i, n, host) <==> RegisteredSince(stores, i, n - 1, host)
    {
    }
  }

  /** The node's three counters are what its live instances add up to. */
  ghost predicate Agrees(s: Store, host: Id)
    requires host in s.nodes
  {
    && s.nodes[host].vcpus == Live(s, host, Vcpus)
    && s.nodes[host].vmem == Live(s, host, Vmem)
    && s.nodes[host].instances == Live(s, host, Instances)
  }

  /** After every run that keeps the lists right, a node's three counters agree with its live
      instances exactly when, since its registration, every run on it could complete and no
      stale instance with CPUs or memory was removed from it. */
  lemma {:induction false} ConservedExactly(calls: seq<Call>, stores: seq<Store>, n: nat, host: Id)
    requires History(calls, stores) && n <= |calls| && host in stores[n].nodes
    requires forall i :: 0 <= i < n ==> KeepsConsistent(stores[i], calls[i])
    ensures Agrees(stores[n], host) <==> Tight(calls, stores, n, host)
  {
    LeakedExactly(calls, stores, n, host);
    CountersAccounted(calls, stores, n, host, Vcpus);
    CountersAccounted(calls, stores, n, host, Vmem);
    CountersAccounted(calls, stores, n, host, Instances);
  }
}
