/** What the larger calls leave behind, record by record and number by number. */
module PlmEffects {
  import opened PlmStore
  import opened Wrappers
  import opened PlmRuns
  import opened PlmAccounting
  import opened PlmDisks
  import opened PlmOwners

  // ---------------------------------------------------------------- sums over instances

  /** The sums that counters are compared with, one instance at a time. */
  lemma {:induction false} SumLaws(m: map<Id, Instance>, ids: set<Id>, i: Id)
    requires ids <= m.Keys && i in m && i !in ids
    ensures forall k :: SumOf(m, {}, k) == 0
    ensures SumOf(m, ids + {i}, Vcpus) == SumOf(m, ids, Vcpus) + m[i].vcpus
    ensures SumOf(m, ids + {i}, Vmem) == SumOf(m, ids, Vmem) + m[i].vmemKb / 1024
    ensures SumOf(m, ids + {i}, Instances) == SumOf(m, ids, Instances) + 1
  {
    assert ids + {i} - {i} == ids;
    SumPick(m, ids + {i}, i, Vcpus);
    SumPick(m, ids + {i}, i, Vmem);
    SumPick(m, ids + {i}, i, Instances);
  }

  lemma {:induction false} SumCounts(m: map<Id, Instance>, ids: set<Id>)
    requires ids <= m.Keys
    ensures SumOf(m, ids, Instances) == |ids|
    decreases |ids|
  {
    if ids != {} {
      var i :| i in ids;
      SumPick(m, ids, i, Instances);
      SumCounts(m, ids - {i});
    }
  }

  // ---------------------------------------------------------------- stale removal

  /** Instances on the host's list whose domain is gone leave, and what they had is added to
      the node's counters, only their number taken off. */
  ghost predicate StaleGone(s: Store, t: Store, host: Id, found: seq<FoundDomain>, gone: set<Id>)
    requires host in s.nodes && gone <= s.instances.Keys
  {
    && (forall i :: i in gone ==> i in ListOf(s, host) && !Named(found, i))
    && t.instances == s.instances - gone
    && ListOf(t, host) == ListOf(s, host) - gone && (forall h :: h != host ==> ListOf(t, h) == ListOf(s, h))
    && t.nodes == s.nodes[host := Usage(s.nodes[host].vcpus + SumOf(s.instances, gone, Vcpus),
                                        s.nodes[host].vmem + SumOf(s.instances, gone, Vmem),
                                        s.nodes[host].instances - |gone|)]
    && t.volumes == s.volumes && t.pools == s.pools
  }

  lemma {:induction false} PurgedStore(s: Store, host: Id, found: seq<FoundDomain>, gone: set<Id>)
    requires host in s.nodes && gone <= s.instances.Keys && gone <= Stale(s, host, found) && gone != {}
    ensures StaleGone(s, Count(Purge(s, host, gone), host, StaleCount(Sum(s.instances, gone))), host, found, gone)
  {
    SumCounts(s.instances, gone);
    NotNamed(s, host, found);
    var t := Count(Purge(s, host, gone), host, StaleCount(Sum(s.instances, gone)));
    forall h | h != host ensures ListOf(t, h) == ListOf(s, h) { }
  }

  lemma {:induction false} NotNamed(s: Store, host: Id, found: seq<FoundDomain>)
    ensures forall i :: i in Stale(s, host, found) <==> i in ListOf(s, host) && !Named(found, i)
  {
    forall i ensures i in Names(found) <==> Named(found, i) { }
  }

  lemma {:induction false} NothingGone(s: Store, host: Id, found: seq<FoundDomain>)
    requires host in s.nodes
    ensures StaleGone(s, s, host, found, {})
  {
    assert s.instances - {} == s.instances;
    assert s.nodes[host] == Usage(s.nodes[host].vcpus + 0, s.nodes[host].vmem + 0, s.nodes[host].instances - 0);
    assert s.nodes[host := s.nodes[host]] == s.nodes;
  }

  /** It gets through exactly if each of them has a record. */
  lemma {:induction false} StaleRemovalLeaves(s: Store, host: Id, found: seq<FoundDomain>, reached: set<Id>)
    requires host in s.nodes
    ensures var r, gone := RemoveStale(s, host, found, reached), Removed(s, host, found, reached);
      && StaleGone(s, r.store, host, found, gone)
      && (r.result.Done? <==> forall i :: i in ListOf(s, host) && !Named(found, i) ==> i in s.instances)
      && (r.result.Done? ==> forall i :: i in ListOf(s, host) && !Named(found, i) ==> i in gone)
      && (r.result.Raised? <==> !r.result.Done?)
  {
    var gone := Removed(s, host, found, reached);
    if gone == {} { NothingGone(s, host, found); } else { PurgedStore(s, host, found, gone); }
    NotNamed(s, host, found);
  }

  // ---------------------------------------------------------------- registration of a new node

  /** The first entry of a pool among those found. */
  predicate FirstEntry(found: seq<FoundPool>, j: nat)
    requires j < |found|
  {
    forall i :: 0 <= i < j ==> found[i].pool != found[j].pool
  }

  /** The pool is recorded, and with the count of this entry if it is its first. */
  predicate EntryAdded(s: Store, t: Store, found: seq<FoundPool>, j: nat)
    requires j < |found|
  {
    && found[j].pool in t.pools
    && (FirstEntry(found, j) && found[j].pool !in s.pools ==>
         t.pools[found[j].pool] == Pool(found[j].count, found[j].count))
  }

  ghost predicate PoolsAdded(s: Store, t: Store, found: seq<FoundPool>) {
    && (forall p :: p in s.pools ==> p in t.pools && t.pools[p] == s.pools[p])
    && (forall j :: 0 <= j < |found| ==> EntryAdded(s, t, found, j))
    && (forall p :: p in t.pools ==> p in s.pools || exists j :: 0 <= j < |found| && found[j].pool == p)
  }

  lemma {:induction false} VolumesKeepPools(s: Store, found: seq<FoundVolume>)
    ensures RecordVolumes(s, found).store.pools == s.pools
  {
    if found != [] { VolumesKeepPools(s, found[..|found| - 1]); }
  }

  lemma {:induction false} FoundPoolsAdded(s: Store, found: seq<FoundPool>)
    requires RecordPools(s, found).result.Done?
    ensures PoolsAdded(s, RecordPools(s, found).store, found)
  {
    if found != [] {
      PoolVolumesCompleteExactly(s, found[..|found| - 1]);
      FoundPoolsAdded(s, found[..|found| - 1]);
      var t, last := RecordPools(s, found[..|found| - 1]).store, found[|found| - 1];
      VolumesKeepPools(WithPool(t, last), last.volumes);
      OneMorePool(s, t, RecordPools(s, found).store, found);
    }
  }

  lemma {:induction false} OneMorePool(s: Store, t: Store, u: Store, found: seq<FoundPool>)
    requires found != [] && PoolsAdded(s, t, found[..|found| - 1])
    requires u.pools == WithPool(t, found[|found| - 1]).pools
    ensures PoolsAdded(s, u, found)
  {
    forall j | 0 <= j < |found| ensures EntryAdded(s, u, found, j) {
      if j < |found| - 1 { EntryStays(s, t, u, found, j); } else { EntryNew(s, t, u, found); }
    }
    NoOtherPool(s, t, u, found);
  }

  lemma {:induction false} EntryStays(s: Store, t: Store, u: Store, found: seq<FoundPool>, j: nat)
    requires j < |found| - 1 && EntryAdded(s, t, found[..|found| - 1], j)
    requires forall p :: p in t.pools ==> p in u.pools && u.pools[p] == t.pools[p]
    ensures EntryAdded(s, u, found, j)
  {
    var front := found[..|found| - 1];
    assert forall i :: 0 <= i <= j ==> front[i] == found[i];
  }

  lemma {:induction false} EntryNew(s: Store, t: Store, u: Store, found: seq<FoundPool>)
    requires found != [] && PoolsAdded(s, t, found[..|found| - 1])
    requires u.pools == WithPool(t, found[|found| - 1]).pools
    ensures EntryAdded(s, u, found, |found| - 1)
  {
    var front, n := found[..|found| - 1], |found| - 1;
    if FirstEntry(found, n) && found[n].pool !in s.pools {
      forall j | 0 <= j < n ensures front[j].pool != found[n].pool { assert front[j] == found[j]; }
      assert found[n].pool !in t.pools;
    }
  }

  lemma {:induction false} NoOtherPool(s: Store, t: Store, u: Store, found: seq<FoundPool>)
    requires found != [] && PoolsAdded(s, t, found[..|found| - 1])
    requires u.pools == WithPool(t, found[|found| - 1]).pools
    ensures forall p :: p in u.pools ==> p in s.pools || exists j :: 0 <= j < |found| && found[j].pool == p
  {
    var front, n := found[..|found| - 1], |found| - 1;
    forall p | p in u.pools && p !in s.pools ensures exists j :: 0 <= j < |found| && found[j].pool == p {
      if p in t.pools {
        var j :| 0 <= j < n && front[j].pool == p;
        assert found[j].pool == p;
      } else {
        assert found[n].pool == p;
      }
    }
  }

  ghost predicate MissingCreated(s: Store, t: Store, missing: seq<PoolRequest>) {
    && (forall p :: p in s.pools ==> p in t.pools && t.pools[p] == s.pools[p])
    && (forall j :: 0 <= j < |missing| ==>
         missing[j].pool in t.pools && t.pools[missing[j].pool] == Pool(missing[j].count, missing[j].count))
    && (forall p :: p in t.pools ==> p in s.pools || exists j :: 0 <= j < |missing| && missing[j].pool == p)
    && t.volumes == s.volumes
  }

  lemma {:induction false} MissingAreCreated(s: Store, missing: seq<PoolRequest>)
    requires PoolsNew(s, missing)
    ensures CreatePools(s, missing).result.Done?
    ensures MissingCreated(s, CreatePools(s, missing).store, missing)
  {
    PoolsCompleteExactly(s, missing);
    if missing != [] {
      var front, n := missing[..|missing| - 1], |missing| - 1;
      PoolsNewBefore(s, missing);
      MissingAreCreated(s, front);
      OneMoreMissing(s, CreatePools(s, front).store, missing);
    }
  }

  lemma {:induction false} PoolsNewBefore(s: Store, missing: seq<PoolRequest>)
    requires missing != [] && PoolsNew(s, missing)
    ensures PoolsNew(s, missing[..|missing| - 1])
  {
    var front := missing[..|missing| - 1];
    forall k | 0 <= k < |front| ensures PoolNew(s, front, k) { assert PoolNew(s, missing, k) && front[k] == missing[k]; }
  }

  lemma {:induction false} OneMoreMissing(s: Store, t: Store, missing: seq<PoolRequest>)
    requires missing != [] && MissingCreated(s, t, missing[..|missing| - 1]) && PoolNew(s, missing, |missing| - 1)
    ensures MissingCreated(s, CreatePool(t, missing[|missing| - 1]).store, missing)
  {
    var front, last, n := missing[..|missing| - 1], missing[|missing| - 1], |missing| - 1;
    var u := CreatePool(t, last).store;
    forall j | 0 <= j < n ensures front[j] == missing[j] && missing[j].pool != last.pool { }
    forall p | p in u.pools && p !in s.pools ensures exists j :: 0 <= j < |missing| && missing[j].pool == p {
      if p == last.pool {
        assert missing[n].pool == p;
      } else {
        var j :| 0 <= j < n && front[j].pool == p;
        assert missing[j].pool == p;
      }
    }
  }

  /** The pools after a registration: those recorded before as they were, the missing ones and
      the others found with the numbers of volumes found in them, and no more. */
  ghost predicate PoolsRegistered(s: Store, t: Store, found: Hypervisor) {
    && (forall p :: p in s.pools ==> p in t.pools && t.pools[p] == s.pools[p])
    && (forall j :: 0 <= j < |found.missing| ==>
         found.missing[j].pool in t.pools &&
         t.pools[found.missing[j].pool] == Pool(found.missing[j].count, found.missing[j].count))
    && (forall j :: 0 <= j < |found.pools| ==> found.pools[j].pool in t.pools)
    && (forall j :: 0 <= j < |found.pools| && NewEntry(s, found, j) ==>
         t.pools[found.pools[j].pool] == Pool(found.pools[j].count, found.pools[j].count))
    && (forall p :: p in t.pools ==>
         p in s.pools || IsMissing(found.missing, p) || exists j :: 0 <= j < |found.pools| && found.pools[j].pool == p)
  }

  /** The first entry of a pool that was neither recorded nor missing. */
  predicate NewEntry(s: Store, found: Hypervisor, j: nat)
    requires j < |found.pools|
  {
    FirstEntry(found.pools, j) && found.pools[j].pool !in s.pools && !IsMissing(found.missing, found.pools[j].pool)
  }

  predicate IsMissing(missing: seq<PoolRequest>, p: Id) {
    exists j :: 0 <= j < |missing| && missing[j].pool == p
  }

  lemma {:induction false} DiscoveryLeaves(s: Store, found: Hypervisor)
    requires Discover(s, found).result.Done?
    ensures PoolsRegistered(s, Discover(s, found).store, found)
  {
    PoolsCompleteExactly(s, found.missing);
    MissingAreCreated(s, found.missing);
    var t := CreatePools(s, found.missing).store;
    FoundPoolsAdded(t, found.pools);
    BothAdded(s, t, Discover(s, found).store, found);
  }

  lemma {:induction false} BothAdded(s: Store, t: Store, u: Store, found: Hypervisor)
    requires MissingCreated(s, t, found.missing) && PoolsAdded(t, u, found.pools)
    ensures PoolsRegistered(s, u, found)
  {
    forall j | 0 <= j < |found.pools| ensures found.pools[j].pool in u.pools { assert EntryAdded(t, u, found.pools, j); }
    forall j | 0 <= j < |found.pools| && NewEntry(s, found, j)
      ensures u.pools[found.pools[j].pool] == Pool(found.pools[j].count, found.pools[j].count)
    {
      assert EntryAdded(t, u, found.pools, j);
    }
    forall p | p in t.pools ensures p in s.pools || IsMissing(found.missing, p) { }
  }

  /** Every volume found is recorded without a pool, and those recorded before are kept. */
  ghost predicate VolumesRegistered(s: Store, t: Store, pools: seq<FoundPool>) {
    && (forall v :: v in t.volumes <==> v in s.volumes || Among(FoundVolumes(pools), v))
    && (forall v :: v in t.volumes ==> t.volumes[v].pool == if v in s.volumes then s.volumes[v].pool else None)
  }

  /** A volume is found if it is in the listing of one of the pools. */
  lemma {:induction false} FoundSomewhere(pools: seq<FoundPool>, v: Id)
    ensures Among(FoundVolumes(pools), v) <==> exists j :: 0 <= j < |pools| && Among(pools[j].volumes, v)
  {
    if pools != [] {
      var front, last := pools[..|pools| - 1], pools[|pools| - 1];
      FoundSomewhere(front, v);
      AmongConcat(FoundVolumes(front), last.volumes, v);
      if j :| 0 <= j < |front| && Among(front[j].volumes, v) { assert Among(pools[j].volumes, v); }
      if Among(last.volumes, v) { assert Among(pools[|pools| - 1].volumes, v); }
      if j :| 0 <= j < |pools| && Among(pools[j].volumes, v) { assert j < |front| ==> Among(front[j].volumes, v); }
    }
  }

  lemma {:induction false} AmongConcat(a: seq<FoundVolume>, b: seq<FoundVolume>, v: Id)
    ensures Among(a + b, v) <==> Among(a, v) || Among(b, v)
  {
    var all := a + b;
    if j :| 0 <= j < |a| && a[j].recorded && a[j].volume == v { assert all[j] == a[j]; }
    if j :| 0 <= j < |b| && b[j].recorded && b[j].volume == v { assert all[|a| + j] == b[j]; }
    if j :| 0 <= j < |all| && all[j].recorded && all[j].volume == v {
      assert if j < |a| then a[j] == all[j] else b[j - |a|] == all[j];
    }
  }

  lemma {:induction false} DiscoveryVolumes(s: Store, found: Hypervisor)
    requires Discover(s, found).result.Done?
    ensures VolumesRegistered(s, Discover(s, found).store, found.pools)
  {
    PoolsCompleteExactly(s, found.missing);
    PoolVolumesCompleteExactly(CreatePools(s, found.missing).store, found.pools);
    DiscoverKeepsVolumes(s, found);
  }

  function TotalVcpus(found: seq<FoundDomain>): int {
    if found == [] then 0 else TotalVcpus(found[..|found| - 1]) + found[|found| - 1].vcpus
  }

  function TotalMb(found: seq<FoundDomain>): int {
    if found == [] then 0 else TotalMb(found[..|found| - 1]) + found[|found| - 1].vmemKb / 1024
  }

  /** The record of a found domain. */
  ghost predicate IsRecordOf(i: Instance, host: Id, d: FoundDomain, volumes: set<Id>) {
    && i.host == host && i.vcpus == d.vcpus && i.vmemKb == d.vmemKb && i.byPlm == d.byPlm && |i.disks| == |d.disks|
    && forall x :: 0 <= x < |d.disks| ==> i.disks[x] == Disk(d.disks[x], d.disks[x] in volumes)
  }

  ghost predicate InstancesRecorded(s: Store, t: Store, host: Id, found: seq<FoundDomain>, volumes: set<Id>) {
    && (forall i :: i in t.instances <==> i in s.instances || Named(found, i))
    && (forall i :: i in s.instances ==> t.instances[i] == s.instances[i])
    && (forall k :: 0 <= k < |found| ==>
         found[k].id in t.instances && IsRecordOf(t.instances[found[k].id], host, found[k], volumes))
  }

  /** The last of the found domains, after the others. */
  lemma {:induction false} LastDomain(s: Store, host: Id, found: seq<FoundDomain>)
    requires host in s.nodes && DistinctNames(found) && NamesFree(s, found) && found != []
    ensures NamesFree(s, found[..|found| - 1])
    ensures var d := found[|found| - 1];
      var t, u := RecordDomains(s, host, found[..|found| - 1]).store, RecordDomains(s, host, found).store;
      && host in t.nodes && d.id !in t.instances && !Named(found[..|found| - 1], d.id)
      && u.nodes == t.nodes[host := t.nodes[host].Plus(Usage(d.vcpus, d.vmemKb / 1024, 1))] && u.pools == t.pools
      && u.instances == t.instances[d.id := Instance(host, d.vcpus, d.vmemKb, DisksOf(t, d.disks), d.byPlm)]
      && u.lists == t.lists[host := ListOf(t, host) + {d.id}]
      && u.volumes == SetOwner(t.volumes, d.disks, Some(d.id))
  {
    NamesFreeStep(s, found);
    DomainsCompleteExactly(s, host, found[..|found| - 1]);
  }

  lemma {:induction false} DomainsRecorded(s: Store, host: Id, found: seq<FoundDomain>)
    requires host in s.nodes && DistinctNames(found) && NamesFree(s, found)
    ensures InstancesRecorded(s, RecordDomains(s, host, found).store, host, found, s.volumes.Keys)
  {
    if found != [] {
      var front := found[..|found| - 1];
      LastDomain(s, host, found);
      DomainsRecorded(s, host, front);
      DomainsOwn(s, host, front);
      OneMoreRecord(s, RecordDomains(s, host, front).store, RecordDomains(s, host, found).store, host, found);
    }
  }

  lemma {:induction false} OneMoreRecord(s: Store, t: Store, u: Store, host: Id, found: seq<FoundDomain>)
    requires found != [] && DistinctNames(found) && t.volumes.Keys == s.volumes.Keys
    requires InstancesRecorded(s, t, host, found[..|found| - 1], s.volumes.Keys)
    requires found[|found| - 1].id !in t.instances
    requires var d := found[|found| - 1];
      u.instances == t.instances[d.id := Instance(host, d.vcpus, d.vmemKb, DisksOf(t, d.disks), d.byPlm)]
    ensures InstancesRecorded(s, u, host, found, s.volumes.Keys)
  {
    var front, last, n := found[..|found| - 1], found[|found| - 1], |found| - 1;
    forall i ensures Named(found, i) <==> Named(front, i) || last.id == i { NamedStep(found, i); }
    forall k | 0 <= k < |found|
      ensures found[k].id in u.instances && IsRecordOf(u.instances[found[k].id], host, found[k], s.volumes.Keys)
    {
      if k < n {
        assert front[k] == found[k] && found[k].id != last.id;
      } else {
        NewRecord(t, host, last, s.volumes.Keys);
      }
    }
  }

  lemma {:induction false} NewRecord(t: Store, host: Id, d: FoundDomain, volumes: set<Id>)
    requires t.volumes.Keys == volumes
    ensures IsRecordOf(Instance(host, d.vcpus, d.vmemKb, DisksOf(t, d.disks), d.byPlm), host, d, volumes)
  {
  }

  ghost predicate ListGrown(s: Store, t: Store, host: Id, found: seq<FoundDomain>) {
    && (forall i :: i in ListOf(t, host) <==> i in ListOf(s, host) || Named(found, i))
    && (forall h :: h != host ==> ListOf(t, h) == ListOf(s, h))
  }

  lemma {:induction false} DomainsListed(s: Store, host: Id, found: seq<FoundDomain>)
    requires host in s.nodes && DistinctNames(found) && NamesFree(s, found)
    ensures ListGrown(s, RecordDomains(s, host, found).store, host, found)
  {
    if found != [] {
      var front, last := found[..|found| - 1], found[|found| - 1];
      LastDomain(s, host, found);
      DomainsListed(s, host, front);
      var t, u := RecordDomains(s, host, front).store, RecordDomains(s, host, found).store;
      forall i ensures Named(found, i) <==> Named(front, i) || last.id == i { NamedStep(found, i); }
      assert ListOf(u, host) == ListOf(t, host) + {last.id};
      forall h | h != host ensures ListOf(u, h) == ListOf(t, h) { }
    }
  }

  lemma {:induction false} DomainsCounted(s: Store, host: Id, found: seq<FoundDomain>)
    requires host in s.nodes && DistinctNames(found) && NamesFree(s, found)
    ensures var t := RecordDomains(s, host, found).store;
      && t.pools == s.pools && t.nodes == s.nodes[host := GrownBy(s.nodes[host], found)]
  {
    if found != [] {
      LastDomain(s, host, found);
      DomainsCounted(s, host, found[..|found| - 1]);
      GrownByStep(s.nodes[host], found);
    } else {
      GrownByNothing(s.nodes[host]);
    }
  }

  function GrownBy(u: Usage, found: seq<FoundDomain>): Usage {
    Usage(u.vcpus + TotalVcpus(found), u.vmem + TotalMb(found), u.instances + |found|)
  }

  lemma {:induction false} GrownByStep(u: Usage, found: seq<FoundDomain>)
    requires found != []
    ensures var d := found[|found| - 1];
      GrownBy(u, found) == GrownBy(u, found[..|found| - 1]).Plus(Usage(d.vcpus, d.vmemKb / 1024, 1))
  {
  }

  lemma {:induction false} GrownByNothing(u: Usage)
    ensures GrownBy(u, []) == u
  {
  }

  /** The last found domain that lists a volume owns it. */
  ghost predicate LastOwns(volumes: map<Id, Volume>, found: seq<FoundDomain>, v: Id)
    requires v in volumes
  {
    forall k :: 0 <= k < |found| && v in found[k].disks && !Claimed(found[k + 1..], v) ==>
      volumes[v].owner == Some(found[k].id)
  }

  ghost predicate DisksTaken(s: Store, t: Store, found: seq<FoundDomain>) {
    && t.volumes.Keys == s.volumes.Keys
    && (forall v :: v in s.volumes ==> t.volumes[v].pool == s.volumes[v].pool && LastOwns(t.volumes, found, v))
    && (forall v :: v in s.volumes && !Claimed(found, v) ==> t.volumes[v].owner == s.volumes[v].owner)
  }

  lemma {:induction false} DomainsTake(s: Store, host: Id, found: seq<FoundDomain>)
    requires host in s.nodes && DistinctNames(found) && NamesFree(s, found)
    ensures DisksTaken(s, RecordDomains(s, host, found).store, found)
  {
    if found != [] {
      var front, last := found[..|found| - 1], found[|found| - 1];
      LastDomain(s, host, found);
      DomainsTake(s, host, front);
      var t, u := RecordDomains(s, host, front).store, RecordDomains(s, host, found).store;
      forall v | v in s.volumes
        ensures u.volumes[v].pool == s.volumes[v].pool && LastOwns(u.volumes, found, v)
        ensures !Claimed(found, v) ==> u.volumes[v].owner == s.volumes[v].owner
      {
        ClaimedStep(found, v);
        LastOwnsStep(t.volumes, u.volumes, found, v);
      }
    }
  }

  lemma {:induction false} LastOwnsStep(before: map<Id, Volume>, after: map<Id, Volume>, found: seq<FoundDomain>, v: Id)
    requires found != [] && v in before && v in after && LastOwns(before, found[..|found| - 1], v)
    requires after[v].owner == if v in found[|found| - 1].disks then Some(found[|found| - 1].id) else before[v].owner
    ensures LastOwns(after, found, v)
  {
    var front, last, n := found[..|found| - 1], found[|found| - 1], |found| - 1;
    forall k | 0 <= k < |found| && v in found[k].disks && !Claimed(found[k + 1..], v)
      ensures after[v].owner == Some(found[k].id)
    {
      if k < n {
        ClaimedStep(found[k + 1..], v);
        assert found[k + 1..][..n - k - 1] == front[k + 1..] && front[k] == found[k];
      }
    }
  }

  /** All that a completed registration of a new node leaves. */
  ghost predicate Registered(s: Store, t: Store, host: Id, found: Hypervisor) {
    && PoolsRegistered(s, t, found)
    && VolumesRegistered(s, t, found.pools)
    && (forall v :: v in t.volumes ==> LastOwns(t.volumes, found.domains, v))
    && (forall v :: v in t.volumes && !Claimed(found.domains, v) ==>
         t.volumes[v].owner == if v in s.volumes then s.volumes[v].owner else None)
    && InstancesRecorded(s, t, host, found.domains, t.volumes.Keys)
    && ListGrown(s, t, host, found.domains)
    && t.nodes == s.nodes[host := Usage(TotalVcpus(found.domains), TotalMb(found.domains), |found.domains|)]
  }

  lemma {:induction false} RegistrationCompletes(s: Store, host: Id, found: Hypervisor)
    requires host !in s.nodes
    ensures RegisterNew(s, host, found).result.Done? <==> Discoverable(s, found) && NamesFree(s, found.domains)
    ensures RegisterNew(s, host, found).result.Raised? <==> !(Discoverable(s, found) && NamesFree(s, found.domains))
  {
    DiscoveryCompletesExactly(s, host, found);
    var u := Discover(WithNode(s, host), found).store;
    DomainsCompleteExactly(u, host, found.domains);
    SameTaken(s, u, found.domains);
  }

  /** A discovery that stops leaves the node recorded with nothing on it, and a volume that
      had a record without an owner. */
  lemma {:induction false} StoppedRegistration(s: Store, host: Id, found: Hypervisor)
    requires host !in s.nodes && !Discoverable(s, found)
    ensures var t := RegisterNew(s, host, found).store;
      t.nodes == s.nodes[host := Usage(0, 0, 0)] && t.instances == s.instances && t.lists == s.lists
  {
    DiscoveryCompletesExactly(s, host, found);
  }

  lemma {:induction false} TakenVolumeReleased(s: Store, found: seq<FoundVolume>, k: nat)
    requires k < |found| && VolumesNew(s, found[..k]) && found[k].recorded && found[k].volume in s.volumes
    ensures var r := RecordVolumes(s, found); var v := found[k].volume;
      r.result.Raised? && v in r.store.volumes && r.store.volumes[v] == s.volumes[v].(owner := None)
    decreases |found|
  {
    var front, n := found[..|found| - 1], |found| - 1;
    if k < n {
      assert front[..k] == found[..k];
      TakenVolumeReleased(s, front, k);
    } else {
      VolumesCompleteExactly(s, s, [], front);
      assert [] + front == front;
      VolumesExtend(s, front);
    }
  }

  lemma {:induction false} RegistrationLeaves(s: Store, host: Id, found: Hypervisor)
    requires host !in s.nodes && Discoverable(s, found) && NamesFree(s, found.domains)
    ensures Registered(s, RegisterNew(s, host, found).store, host, found)
  {
    var t := WithNode(s, host);
    DiscoveryCompletesExactly(s, host, found);
    DiscoveryLeaves(t, found);
    DiscoveryVolumes(t, found);
    DiscoverKeepsVolumes(t, found);
    var u := Discover(t, found).store;
    SameTaken(s, u, found.domains);
    DomainsLeave(u, host, found.domains);
    Composed(s, u, RecordDomains(u, host, found.domains).store, host, found);
  }

  lemma {:induction false} DomainsLeave(s: Store, host: Id, found: seq<FoundDomain>)
    requires host in s.nodes && DistinctNames(found) && NamesFree(s, found)
    ensures var t := RecordDomains(s, host, found).store;
      && InstancesRecorded(s, t, host, found, s.volumes.Keys) && ListGrown(s, t, host, found) && DisksTaken(s, t, found)
      && t.pools == s.pools && t.nodes == s.nodes[host := GrownBy(s.nodes[host], found)]
  {
    DomainsRecorded(s, host, found);
    DomainsListed(s, host, found);
    DomainsCounted(s, host, found);
    DomainsTake(s, host, found);
  }

  lemma {:induction false} Composed(s: Store, u: Store, w: Store, host: Id, found: Hypervisor)
    requires SameInstances(WithNode(s, host), u) && Extends(s, u)
    requires PoolsRegistered(WithNode(s, host), u, found) && VolumesRegistered(WithNode(s, host), u, found.pools)
    requires InstancesRecorded(u, w, host, found.domains, u.volumes.Keys) && ListGrown(u, w, host, found.domains)
    requires DisksTaken(u, w, found.domains) && w.pools == u.pools
    requires w.nodes == u.nodes[host := GrownBy(NONE, found.domains)]
    ensures Registered(s, w, host, found)
  {
    ComposedPools(s, u, w, host, found);
    ComposedVolumes(s, u, w, host, found);
    ComposedInstances(s, u, w, host, found.domains);
  }

  lemma {:induction false} ComposedInstances(s: Store, u: Store, w: Store, host: Id, found: seq<FoundDomain>)
    requires u.instances == s.instances && u.lists == s.lists && w.volumes.Keys == u.volumes.Keys
    requires InstancesRecorded(u, w, host, found, u.volumes.Keys) && ListGrown(u, w, host, found)
    ensures InstancesRecorded(s, w, host, found, w.volumes.Keys) && ListGrown(s, w, host, found)
  {
    forall h ensures ListOf(u, h) == ListOf(s, h) { }
  }

  lemma {:induction false} ComposedPools(s: Store, u: Store, w: Store, host: Id, found: Hypervisor)
    requires PoolsRegistered(WithNode(s, host), u, found) && w.pools == u.pools
    ensures PoolsRegistered(s, w, found)
  {
    forall j | 0 <= j < |found.pools| ensures NewEntry(WithNode(s, host), found, j) <==> NewEntry(s, found, j) { }
  }

  lemma {:induction false} ComposedVolumes(s: Store, u: Store, w: Store, host: Id, found: Hypervisor)
    requires Extends(s, u) && VolumesRegistered(WithNode(s, host), u, found.pools) && DisksTaken(u, w, found.domains)
    ensures VolumesRegistered(s, w, found.pools)
    ensures forall v :: v in w.volumes ==> LastOwns(w.volumes, found.domains, v)
    ensures forall v :: v in w.volumes && !Claimed(found.domains, v) ==>
      w.volumes[v].owner == if v in s.volumes then s.volumes[v].owner else None
  {
  }

  // ---------------------------------------------------------------- running an instance

  /** How many images get a record in a pool. */
  function Landed(images: seq<VolumeRequest>, p: Id): nat {
    if images == [] then 0
    else
      var last := images[|images| - 1];
      Landed(images[..|images| - 1], p) + if last.recorded && last.landing == p then 1 else 0
  }

  ghost predicate PoolsGained(s: Store, t: Store, images: seq<VolumeRequest>) {
    && t.pools.Keys == s.pools.Keys
    && forall p :: p in s.pools ==> t.pools[p] == Pool(s.pools[p].volumes + Landed(images, p), s.pools[p].atRegistration)
  }

  lemma {:induction false} ImagesMovePools(s: Store, images: seq<VolumeRequest>)
    requires ImagesOk(s, images)
    ensures PoolsGained(s, CreateImages(s, images).store, images)
  {
    if images == [] {
      assert CreateImages(s, images).store == s;
    } else {
      var front, n := images[..|images| - 1], |images| - 1;
      ImagesOkStep(s, images);
      ImagesCompleteExactly(s, images);
      ImagesCompleteExactly(s, front);
      ImagesMovePools(s, front);
      ImageMovesPools(s, CreateImages(s, front).store, images);
    }
  }

  lemma {:induction false} ImageMovesPools(s: Store, t: Store, images: seq<VolumeRequest>)
    requires images != [] && PoolsGained(s, t, images[..|images| - 1])
    requires CreateVolume(t, images[|images| - 1]).result.Done?
    ensures PoolsGained(s, CreateVolume(t, images[|images| - 1]).store, images)
  {
  }

  /** What a run leaves: its request on the node's counters in any case, and if it gets as far
      as its record, the images as volumes, the record, its disks and a list entry. */
  ghost predicate RunLeft(s: Store, t: Store, r: RunRequest)
    requires r.host in s.nodes
  {
    var n := s.nodes[r.host];
    && t.nodes == s.nodes[r.host := Usage(n.vcpus + r.vcpus, n.vmem + r.vmem, n.instances + 1)]
    && if Reaches(s, r) then Recorded(s, t, r) && ImagesLeft(s, t, r) && PoolsGained(s, t, r.images)
       else t.instances == s.instances && t.lists == s.lists && EarlierKept(s, t, r.images)
  }

  /** Images that were created before one that fails stay. */
  ghost predicate EarlierKept(s: Store, t: Store, images: seq<VolumeRequest>) {
    && (forall v :: v in s.volumes ==> v in t.volumes)
    && forall k :: 0 <= k < |images| && Made(s, images, k) ==> images[k].volume in t.volumes
  }

  /** The k-th image and those before it can be created, and it gets a record. */
  predicate Made(s: Store, images: seq<VolumeRequest>, k: nat)
    requires k < |images|
  {
    ImagesOk(s, images[..k + 1]) && images[k].recorded
  }

  lemma {:induction false} EarlierStay(s: Store, images: seq<VolumeRequest>)
    ensures EarlierKept(s, CreateImages(s, images).store, images)
  {
    if images != [] {
      var front, n := images[..|images| - 1], |images| - 1;
      EarlierStay(s, front);
      ImagesCompleteExactly(s, front);
      forall k | 0 <= k < |images| && Made(s, images, k)
        ensures images[k].volume in CreateImages(s, images).store.volumes
      {
        if k < n {
          assert front[..k + 1] == images[..k + 1] && front[k] == images[k];
        } else {
          assert images[..n + 1] == images;
          ImagesVolumes(s, images);
        }
      }
    }
  }

  ghost predicate Recorded(s: Store, t: Store, r: RunRequest) {
    && r.id in t.instances && t.instances == s.instances[r.id := t.instances[r.id]]
    && IsRecordOf(t.instances[r.id], r.host, FoundDomain(r.id, r.vcpus, r.vmem * 1024, r.disks, true), t.volumes.Keys)
    && ListOf(t, r.host) == ListOf(s, r.host) + (if r.id in s.instances then {} else {r.id})
    && forall h :: h != r.host ==> ListOf(t, h) == ListOf(s, h)
  }

  ghost predicate ImagesLeft(s: Store, t: Store, r: RunRequest) {
    && (forall v :: v in t.volumes <==> v in s.volumes || Earlier(r.images, |r.images|, v))
    && (forall v :: v in t.volumes && v in r.disks ==> t.volumes[v].owner == Some(r.id))
    && (forall v :: v in s.volumes ==> t.volumes[v].pool == s.volumes[v].pool)
    && (forall v :: v in s.volumes && v !in r.disks ==> t.volumes[v].owner == s.volumes[v].owner)
    && (forall j :: 0 <= j < |r.images| && r.images[j].recorded ==> ImageLeft(t, r, j))
  }

  ghost predicate ImageLeft(t: Store, r: RunRequest, j: nat)
    requires j < |r.images|
  {
    var v := r.images[j].volume;
    && v in t.volumes && t.volumes[v].pool == Some(r.images[j].landing)
    && (v !in r.disks ==> t.volumes[v].owner.None?)
  }

  lemma {:induction false} RunLeaves(s: Store, r: RunRequest)
    requires r.host in s.nodes
    ensures RunLeft(s, Run(s, r).store, r)
  {
    var placed := Count(s, r.host, RequestOf(r));
    PlacedImages(s, r);
    EarlierStay(placed, r.images);
    SameMade(s, placed, r.images);
    if Reaches(s, r) { ReachedLeaves(s, r); }
  }

  lemma {:induction false} SameMade(s: Store, t: Store, images: seq<VolumeRequest>)
    requires t.volumes == s.volumes && t.pools == s.pools
    ensures forall k :: 0 <= k < |images| ==> (Made(t, images, k) <==> Made(s, images, k))
  {
    forall k | 0 <= k < |images| ensures Made(t, images, k) <==> Made(s, images, k) {
      SameImagesOk(s, t, images[..k + 1]);
    }
  }

  lemma {:induction false} ReachedLeaves(s: Store, r: RunRequest)
    requires r.host in s.nodes && Reaches(s, r)
    ensures var t := Run(s, r).store; Recorded(s, t, r) && ImagesLeft(s, t, r) && PoolsGained(s, t, r.images)
  {
    var placed := Count(s, r.host, RequestOf(r));
    SameImagesOk(s, placed, r.images);
    ImagesCompleteExactly(placed, r.images);
    ImagesVolumes(placed, r.images);
    ImagesMovePools(placed, r.images);
    RecordLeaves(s, CreateImages(placed, r.images).store, Run(s, r).store, r);
  }

  lemma {:induction false} RecordLeaves(s: Store, t: Store, u: Store, r: RunRequest)
    requires t.instances == s.instances && t.lists == s.lists
    requires u == RecordInstance(t, r.id, r.host, r.vcpus, r.vmem * 1024, r.disks, true).store
    requires forall v :: v in t.volumes <==> v in s.volumes || Earlier(r.images, |r.images|, v)
    requires forall v :: v in s.volumes ==> v in t.volumes && t.volumes[v] == s.volumes[v]
    requires forall j :: 0 <= j < |r.images| && r.images[j].recorded ==>
      r.images[j].volume in t.volumes && t.volumes[r.images[j].volume] == Volume(Some(r.images[j].landing), None)
    ensures Recorded(s, u, r) && ImagesLeft(s, u, r)
  {
    assert u.volumes == SetOwner(t.volumes, r.disks, Some(r.id));
    forall j | 0 <= j < |r.images| && r.images[j].recorded ensures ImageLeft(u, r, j) { }
    forall h ensures ListOf(t, h) == ListOf(s, h) { }
    RunRecord(t, u, r);
  }

  lemma {:induction false} RunRecord(t: Store, u: Store, r: RunRequest)
    requires u == RecordInstance(t, r.id, r.host, r.vcpus, r.vmem * 1024, r.disks, true).store
    ensures Recorded(t, u, r)
  {
    forall h | h != r.host ensures ListOf(u, h) == ListOf(t, h) { }
  }

  // ---------------------------------------------------------------- destroying an instance

  /** How many recorded disks carry a pool's uuid. */
  function Freed(disks: seq<Disk>, volumes: map<Id, Volume>, p: Id): nat {
    if disks == [] then 0
    else
      var last := disks[|disks| - 1];
      Freed(disks[..|disks| - 1], volumes, p) +
      if last.recorded && last.volume in volumes && volumes[last.volume].pool == Some(p) then 1 else 0
  }

  ghost predicate PoolsFreed(s: Store, t: Store, disks: seq<Disk>) {
    && t.pools.Keys == s.pools.Keys
    && forall p :: p in s.pools ==>
         t.pools[p] == Pool(s.pools[p].volumes - Freed(disks, s.volumes, p), s.pools[p].atRegistration)
  }

  lemma {:induction false} DropsMovePools(s: Store, disks: seq<Disk>, stuck: set<Id>)
    requires Drops(s, disks, stuck)
    ensures PoolsFreed(s, DropDisks(s, disks, stuck).store, disks)
  {
    if disks == [] {
      assert DropDisks(s, disks, stuck).store == s;
    } else {
      var front, last := disks[..|disks| - 1], disks[|disks| - 1];
      DropsStep(s, disks, stuck);
      DropsMovePools(s, front, stuck);
      DropDisksExactly(s, front, stuck);
      DropDisksExactly(s, disks, stuck);
      DropMovesPools(s, DropDisks(s, front, stuck).store, disks, stuck);
    }
  }

  lemma {:induction false} DropMovesPools(s: Store, t: Store, disks: seq<Disk>, stuck: set<Id>)
    requires disks != [] && Dropped(s, t, disks[..|disks| - 1])
    requires PoolsFreed(s, t, disks[..|disks| - 1])
    requires DropDisk(t, disks[|disks| - 1], stuck).result.Done?
    ensures PoolsFreed(s, DropDisk(t, disks[|disks| - 1], stuck).store, disks)
  {
    var last := disks[|disks| - 1];
    assert last.volume in s.volumes && t.volumes[last.volume].pool == s.volumes[last.volume].pool;
  }

  /** What destroying an instance of the manager's own leaves: no trace of it if its disks can
      be dropped, and it as it was if not. */
  ghost predicate DestroyLeft(s: Store, t: Store, id: Id, stuck: set<Id>)
    requires id in s.instances
  {
    var i := s.instances[id];
    if !Drops(s, i.disks, stuck) then
      t.nodes == s.nodes && t.instances == s.instances && t.lists == s.lists && EarlierDropped(s, t, i.disks, stuck)
    else
      && t.instances == s.instances - {id}
      && ListOf(t, i.host) == ListOf(s, i.host) - {id} && (forall h :: h != i.host ==> ListOf(t, h) == ListOf(s, h))
      && t.nodes.Keys == s.nodes.Keys && (forall h :: h in s.nodes && h != i.host ==> t.nodes[h] == s.nodes[h])
      && (i.host in s.nodes ==> var n := s.nodes[i.host];
            t.nodes[i.host] == Usage(n.vcpus - i.vcpus, n.vmem - i.vmemKb / 1024, n.instances - 1))
      && Dropped(s, t, i.disks) && PoolsFreed(s, t, i.disks)
  }

  /** Disks that were deleted before one that fails are gone. */
  ghost predicate EarlierDropped(s: Store, t: Store, disks: seq<Disk>, stuck: set<Id>) {
    && (forall v :: v in t.volumes ==> v in s.volumes)
    && forall k :: 0 <= k < |disks| && Drops(s, disks[..k + 1], stuck) && disks[k].recorded ==>
         disks[k].volume !in t.volumes
  }

  lemma {:induction false} LastGoes(s: Store, disks: seq<Disk>, stuck: set<Id>)
    requires disks != [] && Drops(s, disks, stuck) && disks[|disks| - 1].recorded
    ensures disks[|disks| - 1].volume !in DropDisks(s, disks, stuck).store.volumes
  {
    DropDisksExactly(s, disks, stuck);
    assert Deleted(disks, disks[|disks| - 1].volume);
  }

  lemma {:induction false} EarlierGo(s: Store, disks: seq<Disk>, stuck: set<Id>)
    ensures EarlierDropped(s, DropDisks(s, disks, stuck).store, disks, stuck)
  {
    if disks != [] {
      var front, n := disks[..|disks| - 1], |disks| - 1;
      EarlierGo(s, front, stuck);
      forall k | 0 <= k < |disks| && Drops(s, disks[..k + 1], stuck) && disks[k].recorded
        ensures disks[k].volume !in DropDisks(s, disks, stuck).store.volumes
      {
        if k < n {
          assert front[..k + 1] == disks[..k + 1] && front[k] == disks[k];
        } else {
          assert disks[..n + 1] == disks;
          LastGoes(s, disks, stuck);
        }
      }
    }
  }

  lemma {:induction false} DestroyLeaves(s: Store, id: Id, stuck: set<Id>)
    requires id in s.instances && s.instances[id].byPlm
    ensures DestroyLeft(s, Destroy(s, id, stuck).store, id, stuck)
  {
    var i := s.instances[id];
    DropDisksExactly(s, i.disks, stuck);
    EarlierGo(s, i.disks, stuck);
    if Drops(s, i.disks, stuck) {
      DropsMovePools(s, i.disks, stuck);
      GoneLeaves(s, DropDisks(s, i.disks, stuck).store, id);
    }
  }

  lemma {:induction false} GoneLeaves(s: Store, t: Store, id: Id)
    requires id in s.instances && SameInstances(s, t)
    ensures var i, gone := s.instances[id], Purge(t, s.instances[id].host, {id});
      && gone.instances == s.instances - {id}
      && ListOf(gone, i.host) == ListOf(s, i.host) - {id} && (forall h :: h != i.host ==> ListOf(gone, h) == ListOf(s, h))
  {
    forall h ensures ListOf(t, h) == ListOf(s, h) { }
  }
}
