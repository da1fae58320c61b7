/** The calls of the Parallel Libvirt Manager (plm/plmserver.py) as methods that update the
    object store record by record and counter by counter. */
module PlmServer {
  import opened PlmStore
  import opened Wrappers
  import opened PlmRuns
  import opened PlmAccounting
  import opened PlmPools
  import opened PlmDisks
  import opened PlmOwners
  import opened PlmInvariants
  import opened PlmEffects

  /** Stale removal after some of the stale instances have gone. */
  ghost predicate PartlyPurged(s: Store, t: Store, host: Id, gone: set<Id>)
    requires gone <= s.instances.Keys && host in s.nodes
  {
    t == if gone == {} then s else Count(Purge(s, host, gone), host, StaleCount(Sum(s.instances, gone)))
  }

  lemma {:induction false} PurgeOneMore(s: Store, t: Store, host: Id, gone: set<Id>, i: Id)
    requires gone <= s.instances.Keys && host in s.nodes && PartlyPurged(s, t, host, gone)
    requires i in s.instances && i !in gone
    ensures t.instances == s.instances - gone && host in t.nodes
    ensures var u := UsageOf(s.instances[i]);
      PartlyPurged(s, Count(Purge(t, host, {i}), host, Usage(u.vcpus, u.vmem, -1)), host, gone + {i})
  {
    var u := UsageOf(s.instances[i]);
    if gone == {} {
      SumOne(s.instances, i);
      assert gone + {i} == {i};
    } else {
      SumOneMore(s.instances, gone, i);
      CountedTwice(s, host, gone, i, u, Sum(s.instances, gone), Sum(s.instances, gone + {i}));
    }
  }

  /** An entry without a record ends the removal with what was reached before it. */
  lemma {:induction false} StoppedAt(s: Store, t: Store, host: Id, domains: seq<FoundDomain>, reached: set<Id>, i: Id)
    requires host in s.nodes && reached <= s.instances.Keys && reached <= Stale(s, host, domains)
    requires PartlyPurged(s, t, host, reached) && i in Stale(s, host, domains) && i !in reached && i !in t.instances
    ensures Reply(t, Raised) == RemoveStale(s, host, domains, reached) && !ListsAgree(s)
    ensures Removed(s, host, domains, reached) == reached
  {
    assert i !in s.instances;
    assert i in ListOf(s, host);
    assert reached * Stale(s, host, domains) * s.instances.Keys == reached;
  }

  lemma {:induction false} SumOne(m: map<Id, Instance>, i: Id)
    requires i in m
    ensures Sum(m, {i}) == UsageOf(m[i])
  {
    assert {i} - {i} == {};
    SumPick(m, {i}, i, Vcpus);
    SumPick(m, {i}, i, Vmem);
    SumPick(m, {i}, i, Instances);
  }

  lemma {:induction false} SumOneMore(m: map<Id, Instance>, gone: set<Id>, i: Id)
    requires i in m && gone <= m.Keys && i !in gone
    ensures Sum(m, gone + {i}) == UsageOf(m[i]).Plus(Sum(m, gone))
  {
    assert gone + {i} - {i} == gone;
    SumPick(m, gone + {i}, i, Vcpus);
    SumPick(m, gone + {i}, i, Vmem);
    SumPick(m, gone + {i}, i, Instances);
  }

  lemma {:induction false} CountedTwice(s: Store, host: Id, gone: set<Id>, i: Id, u: Usage, sum: Usage, more: Usage)
    requires host in s.nodes && more == u.Plus(sum) && u.instances == 1
    ensures Count(Purge(Count(Purge(s, host, gone), host, StaleCount(sum)), host, {i}), host, Usage(u.vcpus, u.vmem, -1)) ==
      Count(Purge(s, host, gone + {i}), host, StaleCount(more))
  {
    var n := s.nodes[host];
    assert n.Plus(StaleCount(sum)).Plus(Usage(u.vcpus, u.vmem, -1)) == n.Plus(StaleCount(more));
    assert ListOf(s, host) - gone - {i} == ListOf(s, host) - (gone + {i});
    assert s.instances - gone - {i} == s.instances - (gone + {i});
  }

  class Plm {
    var nodes: map<Id, Usage>
    var instances: map<Id, Instance>
    var lists: map<Id, set<Id>>
    var volumes: map<Id, Volume>
    var pools: map<Id, Pool>

    constructor ()
      ensures Snapshot() == EMPTY && Valid()
    {
      nodes, instances, lists, volumes, pools := map[], map[], map[], map[], map[];
    }

    ghost function Snapshot(): Store
      reads this
    {
      Store(nodes, instances, lists, volumes, pools)
    }

    /** Lists, volume counts and owners are right. */
    ghost predicate Valid()
      reads this
    {
      Sound(Snapshot())
    }

    function InstanceList(host: Id): set<Id>
      reads this
    {
      if host in lists then lists[host] else {}
    }

    // -------------------------------------------------------------- nodes

    method NodeResourceUpdate(host: Id, up: bool, vcpus: int, vmem: int)
      requires host in nodes
      modifies this
      ensures Snapshot() == Count(old(Snapshot()), host, Usage(vcpus, vmem, if up then 1 else -1))
      ensures nodes == old(nodes)[host := Usage(old(nodes)[host].vcpus + vcpus, old(nodes)[host].vmem + vmem,
                                                old(nodes)[host].instances + if up then 1 else -1)]
      ensures unchanged(`instances, `lists, `volumes, `pools)
    {
      var n := nodes[host];
      n := n.(vcpus := n.vcpus + vcpus);
      n := n.(vmem := n.vmem + vmem);
      n := n.(instances := n.instances + if up then 1 else -1);
      nodes := nodes[host := n];
    }

    /** Amounts are negated when an instance goes. */
    method InstancePlacement(host: Id, run: bool, vcpus: nat, vmem: nat) returns (placed: bool)
      modifies this
      ensures placed <==> host in old(nodes)
      ensures placed ==> Snapshot() == Count(old(Snapshot()), host,
        if run then Usage(vcpus, vmem, 1) else NONE.Minus(Usage(vcpus, vmem, 1)))
      ensures !placed ==> Snapshot() == old(Snapshot())
      ensures placed && run ==> nodes == old(nodes)[host := Usage(old(nodes)[host].vcpus + vcpus,
        old(nodes)[host].vmem + vmem, old(nodes)[host].instances + 1)]
      ensures placed && !run ==> nodes == old(nodes)[host := Usage(old(nodes)[host].vcpus - vcpus,
        old(nodes)[host].vmem - vmem, old(nodes)[host].instances - 1)]
      ensures unchanged(`instances, `lists, `volumes, `pools)
    {
      if host !in nodes {
        return false;
      }
      if run {
        NodeResourceUpdate(host, true, vcpus, vmem);
      } else {
        var cpus: int, memory: int := vcpus, vmem;
        NodeResourceUpdate(host, false, -cpus, -memory);
      }
      return true;
    }

    /** `reached` is what stale removal got to before an entry without a record, if there is
        one: with right lists there is none. */
    method NodeRegister(host: Id, found: Hypervisor) returns (result: Result, ghost reached: set<Id>)
      modifies this
      ensures Reply(Snapshot(), result) == Register(old(Snapshot()), host, found, reached)
      ensures old(Valid()) ==> (Valid() <==> Keeps(old(Snapshot()), Call.NodeRegister(host, found, reached)))
      ensures old(Valid()) && host in old(nodes) ==> result.Done?
      ensures host in old(nodes) ==> reached <= old(instances).Keys
      ensures host in old(nodes) ==> StaleGone(old(Snapshot()), Snapshot(), host, found.domains, reached)
      ensures host !in old(nodes) ==>
        (result.Done? <==> Discoverable(old(Snapshot()), found) && NamesFree(old(Snapshot()), found.domains))
      ensures host !in old(nodes) && result.Done? ==> Registered(old(Snapshot()), Snapshot(), host, found)
      ensures host !in old(nodes) && !Discoverable(old(Snapshot()), found) ==>
        nodes == old(nodes)[host := Usage(0, 0, 0)] && unchanged(`instances, `lists)
      ensures Accounts(old(Snapshot()), Call.NodeRegister(host, found, reached), Snapshot())
    {
      ghost var start := Snapshot();
      if host in nodes {
        result, reached := RemoveStaleInstances(host, found.domains);
      } else {
        reached := {};
        nodes := nodes[host := Usage(0, 0, 0)];
        result := CreateMissing(found.missing);
        if !result.Raised? {
          result := DiscoverPools(found.pools);
        }
        if !result.Raised? {
          result := DiscoverDomains(host, found.domains);
        }
      }
      if host !in start.nodes {
        RegistrationCompletes(start, host, found);
        if result.Done? { RegistrationLeaves(start, host, found); }
        if !Discoverable(start, found) { StoppedRegistration(start, host, found); }
      }
      StepSoundExactly(start, Call.NodeRegister(host, found, reached));
      StepAccounts(start, Call.NodeRegister(host, found, reached));
    }

    method RemoveStaleInstances(host: Id, domains: seq<FoundDomain>) returns (result: Result, ghost reached: set<Id>)
      requires host in nodes
      modifies this
      ensures Reply(Snapshot(), result) == RemoveStale(old(Snapshot()), host, domains, reached)
      ensures reached <= old(instances).Keys && StaleGone(old(Snapshot()), Snapshot(), host, domains, reached)
      ensures result.Done? ==>
        forall i :: i in old(InstanceList(host)) && !Named(domains, i) ==> i in reached
      ensures old(ListsAgree(Snapshot())) ==> result.Done?
    {
      ghost var s := Snapshot();
      result, reached := RemoveEach(host, domains);
      StaleRemovalLeaves(s, host, domains, reached);
    }

    /** The loop over the list, in whatever order. */
    method RemoveEach(host: Id, domains: seq<FoundDomain>) returns (result: Result, ghost reached: set<Id>)
      requires host in nodes
      modifies this
      ensures Reply(Snapshot(), result) == RemoveStale(old(Snapshot()), host, domains, reached)
      ensures reached == Removed(old(Snapshot()), host, domains, reached)
      ensures old(ListsAgree(Snapshot())) ==> result.Done?
    {
      ghost var s := Snapshot();
      var todo := InstanceList(host) - Names(domains);
      reached := {};
      while todo != {}
        invariant todo + reached == Stale(s, host, domains) && todo !! reached
        invariant reached <= s.instances.Keys && PartlyPurged(s, Snapshot(), host, reached)
        decreases todo
      {
        var i :| i in todo;
        todo := todo - {i};
        if i !in instances {
          StoppedAt(s, Snapshot(), host, domains, reached, i);
          return Raised, reached;
        }
        PurgeOneMore(s, Snapshot(), host, reached, i);
        var instance := instances[i];
        instances := instances - {i};
        lists := lists[host := InstanceList(host) - {i}];
        NodeResourceUpdate(host, false, instance.vcpus, instance.vmemKb / 1024);
        reached := reached + {i};
      }
      return Done, reached;
    }

    /** The configured storage pools that libvirt does not define yet. */
    method CreateMissing(missing: seq<PoolRequest>) returns (result: Result)
      modifies this
      ensures Reply(Snapshot(), result) == CreatePools(old(Snapshot()), missing)
    {
      ghost var s := Snapshot();
      result := Done;
      for k := 0 to |missing|
        invariant Reply(Snapshot(), result) == CreatePools(s, missing[..k]) && !result.Raised?
      {
        assert missing[..k + 1][..k] == missing[..k];
        result := StoragepoolCreate(missing[k]);
        if result.Raised? {
          MissingStop(s, missing, k + 1, |missing|);
          assert missing[..|missing|] == missing;
          return;
        }
      }
      assert missing[..|missing|] == missing;
    }

    method DiscoverPool(p: FoundPool) returns (result: Result)
      modifies this
      ensures Reply(Snapshot(), result) == RecordPool(old(Snapshot()), p)
      ensures pools == if p.pool in old(pools) then old(pools) else old(pools)[p.pool := Pool(p.count, p.count)]
    {
      VolumesKeepPools(WithPool(Snapshot(), p), p.volumes);
      if p.pool !in pools {
        pools := pools[p.pool := Pool(p.count, p.count)];
      }
      result := DiscoverVolumes(p.volumes);
    }

    method DiscoverPools(found: seq<FoundPool>) returns (result: Result)
      modifies this
      ensures Reply(Snapshot(), result) == RecordPools(old(Snapshot()), found)
    {
      ghost var s := Snapshot();
      result := Done;
      for k := 0 to |found|
        invariant Reply(Snapshot(), result) == RecordPools(s, found[..k]) && !result.Raised?
      {
        assert found[..k + 1][..k] == found[..k];
        result := DiscoverPool(found[k]);
        if result.Raised? {
          PoolsStop(s, found, k + 1, |found|);
          assert found[..|found|] == found;
          return;
        }
      }
      assert found[..|found|] == found;
    }

    method DiscoverVolumes(found: seq<FoundVolume>) returns (result: Result)
      modifies this
      ensures Reply(Snapshot(), result) == RecordVolumes(old(Snapshot()), found)
    {
      ghost var s := Snapshot();
      result := Done;
      for k := 0 to |found|
        invariant Reply(Snapshot(), result) == RecordVolumes(s, found[..k]) && !result.Raised?
      {
        assert found[..k + 1][..k] == found[..k];
        var v := found[k].volume;
        if found[k].recorded {
          if v in volumes {
            volumes := volumes[v := volumes[v].(owner := None)];
            VolumesStop(s, found, k + 1, |found|);
            assert found[..|found|] == found;
            return Raised;
          }
          volumes := volumes[v := Volume(None, None)];
        }
      }
      assert found[..|found|] == found;
    }

    method DiscoverDomains(host: Id, found: seq<FoundDomain>) returns (result: Result)
      requires host in nodes
      modifies this
      ensures Reply(Snapshot(), result) == RecordDomains(old(Snapshot()), host, found)
    {
      ghost var s := Snapshot();
      result := Done;
      for k := 0 to |found|
        invariant host in nodes && !result.Raised?
        invariant Reply(Snapshot(), result) == RecordDomains(s, host, found[..k])
      {
        assert found[..k + 1][..k] == found[..k];
        var d := found[k];
        result := AddInstance(d.id, host, d.vcpus, d.vmemKb, d.disks, d.byPlm);
        if result.Raised? {
          DomainsStop(s, host, found, k + 1, |found|);
          assert found[..|found|] == found;
          return;
        }
        NodeResourceUpdate(host, true, d.vcpus, d.vmemKb / 1024);
      }
      assert found[..|found|] == found;
    }

    method NodeUnregister(host: Id) returns (result: Result)
      modifies this
      ensures Reply(Snapshot(), result) == Unregister(old(Snapshot()), host)
      ensures result == (if host in old(nodes) then Done else NotFound) && nodes == old(nodes) - {host}
      ensures unchanged(`instances, `lists, `volumes, `pools)
      ensures old(Valid()) ==> (Valid() <==> On(old(Snapshot()), host) == {})
      ensures Accounts(old(Snapshot()), Call.NodeUnregister(host), Snapshot())
    {
      StepSoundExactly(Snapshot(), Call.NodeUnregister(host));
      StepAccounts(Snapshot(), Call.NodeUnregister(host));
      if host !in nodes {
        return NotFound;
      }
      nodes := nodes - {host};
      return Done;
    }

    // -------------------------------------------------------------- instances

    /** The last part of instance_run: every known disk is attached, then the instance is
        recorded and listed. */
    method AddInstance(id: Id, host: Id, vcpus: nat, vmemKb: nat, disks: seq<Id>, byPlm: bool) returns (result: Result)
      modifies this
      ensures Reply(Snapshot(), result) == RecordInstance(old(Snapshot()), id, host, vcpus, vmemKb, disks, byPlm)
      ensures result == if id in old(instances) then Raised else Done
      ensures id in instances && instances == old(instances)[id := instances[id]]
      ensures IsRecordOf(instances[id], host, FoundDomain(id, vcpus, vmemKb, disks, byPlm), old(volumes).Keys)
      ensures InstanceList(host) == old(InstanceList(host)) + if id in old(instances) then {} else {id}
      ensures forall h :: h != host ==> InstanceList(h) == old(InstanceList(h))
      ensures volumes.Keys == old(volumes).Keys && forall v :: v in volumes ==>
        volumes[v] == if v in disks then old(volumes)[v].(owner := Some(id)) else old(volumes)[v]
      ensures unchanged(`nodes, `pools)
    {
      var known: seq<Disk> := [];
      for k := 0 to |disks|
        invariant volumes == SetOwner(old(volumes), disks[..k], Some(id))
        invariant nodes == old(nodes) && instances == old(instances) && lists == old(lists) && pools == old(pools)
        invariant known == DisksOf(old(Snapshot()), disks[..k])
      {
        var v := disks[k];
        SetOneMore(old(volumes), disks, k, Some(id));
        assert disks[..k + 1] == disks[..k] + [v];
        known := known + [Disk(v, v in volumes)];
        if v in volumes {
          volumes := volumes[v := volumes[v].(owner := Some(id))];
        }
      }
      assert disks[..|disks|] == disks;
      var taken := id in instances;
      instances := instances[id := Instance(host, vcpus, vmemKb, known, byPlm)];
      if taken {
        return Raised;
      }
      lists := lists[host := InstanceList(host) + {id}];
      return Done;
    }

    method InstanceRun(r: RunRequest) returns (result: Result)
      modifies this
      ensures Reply(Snapshot(), result) == Run(old(Snapshot()), r)
      ensures result == if Reaches(old(Snapshot()), r) && r.id !in old(instances) then Done else Raised
      ensures r.host !in old(nodes) ==> Snapshot() == old(Snapshot())
      ensures r.host in old(nodes) ==> RunLeft(old(Snapshot()), Snapshot(), r)
      ensures old(Valid()) ==> (Valid() <==> Keeps(old(Snapshot()), Call.InstanceRun(r)))
      ensures Accounts(old(Snapshot()), Call.InstanceRun(r), Snapshot())
    {
      StepSoundExactly(Snapshot(), Call.InstanceRun(r));
      StepAccounts(Snapshot(), Call.InstanceRun(r));
      RunCompletesExactly(Snapshot(), r);
      if r.host in nodes { RunLeaves(Snapshot(), r); }
      var placed := InstancePlacement(r.host, true, r.vcpus, r.vmem);
      if !placed {
        return Raised;
      }
      result := CreateAll(r.images);
      if result.Raised? {
        return;
      }
      if !r.started {
        return Raised;
      }
      result := AddInstance(r.id, r.host, r.vcpus, r.vmem * 1024, r.disks, true);
    }

    /** The loop over the images of a run. */
    method CreateAll(images: seq<VolumeRequest>) returns (result: Result)
      modifies this
      ensures Reply(Snapshot(), result) == CreateImages(old(Snapshot()), images)
    {
      ghost var s := Snapshot();
      result := Done;
      for k := 0 to |images|
        invariant Reply(Snapshot(), result) == CreateImages(s, images[..k]) && !result.Raised?
      {
        assert images[..k + 1][..k] == images[..k];
        result := VolumeCreate(images[k]);
        if result.Raised? {
          ImagesStop(s, images, k + 1, |images|);
          assert images[..|images|] == images;
          return;
        }
      }
      assert images[..|images|] == images;
    }

    method InstanceDestroy(id: Id, stuck: set<Id>) returns (result: Result)
      modifies this
      ensures Reply(Snapshot(), result) == Destroy(old(Snapshot()), id, stuck)
      ensures result.NotFound? <==> id !in old(instances)
      ensures result.NotOurs? <==> id in old(instances) && !old(instances)[id].byPlm
      ensures result.NotFound? || result.NotOurs? ==> Snapshot() == old(Snapshot())
      ensures !result.NotFound? && !result.NotOurs? ==> DestroyLeft(old(Snapshot()), Snapshot(), id, stuck)
      ensures id in old(instances) && old(instances)[id].byPlm ==>
        (result.Done? <==>
          Drops(old(Snapshot()), old(instances)[id].disks, stuck) && old(instances)[id].host in old(nodes))
      ensures old(Valid()) ==> Valid()
      ensures old(OwnersLive(Snapshot())) ==>
        (OwnersLive(Snapshot()) <==> KeepsLive(old(Snapshot()), Call.InstanceDestroy(id, stuck)))
      ensures Accounts(old(Snapshot()), Call.InstanceDestroy(id, stuck), Snapshot())
    {
      StepSoundExactly(Snapshot(), Call.InstanceDestroy(id, stuck));
      StepAccounts(Snapshot(), Call.InstanceDestroy(id, stuck));
      DestroyFacts(Snapshot(), id, stuck);
      if id !in instances {
        return NotFound;
      }
      var i := instances[id];
      if !i.byPlm {
        return NotOurs;
      }
      result := DropAll(i.disks, stuck);
      if result.Raised? {
        return;
      }
      instances := instances - {id};
      lists := lists[i.host := InstanceList(i.host) - {id}];
      var placed := InstancePlacement(i.host, false, i.vcpus, i.vmemKb / 1024);
      return if placed then Done else Raised;
    }

    /** The loop over the volumes of an instance that is going. */
    method DropAll(disks: seq<Disk>, stuck: set<Id>) returns (result: Result)
      modifies this
      ensures Snapshot() == DropDisks(old(Snapshot()), disks, stuck).store
      ensures result.Raised? <==> DropDisks(old(Snapshot()), disks, stuck).result.Raised?
    {
      ghost var s := Snapshot();
      for k := 0 to |disks|
        invariant Snapshot() == DropDisks(s, disks[..k], stuck).store
        invariant !DropDisks(s, disks[..k], stuck).result.Raised?
      {
        assert disks[..k + 1][..k] == disks[..k];
        var d := disks[k];
        DropsStop(s, disks, k + 1, |disks|, stuck);
        assert disks[..|disks|] == disks;
        if d.volume !in volumes {
          return Raised;
        }
        volumes := volumes[d.volume := volumes[d.volume].(owner := None)];
        if d.recorded {
          result := VolumeDestroy(d.volume, stuck);
          if result.Raised? {
            return;
          }
        }
      }
      assert disks[..|disks|] == disks;
      return Done;
    }

    // -------------------------------------------------------------- volumes and pools

    method VolumeCreate(r: VolumeRequest) returns (result: Result)
      modifies this
      ensures Reply(Snapshot(), result) == CreateVolume(old(Snapshot()), r)
      ensures result.Done? || result.Raised?
      ensures result.Done? <==>
        && r.named in old(pools) && r.landing in old(pools) && r.created
        && (r.base.Some? ==> r.base.value in old(volumes)) && (r.recorded ==> r.volume !in old(volumes))
      ensures result.Done? && r.recorded ==>
        && volumes == old(volumes)[r.volume := Volume(Some(r.landing), None)]
        && pools == old(pools)[r.landing := Pool(old(pools)[r.landing].volumes + 1, old(pools)[r.landing].atRegistration)]
      ensures result.Done? && !r.recorded ==> unchanged(this)
      ensures result.Raised? ==> unchanged(`pools)
      ensures result.Raised? && CreatesVolume(old(Snapshot()), r) ==>
        volumes == old(volumes)[r.volume := Volume(Some(r.landing), None)]
      ensures result.Raised? && !CreatesVolume(old(Snapshot()), r) ==> unchanged(`volumes)
      ensures unchanged(`nodes, `instances, `lists)
      ensures old(Valid()) ==> (Valid() <==> CountSurvives(old(Snapshot()), r))
      ensures old(Valid()) && result.Done? ==> Valid() && (r.recorded ==> r.volume in Carriers(Snapshot(), r.landing))
    {
      StepSoundExactly(Snapshot(), Call.VolumeCreate(r));
      if r.named !in pools {
        return Raised;
      }
      if r.base.Some? && r.base.value !in volumes {
        return Raised;
      }
      if r.landing !in pools || !r.created {
        return Raised;
      }
      if r.recorded {
        var taken := r.volume in volumes;
        volumes := volumes[r.volume := Volume(Some(r.landing), None)];
        if taken {
          return Raised;
        }
        var pool := pools[r.landing];
        pools := pools[r.landing := pool.(volumes := pool.volumes + 1)];
      }
      return Done;
    }

    method VolumeDestroy(v: Id, stuck: set<Id>) returns (result: Result)
      modifies this
      ensures Reply(Snapshot(), result) == DestroyVolume(old(Snapshot()), v, stuck)
      ensures result.NotFound? <==> v !in old(volumes)
      ensures result.StillAttached? <==> v in old(volumes) && old(volumes)[v].owner.Some?
      ensures result.NotFound? || result.StillAttached? || v in stuck ==> unchanged(this)
      ensures v in old(volumes) && old(volumes)[v].owner.None? && v !in stuck ==> volumes == old(volumes) - {v}
      ensures pools.Keys == old(pools).Keys
      ensures v in old(volumes) && old(volumes)[v].owner.None? && v !in stuck ==> forall p :: p in pools ==>
        pools[p] == if old(volumes)[v].pool != Some(p) then old(pools)[p]
                    else Pool(old(pools)[p].volumes - 1, old(pools)[p].atRegistration)
      ensures unchanged(`nodes, `instances, `lists)
      ensures old(Valid()) ==> Valid()
      ensures old(Valid()) && result.Raised? ==> v in stuck && Snapshot() == old(Snapshot())
    {
      StepSoundExactly(Snapshot(), Call.VolumeDestroy(v, stuck));
      if v !in volumes {
        return NotFound;
      }
      var volume := volumes[v];
      if volume.owner.Some? {
        return StillAttached;
      }
      if v in stuck {
        return Raised;
      }
      volumes := volumes - {v};
      if volume.pool.Some? {
        if volume.pool.value !in pools {
          return Raised;
        }
        var pool := pools[volume.pool.value];
        pools := pools[volume.pool.value := pool.(volumes := pool.volumes - 1)];
      }
      return Done;
    }

    method StoragepoolCreate(r: PoolRequest) returns (result: Result)
      modifies this
      ensures Reply(Snapshot(), result) == CreatePool(old(Snapshot()), r)
      ensures result == if r.created && r.pool !in old(pools) then Done else Raised
      ensures pools == if r.created then old(pools)[r.pool := Pool(r.count, r.count)] else old(pools)
      ensures unchanged(`nodes, `instances, `lists, `volumes)
      ensures old(Valid()) ==> (Valid() <==> PoolSurvives(old(Snapshot()), r))
      ensures old(Valid()) && result.Done? ==> Valid()
    {
      StepSoundExactly(Snapshot(), Call.StoragepoolCreate(r));
      if Valid() && r.pool !in pools { NoCarriers(Snapshot(), r.pool); }
      if !r.created {
        return Raised;
      }
      var taken := r.pool in pools;
      pools := pools[r.pool := Pool(r.count, r.count)];
      return if taken then Raised else Done;
    }

    method StoragepoolDestroy(p: Id, deleted: bool) returns (result: Result)
      modifies this
      ensures Reply(Snapshot(), result) == DestroyPool(old(Snapshot()), p, deleted)
      ensures result.NotFound? <==> p !in old(pools)
      ensures result.StillHasVolumes? <==> p in old(pools) && old(pools)[p].volumes != 0
      ensures result.Done? <==> p in old(pools) && old(pools)[p].volumes == 0 && deleted
      ensures pools == if result.Done? then old(pools) - {p} else old(pools)
      ensures unchanged(`nodes, `instances, `lists, `volumes)
      ensures old(Valid()) ==> Valid()
      ensures old(Valid()) && result.Done? ==> old(pools[p].atRegistration == 0 && Carriers(Snapshot(), p) == {})
    {
      StepSoundExactly(Snapshot(), Call.StoragepoolDestroy(p, deleted));
      assert Valid() && p in pools ==> PoolCounted(Snapshot(), p);
      if p !in pools {
        return NotFound;
      }
      if pools[p].volumes != 0 {
        return StillHasVolumes;
      }
      if !deleted {
        return Raised;
      }
      pools := pools - {p};
      return Done;
    }
  }

  lemma {:induction false} DestroyFacts(s: Store, id: Id, stuck: set<Id>)
    ensures Destroy(s, id, stuck).result.NotFound? <==> id !in s.instances
    ensures Destroy(s, id, stuck).result.NotOurs? <==> id in s.instances && !s.instances[id].byPlm
    ensures id in s.instances && s.instances[id].byPlm ==> DestroyLeft(s, Destroy(s, id, stuck).store, id, stuck)
    ensures id in s.instances && s.instances[id].byPlm ==>
      (Destroy(s, id, stuck).result.Done? <==> Drops(s, s.instances[id].disks, stuck) && s.instances[id].host in s.nodes)
    ensures OwnersLive(s) ==> (OwnersLive(Destroy(s, id, stuck).store) <==> KeepsLive(s, Call.InstanceDestroy(id, stuck)))
  {
    if id in s.instances && s.instances[id].byPlm {
      DestroyCompletesExactly(s, id, stuck);
      DestroyLeaves(s, id, stuck);
    }
    if OwnersLive(s) { StepLiveExactly(s, Call.InstanceDestroy(id, stuck)); }
  }

  // A loop that leaves at the first exception leaves what the whole call would.

  lemma {:induction false} MissingStop(s: Store, missing: seq<PoolRequest>, i: nat, n: nat)
    requires i <= n <= |missing|
    ensures CreatePools(s, missing[..i]).result.Raised? ==> CreatePools(s, missing[..n]) == CreatePools(s, missing[..i])
  {
    if i < n {
      MissingStop(s, missing, i, n - 1);
      assert missing[..n][..n - 1] == missing[..n - 1];
    }
  }

  lemma {:induction false} PoolsStopped(s: Store, found: seq<FoundPool>)
    requires found != [] && RecordPools(s, found[..|found| - 1]).result.Raised?
    ensures RecordPools(s, found) == RecordPools(s, found[..|found| - 1])
  {
  }

  lemma {:induction false} PoolsStop(s: Store, found: seq<FoundPool>, i: nat, n: nat)
    requires i <= n <= |found| && RecordPools(s, found[..i]).result.Raised?
    ensures RecordPools(s, found[..n]) == RecordPools(s, found[..i])
  {
    if i < n {
      PoolsStop(s, found, i, n - 1);
      assert found[..n][..n - 1] == found[..n - 1];
      PoolsStopped(s, found[..n]);
    }
  }

  lemma {:induction false} VolumesStop(s: Store, found: seq<FoundVolume>, i: nat, n: nat)
    requires i <= n <= |found|
    ensures RecordVolumes(s, found[..i]).result.Raised? ==> RecordVolumes(s, found[..n]) == RecordVolumes(s, found[..i])
  {
    if i < n {
      VolumesStop(s, found, i, n - 1);
      assert found[..n][..n - 1] == found[..n - 1];
    }
  }

  lemma {:induction false} DomainsStop(s: Store, host: Id, found: seq<FoundDomain>, i: nat, n: nat)
    requires i <= n <= |found| && host in s.nodes
    ensures RecordDomains(s, host, found[..i]).result.Raised? ==>
      RecordDomains(s, host, found[..n]) == RecordDomains(s, host, found[..i])
  {
    if i < n {
      DomainsStop(s, host, found, i, n - 1);
      assert found[..n][..n - 1] == found[..n - 1];
    }
  }

  lemma {:induction false} ImagesStop(s: Store, images: seq<VolumeRequest>, i: nat, n: nat)
    requires i <= n <= |images|
    ensures CreateImages(s, images[..i]).result.Raised? ==> CreateImages(s, images[..n]) == CreateImages(s, images[..i])
  {
    if i < n {
      ImagesStop(s, images, i, n - 1);
      assert images[..n][..n - 1] == images[..n - 1];
    }
  }

  lemma {:induction false} DropsStop(s: Store, disks: seq<Disk>, i: nat, n: nat, stuck: set<Id>)
    requires i <= n <= |disks|
    ensures DropDisks(s, disks[..i], stuck).result.Raised? ==>
      DropDisks(s, disks[..n], stuck) == DropDisks(s, disks[..i], stuck)
  {
    if i < n {
      DropsStop(s, disks, i, n - 1, stuck);
      assert disks[..n][..n - 1] == disks[..n - 1];
    }
  }

  lemma {:induction false} SetOneMore(volumes: map<Id, Volume>, disks: seq<Id>, k: nat, owner: Option<Id>)
    requires k < |disks|
    ensures var before := SetOwner(volumes, disks[..k], owner);
      SetOwner(volumes, disks[..k + 1], owner) ==
        if disks[k] in volumes then before[disks[k] := before[disks[k]].(owner := owner)] else before
  {
    assert disks[..k + 1] == disks[..k] + [disks[k]];
  }
}
