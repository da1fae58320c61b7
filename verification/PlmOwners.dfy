/** Which instance a volume is attached to, and what destroying an instance undoes. */
module PlmOwners {
  import opened PlmStore
  import opened Wrappers
  import opened PlmRuns
  import opened PlmDisks

  /** Every volume with an owner names a live instance. */
  ghost predicate OwnersLive(s: Store) {
    forall v :: v in s.volumes && s.volumes[v].owner.Some? ==> s.volumes[v].owner.value in s.instances
  }

  /** ... of which it is a disk; this is what every call keeps. */
  ghost predicate OwnedRight(s: Store, v: Id)
    requires v in s.volumes
  {
    s.volumes[v].owner.Some? ==>
      s.volumes[v].owner.value in s.instances && OnDisk(s.instances[s.volumes[v].owner.value].disks, v)
  }

  ghost predicate OwnersRight(s: Store) {
    forall v :: v in s.volumes ==> OwnedRight(s, v)
  }

  lemma {:induction false} ReleasedRight(s: Store, t: Store)
    requires OwnersRight(s) && OnlyReleased(s, t) && t.instances == s.instances
    ensures OwnersRight(t)
  {
    forall v | v in t.volumes ensures OwnedRight(t, v) {
      if t.volumes[v].owner.Some? { assert OwnedRight(s, v); }
    }
  }

  lemma {:induction false} VolumeCallsRelease(s: Store, r: VolumeRequest, v: Id, stuck: set<Id>)
    ensures OnlyReleased(s, CreateVolume(s, r).store) && OnlyReleased(s, DestroyVolume(s, v, stuck).store)
  {
  }

  lemma {:induction false} ImagesRelease(s: Store, images: seq<VolumeRequest>)
    ensures OnlyReleased(s, CreateImages(s, images).store)
  {
    if images != [] {
      ImagesRelease(s, images[..|images| - 1]);
      VolumeCallsRelease(CreateImages(s, images[..|images| - 1]).store, images[|images| - 1], "", {});
    }
  }

  lemma {:induction false} RecordVolumesRelease(s: Store, found: seq<FoundVolume>)
    ensures OnlyReleased(s, RecordVolumes(s, found).store)
  {
    if found != [] { RecordVolumesRelease(s, found[..|found| - 1]); }
  }

  lemma {:induction false} RecordPoolsRelease(s: Store, found: seq<FoundPool>)
    ensures OnlyReleased(s, RecordPools(s, found).store)
  {
    if found != [] {
      RecordPoolsRelease(s, found[..|found| - 1]);
      var t, p := RecordPools(s, found[..|found| - 1]).store, found[|found| - 1];
      RecordVolumesRelease(WithPool(t, p), p.volumes);
    }
  }

  /** A new record of an instance lists every volume that the name already owns. */
  predicate Covers(s: Store, id: Id, disks: seq<Id>) {
    forall v :: v in s.volumes && s.volumes[v].owner == Some(id) ==> v in disks
  }

  lemma {:induction false} NewNameCovers(s: Store, id: Id, disks: seq<Id>)
    requires OwnersRight(s) && id !in s.instances
    ensures Covers(s, id, disks)
  {
    forall v | v in s.volumes ensures s.volumes[v].owner != Some(id) {
      assert OwnedRight(s, v);
    }
  }

  lemma {:induction false} RecordRightExactly(s: Store, id: Id, h: Id, vcpus: nat, kb: nat, disks: seq<Id>, byPlm: bool)
    requires OwnersRight(s)
    ensures OwnersRight(RecordInstance(s, id, h, vcpus, kb, disks, byPlm).store) <==> Covers(s, id, disks)
  {
    var t := RecordInstance(s, id, h, vcpus, kb, disks, byPlm).store;
    if Covers(s, id, disks) {
      forall v | v in t.volumes ensures OwnedRight(t, v) {
        assert OwnedRight(s, v);
        if v in disks {
          var k :| 0 <= k < |disks| && disks[k] == v;
          assert t.instances[id].disks[k].volume == v;
        }
      }
    } else {
      var v :| v in s.volumes && s.volumes[v].owner == Some(id) && v !in disks;
      assert !OnDisk(t.instances[id].disks, v);
      assert !OwnedRight(t, v);
    }
  }

  lemma {:induction false} RunRightExactly(s: Store, r: RunRequest)
    requires OwnersRight(s)
    ensures OwnersRight(Run(s, r).store) <==> KeepsOwners(s, InstanceRun(r))
  {
    if r.host in s.nodes {
      var placed := Count(s, r.host, RequestOf(r));
      ReleasedRight(s, placed);
      var images := CreateImages(placed, r.images);
      PlacedImages(s, r);
      ImagesRelease(placed, r.images);
      ReleasedRight(placed, images.store);
      if Reaches(s, r) {
        SameImagesOk(s, placed, r.images);
        ImagesVolumes(placed, r.images);
        RecordRightExactly(images.store, r.id, r.host, r.vcpus, r.vmem * 1024, r.disks, true);
        assert Covers(images.store, r.id, r.disks) <==> Covers(s, r.id, r.disks);
      }
    }
  }

  /** No found domain that the loop gets to drops a volume of the instance that it replaces. */
  predicate DomainsCover(s: Store, found: seq<FoundDomain>) {
    forall k :: 0 <= k < |found| ==> DomainCovers(s, found, k)
  }

  /** Each volume that the k-th name owns is a disk of the found domain, unless a domain
      found before it has taken the volume already. */
  predicate DomainCovers(s: Store, found: seq<FoundDomain>, k: nat)
    requires k < |found|
  {
    NamesFree(s, found[..k]) ==>
      forall v :: v in s.volumes && s.volumes[v].owner == Some(found[k].id) ==>
        v in found[k].disks || Claimed(found[..k], v)
  }

  predicate Claimed(found: seq<FoundDomain>, v: Id) {
    exists j :: 0 <= j < |found| && v in found[j].disks
  }

  lemma {:induction false} ClaimedStep(found: seq<FoundDomain>, v: Id)
    requires found != []
    ensures Claimed(found, v) <==> Claimed(found[..|found| - 1], v) || v in found[|found| - 1].disks
  {
    var front := found[..|found| - 1];
    if Claimed(front, v) { var j :| 0 <= j < |front| && v in front[j].disks; assert v in found[j].disks; }
    if j :| 0 <= j < |found| && v in found[j].disks { assert j < |front| ==> v in front[j].disks; }
  }

  /** Found domains own their disks, and no other volume changes hands. */
  lemma {:induction false} DomainsOwn(s: Store, h: Id, found: seq<FoundDomain>)
    requires h in s.nodes && DistinctNames(found) && NamesFree(s, found)
    ensures var t := RecordDomains(s, h, found).store;
      && t.volumes.Keys == s.volumes.Keys
      && forall v :: v in s.volumes ==>
           if Claimed(found, v) then t.volumes[v].owner.Some? && Named(found, t.volumes[v].owner.value)
           else t.volumes[v].owner == s.volumes[v].owner
  {
    if found != [] {
      var front, last := found[..|found| - 1], found[|found| - 1];
      DomainsCompleteExactly(s, h, front);
      DomainsCompleteExactly(s, h, found);
      NamesFreeStep(s, found);
      DomainsOwn(s, h, front);
      forall i ensures Named(found, i) <==> Named(front, i) || last.id == i { NamedStep(found, i); }
      forall v ensures Claimed(found, v) <==> Claimed(front, v) || v in last.disks { ClaimedStep(found, v); }
    }
  }

  lemma {:induction false} NamedStep(found: seq<FoundDomain>, i: Id)
    requires found != []
    ensures Named(found, i) <==> Named(found[..|found| - 1], i) || found[|found| - 1].id == i
  {
    var front := found[..|found| - 1];
    if found[|found| - 1].id == i { assert found[|found| - 1].id == i; }
    if k :| 0 <= k < |front| && front[k].id == i { assert found[k].id == i; }
  }

  lemma {:induction false} DomainCoversExactly(s: Store, h: Id, found: seq<FoundDomain>)
    requires h in s.nodes && DistinctNames(found) && found != [] && NamesFree(s, found[..|found| - 1])
    ensures var d := found[|found| - 1];
      Covers(RecordDomains(s, h, found[..|found| - 1]).store, d.id, d.disks) <==> DomainCovers(s, found, |found| - 1)
  {
    var front, d := found[..|found| - 1], found[|found| - 1];
    var t := RecordDomains(s, h, front).store;
    DomainsOwn(s, h, front);
    assert !Named(front, d.id);
    forall v | v in s.volumes
      ensures t.volumes[v].owner == Some(d.id) <==> s.volumes[v].owner == Some(d.id) && !Claimed(front, v)
    {
    }
  }

  lemma {:induction false} DomainsCoverStep(s: Store, found: seq<FoundDomain>)
    requires found != []
    ensures DomainsCover(s, found) <==> DomainsCover(s, found[..|found| - 1]) && DomainCovers(s, found, |found| - 1)
  {
    var front, n := found[..|found| - 1], |found| - 1;
    forall k | 0 <= k < n ensures DomainCovers(s, found, k) <==> DomainCovers(s, front, k) {
      assert front[..k] == found[..k] && front[k] == found[k];
    }
  }

  lemma {:induction false} DomainsRightExactly(s: Store, h: Id, found: seq<FoundDomain>)
    requires OwnersRight(s) && h in s.nodes && DistinctNames(found)
    ensures OwnersRight(RecordDomains(s, h, found).store) <==> DomainsCover(s, found)
    ensures NamesFree(s, found) ==> DomainsCover(s, found)
  {
    if found != [] {
      var front, d := found[..|found| - 1], found[|found| - 1];
      DomainsRightExactly(s, h, front);
      DomainsCompleteExactly(s, h, front);
      NamesFreeStep(s, found);
      DomainsCoverStep(s, found);
      if NamesFree(s, front) {
        assert !Named(front, d.id);
        DomainCoversExactly(s, h, found);
        DomainRightExactly(RecordDomains(s, h, front).store, h, d);
      }
    }
  }

  lemma {:induction false} DomainRightExactly(s: Store, h: Id, d: FoundDomain)
    requires OwnersRight(s) && h in s.nodes
    ensures OwnersRight(RecordDomain(s, h, d).store) <==> Covers(s, d.id, d.disks)
    ensures d.id !in s.instances ==> Covers(s, d.id, d.disks)
  {
    var t, u := RecordInstance(s, d.id, h, d.vcpus, d.vmemKb, d.disks, d.byPlm).store, RecordDomain(s, h, d).store;
    RecordRightExactly(s, d.id, h, d.vcpus, d.vmemKb, d.disks, d.byPlm);
    if OwnersRight(t) { ReleasedRight(t, u); }
    if OwnersRight(u) { ReleasedRight(u, t); }
    if d.id !in s.instances { NewNameCovers(s, d.id, d.disks); }
  }

  lemma {:induction false} DestroyRight(s: Store, id: Id, stuck: set<Id>)
    requires OwnersRight(s)
    ensures OwnersRight(Destroy(s, id, stuck).store)
  {
    if id in s.instances && s.instances[id].byPlm {
      var i := s.instances[id];
      var dropped := DropDisks(s, i.disks, stuck);
      DropDisksRelease(s, i.disks, stuck);
      ReleasedRight(s, dropped.store);
      if !dropped.result.Raised? {
        var t := Destroy(s, id, stuck).store;
        forall v | v in t.volumes ensures OwnedRight(t, v) {
          assert OwnedRight(dropped.store, v);
          if OnDisk(i.disks, v) {
            var k :| 0 <= k < |i.disks| && i.disks[k].volume == v;
            assert Released(dropped.store, i.disks[k].volume);
          }
        }
      }
    }
  }

  /** No volume is attached to an instance that stale removal takes away. */
  ghost predicate StaleOwnNothing(s: Store, gone: set<Id>) {
    forall v :: v in s.volumes && s.volumes[v].owner.Some? ==> s.volumes[v].owner.value !in gone
  }

  /** Stale removal does not look at volumes: owners stay live exactly when the instances it
      removes own none. */
  lemma {:induction false} StaleOwnersExactly(s: Store, host: Id, found: seq<FoundDomain>, reached: set<Id>)
    requires host in s.nodes
    ensures OwnersLive(s) ==>
      (OwnersLive(RemoveStale(s, host, found, reached).store) <==> StaleOwnNothing(s, Removed(s, host, found, reached)))
    ensures OwnersRight(s) ==>
      (OwnersRight(RemoveStale(s, host, found, reached).store) <==> StaleOwnNothing(s, Removed(s, host, found, reached)))
  {
    var t := RemoveStale(s, host, found, reached).store;
    StaleStore(s, host, found, reached);
    if OwnersRight(s) {
      RightIsLive(s);
      if StaleOwnNothing(s, Removed(s, host, found, reached)) {
        forall v | v in t.volumes ensures OwnedRight(t, v) {
          assert OwnedRight(s, v);
        }
      } else if OwnersRight(t) {
        RightIsLive(t);
      }
    }
  }

  lemma {:induction false} RightIsLive(s: Store)
    requires OwnersRight(s)
    ensures OwnersLive(s)
  {
    forall v | v in s.volumes && s.volumes[v].owner.Some? ensures s.volumes[v].owner.value in s.instances {
      assert OwnedRight(s, v);
    }
  }

  lemma {:induction false} NewNodeRightExactly(s: Store, h: Id, found: Hypervisor)
    requires OwnersRight(s) && h !in s.nodes
    ensures OwnersRight(RegisterNew(s, h, found).store) <==> KeepsOwners(s, NodeRegister(h, found, {}))
  {
    var t := WithNode(s, h);
    ReleasedRight(s, t);
    DiscoverReleases(t, found);
    DiscoveryCompletesExactly(s, h, found);
    var u := Discover(t, found).store;
    ReleasedRight(t, u);
    DomainsRightExactly(u, h, found.domains);
    if Discoverable(s, found) {
      DiscoverKeepsVolumes(t, found);
      SameCover(s, u, found.domains);
    }
  }

  lemma {:induction false} DiscoverReleases(s: Store, found: Hypervisor)
    ensures OnlyReleased(s, Discover(s, found).store)
  {
    PoolsCompleteExactly(s, found.missing);
    RecordPoolsRelease(CreatePools(s, found.missing).store, found.pools);
  }

  /** A discovery that completes records new volumes without an owner and leaves the others
      alone. */
  lemma {:induction false} DiscoverKeepsVolumes(s: Store, found: Hypervisor)
    requires Discover(s, found).result.Done?
    ensures Extends(s, Discover(s, found).store)
  {
    PoolsCompleteExactly(s, found.missing);
    PoolsExtend(CreatePools(s, found.missing).store, found.pools);
  }

  ghost predicate Extends(s: Store, t: Store) {
    && (forall v :: v in s.volumes ==> v in t.volumes && t.volumes[v] == s.volumes[v])
    && (forall v :: v in t.volumes && v !in s.volumes ==> t.volumes[v] == Volume(None, None))
  }

  lemma {:induction false} PoolsExtend(s: Store, found: seq<FoundPool>)
    requires RecordPools(s, found).result.Done?
    ensures Extends(s, RecordPools(s, found).store)
  {
    if found != [] {
      PoolVolumesCompleteExactly(s, found[..|found| - 1]);
      PoolsExtend(s, found[..|found| - 1]);
      var t, p := RecordPools(s, found[..|found| - 1]).store, found[|found| - 1];
      VolumesExtend(WithPool(t, p), p.volumes);
    }
  }

  lemma {:induction false} VolumesExtend(s: Store, found: seq<FoundVolume>)
    requires RecordVolumes(s, found).result.Done?
    ensures Extends(s, RecordVolumes(s, found).store)
  {
    if found != [] { VolumesExtend(s, found[..|found| - 1]); }
  }

  lemma {:induction false} SameCover(s: Store, t: Store, found: seq<FoundDomain>)
    requires Extends(s, t) && t.instances == s.instances
    ensures DomainsCover(t, found) <==> DomainsCover(s, found)
  {
    forall k | 0 <= k < |found| ensures DomainCovers(t, found, k) <==> DomainCovers(s, found, k) {
      assert NamesFree(t, found[..k]) <==> NamesFree(s, found[..k]);
    }
  }

  /** The calls that keep owners right. */
  ghost predicate KeepsOwners(s: Store, c: Call) {
    match c
    case NodeRegister(h, found, reached) =>
      if h in s.nodes then StaleOwnNothing(s, Removed(s, h, found.domains, reached))
      else Discoverable(s, found) ==> DomainsCover(s, found.domains)
    case InstanceRun(r) => Reaches(s, r) ==> Covers(s, r.id, r.disks)
    case _ => true
  }

  /** Every volume's owner is live after a call, and the volume one of its disks, if and only
      if it is one of those. */
  lemma {:induction false} StepRightExactly(s: Store, c: Call)
    requires OwnersRight(s)
    ensures OwnersRight(Step(s, c).store) <==> KeepsOwners(s, c)
  {
    match c
    case NodeRegister(h, found, reached) =>
      if h in s.nodes { StaleOwnersExactly(s, h, found.domains, reached); } else { NewNodeRightExactly(s, h, found); }
    case InstanceRun(r) => RunRightExactly(s, r);
    case InstanceDestroy(id, stuck) => DestroyRight(s, id, stuck);
    case VolumeCreate(r) =>
      VolumeCallsRelease(s, r, "", {});
      ReleasedRight(s, Step(s, c).store);
    case VolumeDestroy(v, stuck) =>
      VolumeCallsRelease(s, VolumeRequest("", "", "", None, false, false), v, stuck);
      ReleasedRight(s, Step(s, c).store);
    case _ => ReleasedRight(s, Step(s, c).store);
  }

  /** In every run, owners are right after each call exactly when every call keeps them. */
  lemma {:induction false} OwnersAlwaysRightExactly(calls: seq<Call>, stores: seq<Store>, n: nat)
    requires History(calls, stores) && n <= |calls|
    ensures (forall m :: 0 <= m <= n ==> OwnersRight(stores[m])) <==>
      (forall i :: 0 <= i < n ==> KeepsOwners(stores[i], calls[i]))
    ensures (forall i :: 0 <= i < n ==> KeepsOwners(stores[i], calls[i])) ==> OwnersLive(stores[n])
  {
    if n > 0 {
      OwnersAlwaysRightExactly(calls, stores, n - 1);
      assert Follows(stores, calls, n - 1);
      if OwnersRight(stores[n - 1]) { StepRightExactly(stores[n - 1], calls[n - 1]); }
    }
    if OwnersRight(stores[n]) { RightIsLive(stores[n]); }
  }

  // ---------------------------------------------------------------- live owners

  /** The calls after which every owner is still live: stale removal takes no owner away, and
      destroying an instance of the manager's own, if it gets through, leaves it no volume
      that is not one of its disks. */
  ghost predicate KeepsLive(s: Store, c: Call) {
    match c
    case NodeRegister(h, found, reached) =>
      h in s.nodes ==> StaleOwnNothing(s, Removed(s, h, found.domains, reached))
    case InstanceDestroy(id, stuck) =>
      id in s.instances && s.instances[id].byPlm && Drops(s, s.instances[id].disks, stuck) ==>
        OwnsDisksOnly(s, id)
    case _ => true
  }

  predicate OwnsDisksOnly(s: Store, id: Id)
    requires id in s.instances
  {
    forall v :: v in s.volumes && s.volumes[v].owner == Some(id) ==> OnDisk(s.instances[id].disks, v)
  }

  lemma {:induction false} ReleasedLive(s: Store, t: Store)
    requires OwnersLive(s) && OnlyReleased(s, t) && s.instances.Keys <= t.instances.Keys
    ensures OwnersLive(t)
  {
  }

  lemma {:induction false} RecordLive(s: Store, id: Id, h: Id, vcpus: nat, kb: nat, disks: seq<Id>, byPlm: bool)
    requires OwnersLive(s)
    ensures OwnersLive(RecordInstance(s, id, h, vcpus, kb, disks, byPlm).store)
  {
  }

  lemma {:induction false} DomainsLive(s: Store, h: Id, found: seq<FoundDomain>)
    requires OwnersLive(s) && h in s.nodes
    ensures OwnersLive(RecordDomains(s, h, found).store)
  {
    if found != [] {
      DomainsLive(s, h, found[..|found| - 1]);
      var t, d := RecordDomains(s, h, found[..|found| - 1]).store, found[|found| - 1];
      RecordLive(t, d.id, h, d.vcpus, d.vmemKb, d.disks, d.byPlm);
    }
  }

  lemma {:induction false} RunLive(s: Store, r: RunRequest)
    requires OwnersLive(s)
    ensures OwnersLive(Run(s, r).store)
  {
    if r.host in s.nodes {
      var placed := Count(s, r.host, RequestOf(r));
      var images := CreateImages(placed, r.images);
      ImagesRelease(placed, r.images);
      ReleasedLive(s, images.store);
      RecordLive(images.store, r.id, r.host, r.vcpus, r.vmem * 1024, r.disks, true);
    }
  }

  lemma {:induction false} RegisterLiveExactly(s: Store, h: Id, found: Hypervisor, reached: set<Id>)
    requires OwnersLive(s)
    ensures OwnersLive(Register(s, h, found, reached).store) <==> KeepsLive(s, NodeRegister(h, found, reached))
  {
    if h in s.nodes {
      StaleOwnersExactly(s, h, found.domains, reached);
    } else {
      var t := WithNode(s, h);
      DiscoverReleases(t, found);
      ReleasedLive(s, Discover(t, found).store);
      DomainsLive(Discover(t, found).store, h, found.domains);
    }
  }

  lemma {:induction false} DestroyLiveExactly(s: Store, id: Id, stuck: set<Id>)
    requires OwnersLive(s)
    ensures OwnersLive(Destroy(s, id, stuck).store) <==> KeepsLive(s, InstanceDestroy(id, stuck))
  {
    if id in s.instances && s.instances[id].byPlm {
      var i := s.instances[id];
      DropDisksExactly(s, i.disks, stuck);
      DropDisksRelease(s, i.disks, stuck);
      var t := DropDisks(s, i.disks, stuck).store;
      ReleasedLive(s, t);
      if Drops(s, i.disks, stuck) { GoneLiveExactly(s, t, Destroy(s, id, stuck).store, id); }
    }
  }

  /** Once the disks are dropped, what the instance still owns is what was none of them. */
  lemma {:induction false} GoneLiveExactly(s: Store, t: Store, u: Store, id: Id)
    requires id in s.instances && Dropped(s, t, s.instances[id].disks) && OwnersLive(t)
    requires t.instances == s.instances && u.instances == s.instances - {id} && u.volumes == t.volumes
    ensures OwnersLive(u) <==> OwnsDisksOnly(s, id)
  {
    var disks := s.instances[id].disks;
    if v :| v in s.volumes && s.volumes[v].owner == Some(id) && !OnDisk(disks, v) {
      assert v in u.volumes && u.volumes[v].owner == Some(id);
    }
  }

  /** Every volume's owner is a live instance after a call if and only if it is one of those. */
  lemma {:induction false} StepLiveExactly(s: Store, c: Call)
    requires OwnersLive(s)
    ensures OwnersLive(Step(s, c).store) <==> KeepsLive(s, c)
  {
    match c
    case NodeRegister(h, found, reached) => RegisterLiveExactly(s, h, found, reached);
    case InstanceRun(r) => RunLive(s, r);
    case InstanceDestroy(id, stuck) => DestroyLiveExactly(s, id, stuck);
    case _ => OtherLive(s, c);
  }

  lemma {:induction false} OtherLive(s: Store, c: Call)
    requires OwnersLive(s)
    requires c.NodeUnregister? || c.VolumeCreate? || c.VolumeDestroy? || c.StoragepoolCreate? || c.StoragepoolDestroy?
    ensures OwnersLive(Step(s, c).store)
  {
    ReleasedLive(s, Step(s, c).store);
  }

  /** In every run, every owner is live after each call exactly when every call keeps them so. */
  lemma {:induction false} OwnersAlwaysLiveExactly(calls: seq<Call>, stores: seq<Store>, n: nat)
    requires History(calls, stores) && n <= |calls|
    ensures (forall m :: 0 <= m <= n ==> OwnersLive(stores[m])) <==>
      (forall i :: 0 <= i < n ==> KeepsLive(stores[i], calls[i]))
  {
    if n > 0 {
      OwnersAlwaysLiveExactly(calls, stores, n - 1);
      assert Follows(stores, calls, n - 1);
      if OwnersLive(stores[n - 1]) { StepLiveExactly(stores[n - 1], calls[n - 1]); }
    }
  }
}
