/** Volume counters of storage pools against the volumes that carry their uuid. */
module PlmPools {
  import opened PlmStore
  import opened Wrappers
  import opened PlmRuns

  function Carriers(s: Store, p: Id): set<Id> {
    set v | v in s.volumes && s.volumes[v].pool == Some(p)
  }

  ghost predicate PoolCounted(s: Store, p: Id)
    requires p in s.pools
  {
    s.pools[p].volumes == s.pools[p].atRegistration + |Carriers(s, p)|
  }

  /** Each pool's counter is its count at registration plus the live volumes carrying its
      uuid, and no volume carries the uuid of a pool that is gone. */
  ghost predicate PoolsCounted(s: Store) {
    && (forall p :: p in s.pools ==> PoolCounted(s, p))
    && (forall v :: v in s.volumes && s.volumes[v].pool.Some? ==> s.volumes[v].pool.value in s.pools)
  }

  /** Pools and pool links as before, whatever happened to owners. */
  ghost predicate SameLinks(s: Store, t: Store) {
    && t.pools == s.pools
    && t.volumes.Keys == s.volumes.Keys
    && forall v :: v in s.volumes ==> t.volumes[v].pool == s.volumes[v].pool
  }

  lemma {:induction false} SameLinksCounted(s: Store, t: Store)
    requires SameLinks(s, t) && PoolsCounted(s)
    ensures PoolsCounted(t)
  {
    forall p | p in t.pools ensures PoolCounted(t, p) {
      assert PoolCounted(s, p);
      assert Carriers(t, p) == Carriers(s, p);
    }
  }

  lemma {:induction false} AddedCarrier(s: Store, t: Store, v: Id, landing: Id, p: Id)
    requires v !in s.volumes && t.volumes == s.volumes[v := Volume(Some(landing), None)]
    ensures |Carriers(t, p)| == |Carriers(s, p)| + if p == landing then 1 else 0
  {
    assert Carriers(t, p) == Carriers(s, p) + if p == landing then {v} else {};
  }

  /** Nothing but a volume under a name in use, taken over from another pool, upsets counts:
      the record is overwritten before the call raises. */
  predicate CountSurvives(s: Store, r: VolumeRequest) {
    CreatesVolume(s, r) && r.volume in s.volumes ==> s.volumes[r.volume].pool == Some(r.landing)
  }

  /** The request gets as far as its record. */
  predicate CreatesVolume(s: Store, r: VolumeRequest) {
    && r.named in s.pools && r.landing in s.pools && r.created && r.recorded
    && (r.base.Some? ==> r.base.value in s.volumes)
  }

  lemma {:induction false} RecreateCountedExactly(s: Store, r: VolumeRequest)
    requires PoolsCounted(s)
    ensures CreatesVolume(s, r) && r.volume in s.volumes ==> CreateVolume(s, r).result == Raised
    ensures PoolsCounted(CreateVolume(s, r).store) <==> CountSurvives(s, r)
  {
    if CreatesVolume(s, r) {
      if r.volume in s.volumes { TakenOverExactly(s, r.volume, r.landing); } else { NewVolumeCounted(s, r); }
    }
  }

  lemma {:induction false} NewVolumeCounted(s: Store, r: VolumeRequest)
    requires PoolsCounted(s) && CreatesVolume(s, r) && r.volume !in s.volumes
    ensures PoolsCounted(CreateVolume(s, r).store)
  {
    var t := CreateVolume(s, r).store;
    forall p | p in t.pools ensures PoolCounted(t, p) {
      assert PoolCounted(s, p);
      AddedCarrier(s, t, r.volume, r.landing, p);
    }
  }

  lemma {:induction false} TakenOverExactly(s: Store, v: Id, landing: Id)
    requires PoolsCounted(s) && v in s.volumes && landing in s.pools
    ensures PoolsCounted(s.(volumes := s.volumes[v := Volume(Some(landing), None)])) <==> s.volumes[v].pool == Some(landing)
  {
    var t := s.(volumes := s.volumes[v := Volume(Some(landing), None)]);
    if s.volumes[v].pool == Some(landing) {
      SameLinksCounted(s, t);
    } else {
      assert PoolCounted(s, landing);
      assert Carriers(t, landing) == Carriers(s, landing) + {v};
      assert !PoolCounted(t, landing);
    }
  }

  lemma {:induction false} RemoveVolumeCounted(s: Store, v: Id)
    requires PoolsCounted(s) && v in s.volumes && s.volumes[v].owner.None?
    ensures var r := DestroyVolume(s, v, {}); r.result.Done? && PoolsCounted(r.store)
  {
    var t := DestroyVolume(s, v, {}).store;
    forall p | p in t.pools ensures PoolCounted(t, p) {
      assert PoolCounted(s, p);
      if s.volumes[v].pool == Some(p) {
        assert Carriers(t, p) == Carriers(s, p) - {v};
      } else {
        assert Carriers(t, p) == Carriers(s, p);
      }
    }
  }

  lemma {:induction false} DestroyVolumeCounted(s: Store, v: Id, stuck: set<Id>)
    requires PoolsCounted(s)
    ensures PoolsCounted(DestroyVolume(s, v, stuck).store)
    ensures DestroyVolume(s, v, stuck).result.Raised? ==> v in stuck
  {
    if v in s.volumes && s.volumes[v].owner.None? && v !in stuck {
      RemoveVolumeCounted(s, v);
    }
  }

  lemma {:induction false} DropDiskCounted(s: Store, d: Disk, stuck: set<Id>)
    requires PoolsCounted(s)
    ensures PoolsCounted(DropDisk(s, d, stuck).store)
  {
    if d.volume in s.volumes {
      var detached := s.(volumes := s.volumes[d.volume := s.volumes[d.volume].(owner := None)]);
      SameLinksCounted(s, detached);
      DestroyVolumeCounted(detached, d.volume, stuck);
    }
  }

  lemma {:induction false} DropDisksCounted(s: Store, disks: seq<Disk>, stuck: set<Id>)
    requires PoolsCounted(s)
    ensures PoolsCounted(DropDisks(s, disks, stuck).store)
  {
    if disks != [] {
      DropDisksCounted(s, disks[..|disks| - 1], stuck);
      DropDiskCounted(DropDisks(s, disks[..|disks| - 1], stuck).store, disks[|disks| - 1], stuck);
    }
  }

  /** No image that the loop gets to takes a volume over from another pool. */
  predicate ImagesSurvive(s: Store, images: seq<VolumeRequest>) {
    forall k :: 0 <= k < |images| ==> ImageSurvives(s, images, k)
  }

  /** If those before it are created and it gets as far as its record, the k-th image lands
      where a volume of that name is already, in the store or among those before it. */
  predicate ImageSurvives(s: Store, images: seq<VolumeRequest>, k: nat)
    requires k < |images|
  {
    ImagesOk(s, images[..k]) && ImageCreates(s, images, k) ==>
      && (images[k].volume in s.volumes ==> s.volumes[images[k].volume].pool == Some(images[k].landing))
      && forall j :: 0 <= j < k && images[j].recorded && images[j].volume == images[k].volume ==>
           images[j].landing == images[k].landing
  }

  predicate ImageCreates(s: Store, images: seq<VolumeRequest>, k: nat)
    requires k < |images|
  {
    var r := images[k];
    && r.named in s.pools && r.landing in s.pools && r.created && r.recorded
    && (r.base.Some? ==> r.base.value in s.volumes || Earlier(images, k, r.base.value))
  }

  lemma {:induction false} ImageSurvivesExactly(s: Store, images: seq<VolumeRequest>)
    requires images != [] && ImagesOk(s, images[..|images| - 1])
    ensures CountSurvives(CreateImages(s, images[..|images| - 1]).store, images[|images| - 1]) <==>
      ImageSurvives(s, images, |images| - 1)
  {
    var front, n := images[..|images| - 1], |images| - 1;
    var t, r := CreateImages(s, front).store, images[n];
    ImagesCompleteExactly(s, front);
    ImagesVolumes(s, front);
    forall v ensures Earlier(front, n, v) <==> Earlier(images, n, v) { EarlierInFront(images, n, v); }
    assert CreatesVolume(t, r) <==> ImageCreates(s, images, n);
    assert forall j :: 0 <= j < n ==> front[j] == images[j];
    if r.volume in t.volumes && r.volume !in s.volumes {
      assert Earlier(front, n, r.volume);
    }
  }

  lemma {:induction false} ImagesSurviveStep(s: Store, images: seq<VolumeRequest>)
    requires images != []
    ensures ImagesSurvive(s, images) <==>
      ImagesSurvive(s, images[..|images| - 1]) && ImageSurvives(s, images, |images| - 1)
  {
    var front, n := images[..|images| - 1], |images| - 1;
    forall k | 0 <= k < n ensures ImageSurvives(s, images, k) <==> ImageSurvives(s, front, k) {
      assert front[..k] == images[..k] && front[k] == images[k];
      assert forall j :: 0 <= j < k ==> front[j] == images[j];
      if images[k].base.Some? { EarlierInFront(images, k, images[k].base.value); }
    }
  }

  lemma {:induction false} ImagesCountedExactly(s: Store, images: seq<VolumeRequest>)
    requires PoolsCounted(s)
    ensures PoolsCounted(CreateImages(s, images).store) <==> ImagesSurvive(s, images)
    ensures ImagesOk(s, images) ==> ImagesSurvive(s, images)
  {
    if images != [] {
      var front, n := images[..|images| - 1], |images| - 1;
      ImagesCountedExactly(s, front);
      ImagesSurviveStep(s, images);
      ImagesOkStep(s, images);
      ImagesCompleteExactly(s, front);
      if ImagesOk(s, front) {
        ImageSurvivesExactly(s, images);
        RecreateCountedExactly(CreateImages(s, front).store, images[n]);
        ImagesCompleteExactly(s, images);
      } else {
        assert !ImagesOk(s, images[..n]);
      }
    }
  }

  lemma {:induction false} RecordInstanceCounted(s: Store, id: Id, h: Id, vcpus: nat, kb: nat, disks: seq<Id>,
                                                 byPlm: bool)
    requires PoolsCounted(s)
    ensures PoolsCounted(RecordInstance(s, id, h, vcpus, kb, disks, byPlm).store)
  {
    SameLinksCounted(s, RecordInstance(s, id, h, vcpus, kb, disks, byPlm).store);
  }

  lemma {:induction false} RecordVolumesCounted(s: Store, found: seq<FoundVolume>)
    requires PoolsCounted(s)
    ensures PoolsCounted(RecordVolumes(s, found).store)
  {
    if found != [] {
      var front := RecordVolumes(s, found[..|found| - 1]);
      RecordVolumesCounted(s, found[..|found| - 1]);
      RecordVolumeCounted(front.store, found[|found| - 1]);
    }
  }

  lemma {:induction false} RecordVolumeCounted(s: Store, v: FoundVolume)
    requires PoolsCounted(s)
    ensures PoolsCounted(RecordVolume(s, v).store)
  {
    var t := RecordVolume(s, v).store;
    forall p | p in t.pools ensures PoolCounted(t, p) {
      assert PoolCounted(s, p);
      assert Carriers(t, p) == Carriers(s, p);
    }
  }

  /** A pool that no volume can refer to yet. */
  lemma {:induction false} NewPoolCounted(s: Store, p: Id, count: nat)
    requires PoolsCounted(s) && Carriers(s, p) == {}
    ensures PoolsCounted(s.(pools := s.pools[p := Pool(count, count)]))
  {
    var t := s.(pools := s.pools[p := Pool(count, count)]);
    forall q | q in t.pools ensures PoolCounted(t, q) {
      assert Carriers(t, q) == Carriers(s, q);
      if q != p { assert PoolCounted(s, q); }
    }
  }

  lemma {:induction false} NoCarriers(s: Store, p: Id)
    requires PoolsCounted(s) && p !in s.pools
    ensures Carriers(s, p) == {}
  {
    forall v | v in s.volumes ensures v !in Carriers(s, p) { }
  }

  predicate PoolSurvives(s: Store, r: PoolRequest) {
    r.created ==> Carriers(s, r.pool) == {}
  }

  /** Creating a pool under a name in use raises and starts its counter afresh: counts
      survive exactly when no live volume carries its uuid. */
  lemma {:induction false} RecreatePoolCountedExactly(s: Store, r: PoolRequest)
    requires PoolsCounted(s)
    ensures r.pool in s.pools ==> CreatePool(s, r).result == Raised
    ensures PoolsCounted(CreatePool(s, r).store) <==> PoolSurvives(s, r)
  {
    if r.created {
      var t := CreatePool(s, r).store;
      if PoolSurvives(s, r) {
        NewPoolCounted(s, r.pool, r.count);
      } else {
        assert Carriers(t, r.pool) == Carriers(s, r.pool);
        assert |Carriers(t, r.pool)| > 0;
        assert !PoolCounted(t, r.pool);
      }
    }
  }

  /** No missing pool that the loop gets to starts a counter afresh. */
  predicate MissingSurvive(s: Store, missing: seq<PoolRequest>) {
    forall k :: 0 <= k < |missing| ==> MissingSurvives(s, missing, k)
  }

  predicate MissingSurvives(s: Store, missing: seq<PoolRequest>, k: nat)
    requires k < |missing|
  {
    PoolsNew(s, missing[..k]) ==> PoolSurvives(s, missing[k])
  }

  lemma {:induction false} MissingCountedExactly(s: Store, missing: seq<PoolRequest>)
    requires PoolsCounted(s)
    ensures PoolsCounted(CreatePools(s, missing).store) <==> MissingSurvive(s, missing)
  {
    if missing != [] {
      var front, last, n := missing[..|missing| - 1], missing[|missing| - 1], |missing| - 1;
      MissingCountedExactly(s, front);
      PoolsCompleteExactly(s, front);
      MissingStep(s, missing);
      var t := CreatePools(s, front);
      if t.result.Done? {
        MissingNew(s, front);
        RecreatePoolCountedExactly(t.store, last);
        assert Carriers(t.store, last.pool) == Carriers(s, last.pool);
      }
    }
  }

  lemma {:induction false} MissingStep(s: Store, missing: seq<PoolRequest>)
    requires missing != []
    ensures MissingSurvive(s, missing) <==>
      MissingSurvive(s, missing[..|missing| - 1]) &&
      (PoolsNew(s, missing[..|missing| - 1]) ==> PoolSurvives(s, missing[|missing| - 1]))
  {
    var front, n := missing[..|missing| - 1], |missing| - 1;
    forall k | 0 <= k < n ensures MissingSurvives(s, missing, k) <==> MissingSurvives(s, front, k) {
      assert front[..k] == missing[..k];
    }
    assert MissingSurvive(s, missing) <==> MissingSurvive(s, front) && MissingSurvives(s, missing, n);
  }

  lemma {:induction false} RecordPoolsCounted(s: Store, found: seq<FoundPool>)
    requires PoolsCounted(s)
    ensures PoolsCounted(RecordPools(s, found).store)
  {
    if found != [] {
      RecordPoolsCounted(s, found[..|found| - 1]);
      var t, p := RecordPools(s, found[..|found| - 1]).store, found[|found| - 1];
      if p.pool !in t.pools { NoCarriers(t, p.pool); NewPoolCounted(t, p.pool, p.count); }
      RecordVolumesCounted(WithPool(t, p), p.volumes);
    }
  }

  lemma {:induction false} RecordDomainsCounted(s: Store, h: Id, found: seq<FoundDomain>)
    requires PoolsCounted(s) && h in s.nodes
    ensures PoolsCounted(RecordDomains(s, h, found).store)
  {
    if found != [] {
      RecordDomainsCounted(s, h, found[..|found| - 1]);
      var t, d := RecordDomains(s, h, found[..|found| - 1]).store, found[|found| - 1];
      RecordInstanceCounted(t, d.id, h, d.vcpus, d.vmemKb, d.disks, d.byPlm);
      var u := RecordInstance(t, d.id, h, d.vcpus, d.vmemKb, d.disks, d.byPlm).store;
      SameLinksCounted(u, Count(u, h, Usage(d.vcpus, d.vmemKb / 1024, 1)));
    }
  }

  lemma {:induction false} RunCountedExactly(s: Store, r: RunRequest)
    requires PoolsCounted(s)
    ensures PoolsCounted(Run(s, r).store) <==> KeepsCounts(s, InstanceRun(r))
    ensures Run(s, r).result.Done? ==> KeepsCounts(s, InstanceRun(r))
  {
    if r.host in s.nodes {
      var placed := Count(s, r.host, RequestOf(r));
      SameLinksCounted(s, placed);
      ImagesCountedExactly(placed, r.images);
      ImagesCompleteExactly(placed, r.images);
      SameImages(s, placed, r.images);
      var images := CreateImages(placed, r.images);
      if images.result.Done? {
        RecordInstanceCounted(images.store, r.id, r.host, r.vcpus, r.vmem * 1024, r.disks, true);
      }
    }
  }

  lemma {:induction false} SameImages(s: Store, t: Store, images: seq<VolumeRequest>)
    requires t.volumes == s.volumes && t.pools == s.pools
    ensures ImagesSurvive(t, images) <==> ImagesSurvive(s, images)
  {
    forall k | 0 <= k < |images| ensures ImageSurvives(t, images, k) <==> ImageSurvives(s, images, k) {
      SameImagesOk(s, t, images[..k]);
    }
  }

  lemma {:induction false} DestroyCounted(s: Store, id: Id, stuck: set<Id>)
    requires PoolsCounted(s)
    ensures PoolsCounted(Destroy(s, id, stuck).store)
  {
    if id in s.instances && s.instances[id].byPlm {
      DropDisksCounted(s, s.instances[id].disks, stuck);
      var dropped := DropDisks(s, s.instances[id].disks, stuck);
      if !dropped.result.Raised? { SameLinksCounted(dropped.store, Destroy(s, id, stuck).store); }
    }
  }

  lemma {:induction false} DestroyPoolCounted(s: Store, p: Id, deleted: bool)
    requires PoolsCounted(s)
    ensures PoolsCounted(DestroyPool(s, p, deleted).store)
  {
    var t := DestroyPool(s, p, deleted).store;
    if t != s {
      assert PoolCounted(s, p);
      assert Carriers(s, p) == {};
      forall v | v in t.volumes && t.volumes[v].pool.Some? ensures t.volumes[v].pool.value in t.pools {
        assert v !in Carriers(s, p);
      }
      forall q | q in t.pools ensures PoolCounted(t, q) {
        assert PoolCounted(s, q);
        assert Carriers(t, q) == Carriers(s, q);
      }
    }
  }

  lemma {:induction false} NewNodeCountedExactly(s: Store, h: Id, found: Hypervisor)
    requires PoolsCounted(s) && h !in s.nodes
    ensures PoolsCounted(RegisterNew(s, h, found).store) <==> MissingSurvive(s, found.missing)
  {
    var t := WithNode(s, h);
    SameLinksCounted(s, t);
    MissingCountedExactly(t, found.missing);
    SameSurvival(s, t, found.missing);
    PoolsCompleteExactly(t, found.missing);
    var created := CreatePools(t, found.missing);
    if created.result.Done? {
      MissingNew(t, found.missing);
      RecordPoolsCounted(created.store, found.pools);
      RecordDomainsCounted(Discover(t, found).store, h, found.domains);
    }
  }

  lemma {:induction false} SameSurvival(s: Store, t: Store, missing: seq<PoolRequest>)
    requires t.volumes == s.volumes && t.pools == s.pools
    ensures MissingSurvive(t, missing) <==> MissingSurvive(s, missing)
  {
    forall k | 0 <= k < |missing| ensures MissingSurvives(t, missing, k) <==> MissingSurvives(s, missing, k) {
      assert Carriers(t, missing[k].pool) == Carriers(s, missing[k].pool);
      SameNew(s, t, missing[..k]);
    }
  }

  lemma {:induction false} SameNew(s: Store, t: Store, missing: seq<PoolRequest>)
    requires t.pools == s.pools
    ensures PoolsNew(t, missing) <==> PoolsNew(s, missing)
  {
    assert forall k :: 0 <= k < |missing| ==> (PoolNew(t, missing, k) <==> PoolNew(s, missing, k));
  }

  lemma {:induction false} MissingNew(s: Store, missing: seq<PoolRequest>)
    requires PoolsCounted(s) && PoolsNew(s, missing)
    ensures MissingSurvive(s, missing)
  {
    forall k | 0 <= k < |missing| ensures MissingSurvives(s, missing, k) {
      assert PoolNew(s, missing, k);
      NoCarriers(s, missing[k].pool);
    }
  }

  /** The calls that keep the counts right. */
  predicate KeepsCounts(s: Store, c: Call) {
    match c
    case NodeRegister(h, found, _) => h in s.nodes || MissingSurvive(s, found.missing)
    case InstanceRun(r) => r.host in s.nodes ==> ImagesSurvive(s, r.images)
    case VolumeCreate(r) => CountSurvives(s, r)
    case StoragepoolCreate(r) => PoolSurvives(s, r)
    case _ => true
  }

  /** The counts survive a call if and only if it is one of those. */
  lemma {:induction false} StepCountedExactly(s: Store, c: Call)
    requires PoolsCounted(s)
    ensures PoolsCounted(Step(s, c).store) <==> KeepsCounts(s, c)
  {
    match c
    case NodeRegister(h, found, reached) =>
      if h in s.nodes { SameLinksCounted(s, Step(s, c).store); } else { NewNodeCountedExactly(s, h, found); }
    case NodeUnregister(h) => SameLinksCounted(s, Unregister(s, h).store);
    case InstanceRun(r) => RunCountedExactly(s, r);
    case InstanceDestroy(id, stuck) => DestroyCounted(s, id, stuck);
    case VolumeCreate(r) => RecreateCountedExactly(s, r);
    case VolumeDestroy(v, stuck) => DestroyVolumeCounted(s, v, stuck);
    case StoragepoolCreate(r) => RecreatePoolCountedExactly(s, r);
    case StoragepoolDestroy(p, deleted) => DestroyPoolCounted(s, p, deleted);
  }

  /** In every run, counts are right after each call exactly when every call keeps them. */
  lemma {:induction false} AlwaysCountedExactly(calls: seq<Call>, stores: seq<Store>, n: nat)
    requires History(calls, stores) && n <= |calls|
    ensures (forall m :: 0 <= m <= n ==> PoolsCounted(stores[m])) <==>
      (forall i :: 0 <= i < n ==> KeepsCounts(stores[i], calls[i]))
  {
    if n > 0 {
      AlwaysCountedExactly(calls, stores, n - 1);
      assert Follows(stores, calls, n - 1);
      if PoolsCounted(stores[n - 1]) { StepCountedExactly(stores[n - 1], calls[n - 1]); }
    }
  }

  /** So in every such run a pool passes the destroy check exactly when it had no volume when it
      was registered and no live volume carries its uuid. */
  lemma {:induction false} DestroyCheckExactly(calls: seq<Call>, stores: seq<Store>, n: nat, p: Id, deleted: bool)
    requires History(calls, stores) && n <= |calls| && p in stores[n].pools
    requires forall i :: 0 <= i < n ==> KeepsCounts(stores[i], calls[i])
    ensures DestroyPool(stores[n], p, deleted).result != StillHasVolumes <==>
      stores[n].pools[p].atRegistration == 0 &&
      forall v :: v in stores[n].volumes ==> stores[n].volumes[v].pool != Some(p)
  {
    AlwaysCountedExactly(calls, stores, n);
    assert PoolsCounted(stores[n]);
    assert PoolCounted(stores[n], p);
    if v :| v in stores[n].volumes && stores[n].volumes[v].pool == Some(p) {
      assert v in Carriers(stores[n], p);
    } else {
      assert Carriers(stores[n], p) == {};
    }
  }
}
