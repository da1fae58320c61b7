/** Runs of calls on the manager's store, when a call completes, and which calls keep the
    lists of instances right. */
module PlmRuns {
  import opened PlmStore
  import opened Wrappers

  datatype Call =
    | NodeRegister(host: Id, found: Hypervisor, reached: set<Id>)
    | NodeUnregister(host: Id)
    | InstanceRun(request: RunRequest)
    | InstanceDestroy(id: Id, stuck: set<Id>)
    | VolumeCreate(volume: VolumeRequest)
    | VolumeDestroy(v: Id, stuck: set<Id>)
    | StoragepoolCreate(pool: PoolRequest)
    | StoragepoolDestroy(p: Id, deleted: bool)

  ghost function Step(s: Store, c: Call): Reply {
    match c
    case NodeRegister(h, found, reached) => Register(s, h, found, reached)
    case NodeUnregister(h) => Unregister(s, h)
    case InstanceRun(r) => Run(s, r)
    case InstanceDestroy(id, stuck) => Destroy(s, id, stuck)
    case VolumeCreate(r) => CreateVolume(s, r)
    case VolumeDestroy(v, stuck) => DestroyVolume(s, v, stuck)
    case StoragepoolCreate(r) => CreatePool(s, r)
    case StoragepoolDestroy(p, deleted) => DestroyPool(s, p, deleted)
  }

  /** The stores after each call of a run, whatever the calls, from nothing registered. */
  ghost predicate History(calls: seq<Call>, stores: seq<Store>) {
    && |stores| == |calls| + 1 && stores[0] == EMPTY
    && forall n :: 0 <= n < |calls| ==> Follows(stores, calls, n)
  }

  ghost predicate Follows(stores: seq<Store>, calls: seq<Call>, n: nat)
    requires n < |calls| && n + 1 < |stores|
  {
    stores[n + 1] == Step(stores[n], calls[n]).store
  }

  // ---------------------------------------------------------------- when a run completes

  /** An earlier image of the run gets a record of this name. */
  predicate Earlier(images: seq<VolumeRequest>, k: nat, v: Id) {
    exists j :: 0 <= j < k && j < |images| && images[j].recorded && images[j].volume == v
  }

  /** The k-th image of a run can be created, given that those before it were. */
  predicate ImageOk(s: Store, images: seq<VolumeRequest>, k: nat)
    requires k < |images|
  {
    var r := images[k];
    && r.named in s.pools && r.landing in s.pools && r.created
    && (r.base.Some? ==> r.base.value in s.volumes || Earlier(images, k, r.base.value))
    && (r.recorded ==> r.volume !in s.volumes && !Earlier(images, k, r.volume))
  }

  predicate ImagesOk(s: Store, images: seq<VolumeRequest>) {
    forall k :: 0 <= k < |images| ==> ImageOk(s, images, k)
  }

  /** The request reaches the recording of its instance. */
  predicate Reaches(s: Store, r: RunRequest) {
    r.host in s.nodes && ImagesOk(s, r.images) && r.started
  }

  lemma {:induction false} EarlierInFront(images: seq<VolumeRequest>, k: nat, v: Id)
    requires k < |images|
    ensures Earlier(images[..|images| - 1], k, v) <==> Earlier(images, k, v)
  {
    var front := images[..|images| - 1];
    if j :| 0 <= j < k && j < |images| && images[j].recorded && images[j].volume == v { assert front[j] == images[j]; }
  }

  lemma {:induction false} ImagesOkStep(s: Store, images: seq<VolumeRequest>)
    requires images != []
    ensures ImagesOk(s, images) <==> ImagesOk(s, images[..|images| - 1]) && ImageOk(s, images, |images| - 1)
  {
    var front := images[..|images| - 1];
    forall k | 0 <= k < |front| ensures ImageOk(s, front, k) <==> ImageOk(s, images, k) {
      EarlierInFront(images, k, images[k].volume);
      if images[k].base.Some? { EarlierInFront(images, k, images[k].base.value); }
    }
  }

  /** The images of a run are all created exactly when each of them can be. */
  lemma {:induction false} ImagesCompleteExactly(s: Store, images: seq<VolumeRequest>)
    ensures var r := CreateImages(s, images);
      && (r.result.Done? <==> ImagesOk(s, images)) && (r.result.Raised? <==> !ImagesOk(s, images))
      && r.store.pools.Keys == s.pools.Keys
      && (r.result.Done? ==> forall v :: v in r.store.volumes <==> v in s.volumes || Earlier(images, |images|, v))
  {
    if images != [] {
      var front, last, n := images[..|images| - 1], images[|images| - 1], |images| - 1;
      ImagesCompleteExactly(s, front);
      ImagesOkStep(s, images);
      forall v ensures Earlier(front, n, v) <==> Earlier(images, n, v) {
        EarlierInFront(images, n, v);
      }
      forall v ensures Earlier(images, n + 1, v) <==> Earlier(images, n, v) || (last.recorded && last.volume == v) {
        if last.recorded && last.volume == v { assert images[n].volume == v; }
      }
    }
  }

  /** Images that are all created leave every volume that was there alone, and those that get
      a record carry the pool they land in. */
  lemma {:induction false} ImagesVolumes(s: Store, images: seq<VolumeRequest>)
    requires ImagesOk(s, images)
    ensures CreateImages(s, images).result.Done?
    ensures var t := CreateImages(s, images).store;
      && (forall v :: v in s.volumes ==> v in t.volumes && t.volumes[v] == s.volumes[v])
      && forall j :: 0 <= j < |images| && images[j].recorded ==>
           images[j].volume in t.volumes && t.volumes[images[j].volume] == Volume(Some(images[j].landing), None)
  {
    ImagesCompleteExactly(s, images);
    if images != [] {
      var front, n := images[..|images| - 1], |images| - 1;
      ImagesOkStep(s, images);
      ImagesVolumes(s, front);
      ImagesCompleteExactly(s, front);
      forall j | 0 <= j < n && images[j].recorded && images[n].recorded ensures images[j].volume != images[n].volume {
        assert front[j] == images[j] && ImageOk(s, images, n);
      }
      assert forall j :: 0 <= j < n ==> front[j] == images[j];
    }
  }

  /** What a run needs to complete, all of it known before the call. */
  lemma {:induction false} RunCompletesExactly(s: Store, r: RunRequest)
    ensures Run(s, r).result.Done? <==> Reaches(s, r) && r.id !in s.instances
    ensures Run(s, r).result.Raised? <==> !(Reaches(s, r) && r.id !in s.instances)
  {
    if r.host in s.nodes { PlacedImages(s, r); }
  }

  lemma {:induction false} SameImagesOk(s: Store, t: Store, images: seq<VolumeRequest>)
    requires t.volumes == s.volumes && t.pools == s.pools
    ensures ImagesOk(t, images) <==> ImagesOk(s, images)
  {
    assert forall k :: 0 <= k < |images| ==> (ImageOk(t, images, k) <==> ImageOk(s, images, k));
  }

  /** The node's counters do not matter to the images. */
  lemma {:induction false} PlacedImages(s: Store, r: RunRequest)
    requires r.host in s.nodes
    ensures var images := CreateImages(Count(s, r.host, RequestOf(r)), r.images);
      && (images.result.Done? <==> ImagesOk(s, r.images)) && (images.result.Raised? <==> !ImagesOk(s, r.images))
  {
    var placed := Count(s, r.host, RequestOf(r));
    ImagesCompleteExactly(placed, r.images);
    SameImagesOk(s, placed, r.images);
  }

  // ---------------------------------------------------------------- when a discovery completes

  predicate PoolsNew(s: Store, missing: seq<PoolRequest>) {
    forall k :: 0 <= k < |missing| ==> PoolNew(s, missing, k)
  }

  predicate PoolNew(s: Store, missing: seq<PoolRequest>, k: nat)
    requires k < |missing|
  {
    && missing[k].created && missing[k].pool !in s.pools
    && forall j :: 0 <= j < k ==> missing[j].pool != missing[k].pool
  }

  lemma {:induction false} PoolsCompleteExactly(s: Store, missing: seq<PoolRequest>)
    ensures var r := CreatePools(s, missing);
      && (r.result.Done? <==> PoolsNew(s, missing)) && (r.result.Raised? <==> !PoolsNew(s, missing))
      && r.store.volumes == s.volumes
      && (r.result.Done? ==> forall p :: p in r.store.pools <==>
           p in s.pools || exists j :: 0 <= j < |missing| && missing[j].pool == p)
  {
    if missing != [] {
      var front, n := missing[..|missing| - 1], |missing| - 1;
      PoolsCompleteExactly(s, front);
      assert forall j :: 0 <= j < n ==> front[j] == missing[j];
      forall k | 0 <= k < n ensures PoolNew(s, front, k) <==> PoolNew(s, missing, k) {
        assert front[k] == missing[k];
      }
      assert PoolsNew(s, missing) <==> PoolsNew(s, front) && PoolNew(s, missing, n);
    }
  }

  /** The volumes found, pool after pool. */
  function FoundVolumes(pools: seq<FoundPool>): seq<FoundVolume> {
    if pools == [] then [] else FoundVolumes(pools[..|pools| - 1]) + pools[|pools| - 1].volumes
  }

  predicate Among(found: seq<FoundVolume>, v: Id) {
    exists j :: 0 <= j < |found| && found[j].recorded && found[j].volume == v
  }

  predicate VolumesNew(s: Store, found: seq<FoundVolume>) {
    forall k :: 0 <= k < |found| && found[k].recorded ==>
      found[k].volume !in s.volumes && !Among(found[..k], found[k].volume)
  }

  lemma {:induction false} AmongStep(found: seq<FoundVolume>, v: FoundVolume, id: Id)
    ensures Among(found + [v], id) <==> Among(found, id) || (v.recorded && v.volume == id)
  {
    var all := found + [v];
    if v.recorded && v.volume == id { assert all[|found|] == v; }
    if j :| 0 <= j < |found| && found[j].recorded && found[j].volume == id { assert all[j] == found[j]; }
  }

  lemma {:induction false} VolumesNewStep(s: Store, found: seq<FoundVolume>, v: FoundVolume)
    ensures VolumesNew(s, found + [v]) <==>
      VolumesNew(s, found) && (v.recorded ==> v.volume !in s.volumes && !Among(found, v.volume))
  {
    var all := found + [v];
    assert all[..|found|] == found && all[|found|] == v;
    assert forall k :: 0 <= k < |found| ==> all[k] == found[k] && all[..k] == found[..k];
  }

  /** t has gained the volumes found. */
  ghost predicate Gained(s: Store, t: Store, found: seq<FoundVolume>) {
    forall v :: v in t.volumes <==> v in s.volumes || Among(found, v)
  }

  /** Found volumes are recorded until one of them has a record, here or in the store. */
  lemma {:induction false} VolumesCompleteExactly(s: Store, t: Store, before: seq<FoundVolume>, found: seq<FoundVolume>)
    requires Gained(s, t, before) && VolumesNew(s, before)
    ensures var r := RecordVolumes(t, found);
      && (r.result.Done? <==> VolumesNew(s, before + found)) && (r.result.Raised? <==> !VolumesNew(s, before + found))
      && (r.result.Done? ==> Gained(s, r.store, before + found))
  {
    if found == [] {
      assert before + found == before;
    } else {
      var front, last := found[..|found| - 1], found[|found| - 1];
      VolumesCompleteExactly(s, t, before, front);
      assert before + found == (before + front) + [last];
      VolumesNewStep(s, before + front, last);
      forall v ensures Among(before + found, v) <==> Among(before + front, v) || (last.recorded && last.volume == v) {
        AmongStep(before + front, last, v);
      }
    }
  }

  lemma {:induction false} NewInFront(s: Store, a: seq<FoundVolume>, b: seq<FoundVolume>)
    requires VolumesNew(s, a + b)
    ensures VolumesNew(s, a)
  {
    assert forall k :: 0 <= k < |a| ==> (a + b)[k] == a[k] && (a + b)[..k] == a[..k];
  }

  lemma {:induction false} PoolVolumesCompleteExactly(s: Store, pools: seq<FoundPool>)
    ensures var r := RecordPools(s, pools);
      && (r.result.Done? <==> VolumesNew(s, FoundVolumes(pools)))
      && (r.result.Raised? <==> !VolumesNew(s, FoundVolumes(pools)))
      && (r.result.Done? ==> Gained(s, r.store, FoundVolumes(pools)))
  {
    if pools != [] {
      var front, last := pools[..|pools| - 1], pools[|pools| - 1];
      PoolVolumesCompleteExactly(s, front);
      if VolumesNew(s, FoundVolumes(front)) {
        var t := RecordPools(s, front).store;
        VolumesCompleteExactly(s, WithPool(t, last), FoundVolumes(front), last.volumes);
      } else if VolumesNew(s, FoundVolumes(pools)) {
        NewInFront(s, FoundVolumes(front), last.volumes);
      }
    }
  }

  /** Missing pools can be created under new names, and no volume found has a record. */
  predicate Discoverable(s: Store, found: Hypervisor) {
    PoolsNew(s, found.missing) && VolumesNew(s, FoundVolumes(found.pools))
  }

  lemma {:induction false} DiscoveryCompletesExactly(s: Store, h: Id, found: Hypervisor)
    ensures Discover(WithNode(s, h), found).result.Raised? <==> !Discoverable(s, found)
    ensures Discover(WithNode(s, h), found).result.Done? <==> Discoverable(s, found)
  {
    var t := WithNode(s, h);
    PoolsCompleteExactly(t, found.missing);
    assert forall k :: 0 <= k < |found.missing| ==> (PoolNew(t, found.missing, k) <==> PoolNew(s, found.missing, k));
    PoolVolumesCompleteExactly(CreatePools(t, found.missing).store, found.pools);
  }

  predicate NamesFree(s: Store, found: seq<FoundDomain>) {
    forall k :: 0 <= k < |found| ==> found[k].id !in s.instances
  }

  lemma {:induction false} NamesFreeStep(s: Store, found: seq<FoundDomain>)
    requires found != []
    ensures NamesFree(s, found) <==> NamesFree(s, found[..|found| - 1]) && found[|found| - 1].id !in s.instances
  {
    var front := found[..|found| - 1];
    assert forall k :: 0 <= k < |front| ==> front[k] == found[k];
  }

  /** The found domain at which discovery stops. */
  function FirstTaken(s: Store, found: seq<FoundDomain>): (d: FoundDomain)
    requires !NamesFree(s, found)
    ensures d.id in s.instances
  {
    var front := found[..|found| - 1];
    NamesFreeStep(s, found);
    if NamesFree(s, front) then found[|found| - 1] else FirstTaken(s, front)
  }

  /** Found domains are all recorded exactly when no name is in use. */
  lemma {:induction false} DomainsCompleteExactly(s: Store, host: Id, found: seq<FoundDomain>)
    requires host in s.nodes && DistinctNames(found)
    ensures var r := RecordDomains(s, host, found);
      && (r.result.Done? <==> NamesFree(s, found)) && (r.result.Raised? <==> !NamesFree(s, found))
      && (r.result.Done? ==> forall i :: i in r.store.instances <==> i in s.instances || Named(found, i))
      && (r.result.Done? ==> forall i :: i in s.instances ==> r.store.instances[i] == s.instances[i])
  {
    if found != [] {
      var front, last := found[..|found| - 1], found[|found| - 1];
      DomainsCompleteExactly(s, host, front);
      NamesFreeStep(s, found);
      forall i ensures Named(found, i) <==> Named(front, i) || last.id == i {
        if last.id == i { assert found[|found| - 1].id == i; }
        if k :| 0 <= k < |front| && front[k].id == i { assert found[k].id == i; }
      }
      assert !Named(front, last.id);
    }
  }

  predicate Named(found: seq<FoundDomain>, i: Id) {
    exists k :: 0 <= k < |found| && found[k].id == i
  }

  // ---------------------------------------------------------------- lists of instances

  function On(s: Store, host: Id): set<Id> {
    set i | i in s.instances && s.instances[i].host == host
  }

  /** Each host's INSTANCELIST holds exactly the live instances of that host. */
  ghost predicate ListsAgree(s: Store) {
    forall h, i :: i in ListOf(s, h) <==> i in s.instances && s.instances[i].host == h
  }

  /** The host of a live instance is registered. */
  ghost predicate HostsKnown(s: Store) {
    forall i :: i in s.instances ==> s.instances[i].host in s.nodes
  }

  ghost predicate Consistent(s: Store) {
    ListsAgree(s) && HostsKnown(s)
  }

  /** The calls that keep the lists: a name in use is recorded again on its own host only. */
  predicate KeepsLists(s: Store, c: Call) {
    match c
    case NodeRegister(h, found, _) =>
      h in s.nodes || !Discoverable(s, found) || NamesFree(s, found.domains) ||
      s.instances[FirstTaken(s, found.domains).id].host == h
    case InstanceRun(r) => Reaches(s, r) && r.id in s.instances ==> s.instances[r.id].host == r.host
    case _ => true
  }

  /** ... and, for hosts to stay registered, a node leaves only without instances. */
  predicate KeepsConsistent(s: Store, c: Call) {
    KeepsLists(s, c) && (c.NodeUnregister? ==> On(s, c.host) == {})
  }

  lemma {:induction false} SameLists(s: Store, t: Store)
    requires t.instances == s.instances && t.lists == s.lists
    ensures ListsAgree(t) <==> ListsAgree(s)
  {
    forall h ensures ListOf(t, h) == ListOf(s, h) { }
  }

  /** Recording an instance under a name in use raises, yet overwrites the record; the lists
      still agree afterwards exactly when the instance was on the same host before. */
  lemma {:induction false} RerunListsExactly(s: Store, id: Id, host: Id, vcpus: nat, kb: nat, disks: seq<Id>, byPlm: bool)
    requires ListsAgree(s) && id in s.instances
    ensures RecordInstance(s, id, host, vcpus, kb, disks, byPlm).result == Raised
    ensures ListsAgree(RecordInstance(s, id, host, vcpus, kb, disks, byPlm).store) <==> s.instances[id].host == host
  {
    var t := RecordInstance(s, id, host, vcpus, kb, disks, byPlm).store;
    assert id in ListOf(s, s.instances[id].host);
    assert ListOf(t, s.instances[id].host) == ListOf(s, s.instances[id].host);
    if s.instances[id].host != host {
      assert id in ListOf(t, s.instances[id].host) && t.instances[id].host == host;
    } else {
      forall h, i ensures i in ListOf(t, h) <==> i in t.instances && t.instances[i].host == h {
        assert i in ListOf(s, h) <==> i in s.instances && s.instances[i].host == h;
        assert ListOf(t, h) == ListOf(s, h);
      }
    }
  }

  lemma {:induction false} RecordLists(s: Store, id: Id, host: Id, vcpus: nat, kb: nat, disks: seq<Id>, byPlm: bool)
    requires ListsAgree(s) && id !in s.instances
    ensures ListsAgree(RecordInstance(s, id, host, vcpus, kb, disks, byPlm).store)
  {
    var t := RecordInstance(s, id, host, vcpus, kb, disks, byPlm).store;
    forall h, i ensures i in ListOf(t, h) <==> i in t.instances && t.instances[i].host == h {
      assert i in ListOf(s, h) <==> i in s.instances && s.instances[i].host == h;
    }
  }

  lemma {:induction false} DomainListsExactly(s: Store, host: Id, d: FoundDomain)
    requires ListsAgree(s) && host in s.nodes
    ensures ListsAgree(RecordDomain(s, host, d).store) <==> d.id !in s.instances || s.instances[d.id].host == host
  {
    var t := RecordInstance(s, d.id, host, d.vcpus, d.vmemKb, d.disks, d.byPlm).store;
    SameLists(t, RecordDomain(s, host, d).store);
    if d.id in s.instances {
      RerunListsExactly(s, d.id, host, d.vcpus, d.vmemKb, d.disks, d.byPlm);
    } else {
      RecordLists(s, d.id, host, d.vcpus, d.vmemKb, d.disks, d.byPlm);
    }
  }

  /** A found domain whose name is in use takes the instance away from another host's list. */
  lemma {:induction false} DomainsListsExactly(s: Store, host: Id, found: seq<FoundDomain>)
    requires ListsAgree(s) && host in s.nodes && DistinctNames(found)
    ensures ListsAgree(RecordDomains(s, host, found).store) <==>
      NamesFree(s, found) || s.instances[FirstTaken(s, found).id].host == host
  {
    if found != [] {
      var front, d := found[..|found| - 1], found[|found| - 1];
      DomainsListsExactly(s, host, front);
      DomainsCompleteExactly(s, host, front);
      NamesFreeStep(s, found);
      if NamesFree(s, front) {
        assert !Named(front, d.id);
        DomainListsExactly(RecordDomains(s, host, front).store, host, d);
      }
    }
  }

  lemma {:induction false} NewNodeListsExactly(s: Store, h: Id, found: Hypervisor)
    requires ListsAgree(s) && h !in s.nodes
    ensures ListsAgree(RegisterNew(s, h, found).store) <==> KeepsLists(s, NodeRegister(h, found, {}))
  {
    DiscoveryCompletesExactly(s, h, found);
    var t := Discover(WithNode(s, h), found).store;
    SameLists(s, t);
    DomainsListsExactly(t, h, found.domains);
    SameTaken(s, t, found.domains);
  }

  lemma {:induction false} SameTaken(s: Store, t: Store, found: seq<FoundDomain>)
    requires t.instances == s.instances
    ensures NamesFree(t, found) <==> NamesFree(s, found)
    ensures !NamesFree(s, found) ==> FirstTaken(t, found) == FirstTaken(s, found)
  {
    if !NamesFree(s, found) {
      NamesFreeStep(s, found);
      SameTaken(s, t, found[..|found| - 1]);
    }
  }

  lemma {:induction false} PurgeLists(s: Store, host: Id, gone: set<Id>)
    requires ListsAgree(s) && gone <= ListOf(s, host)
    ensures ListsAgree(Purge(s, host, gone))
  {
    var t := Purge(s, host, gone);
    forall h, i ensures i in ListOf(t, h) <==> i in t.instances && t.instances[i].host == h {
      assert i in ListOf(s, h) <==> i in s.instances && s.instances[i].host == h;
      assert i in ListOf(s, host) <==> i in s.instances && s.instances[i].host == host;
    }
  }

  lemma {:induction false} RunListsExactly(s: Store, r: RunRequest)
    requires ListsAgree(s)
    ensures ListsAgree(Run(s, r).store) <==> KeepsLists(s, InstanceRun(r))
  {
    if r.host in s.nodes {
      var placed := Count(s, r.host, RequestOf(r));
      var images := CreateImages(placed, r.images);
      PlacedImages(s, r);
      SameLists(s, images.store);
      if Reaches(s, r) {
        if r.id in s.instances {
          RerunListsExactly(images.store, r.id, r.host, r.vcpus, r.vmem * 1024, r.disks, true);
        } else {
          RecordLists(images.store, r.id, r.host, r.vcpus, r.vmem * 1024, r.disks, true);
        }
      }
    }
  }

  lemma {:induction false} DestroyLists(s: Store, id: Id, stuck: set<Id>)
    requires ListsAgree(s)
    ensures ListsAgree(Destroy(s, id, stuck).store)
  {
    if id in s.instances && s.instances[id].byPlm {
      var i := s.instances[id];
      var t := DropDisks(s, i.disks, stuck).store;
      SameLists(s, t);
      assert id in ListOf(t, i.host);
      PurgeLists(t, i.host, {id});
      var gone := Purge(t, i.host, {id});
      if i.host in t.nodes { SameLists(gone, Count(gone, i.host, NONE.Minus(UsageOf(i)))); }
    }
  }

  lemma {:induction false} StaleStore(s: Store, h: Id, found: seq<FoundDomain>, reached: set<Id>)
    requires h in s.nodes
    ensures var t := RemoveStale(s, h, found, reached).store;
      t.volumes == s.volumes && t.pools == s.pools && t.instances == s.instances - Removed(s, h, found, reached)
  {
    var gone := Removed(s, h, found, reached);
    if gone == {} { assert s.instances - gone == s.instances; }
  }

  lemma {:induction false} StaleLists(s: Store, h: Id, found: seq<FoundDomain>, reached: set<Id>)
    requires ListsAgree(s) && h in s.nodes
    ensures ListsAgree(RemoveStale(s, h, found, reached).store)
  {
    var gone := Removed(s, h, found, reached);
    PurgeLists(s, h, gone);
    SameLists(Purge(s, h, gone), Count(Purge(s, h, gone), h, StaleCount(Sum(s.instances, gone))));
  }

  /** The lists survive a call if and only if it is one of those. */
  lemma {:induction false} StepListsExactly(s: Store, c: Call)
    requires ListsAgree(s)
    ensures ListsAgree(Step(s, c).store) <==> KeepsLists(s, c)
  {
    match c
    case NodeRegister(h, found, reached) =>
      if h in s.nodes { StaleLists(s, h, found.domains, reached); } else { NewNodeListsExactly(s, h, found); }
    case InstanceRun(r) => RunListsExactly(s, r);
    case InstanceDestroy(id, stuck) => DestroyLists(s, id, stuck);
    case _ => OtherLists(s, c);
  }

  lemma {:induction false} OtherLists(s: Store, c: Call)
    requires c.NodeUnregister? || c.VolumeCreate? || c.VolumeDestroy? || c.StoragepoolCreate? || c.StoragepoolDestroy?
    ensures Step(s, c).store.instances == s.instances && Step(s, c).store.lists == s.lists
    ensures ListsAgree(Step(s, c).store) <==> ListsAgree(s)
  {
    SameLists(s, Step(s, c).store);
  }

  // ---------------------------------------------------------------- hosts of instances

  lemma {:induction false} DomainsHosts(s: Store, host: Id, found: seq<FoundDomain>)
    requires HostsKnown(s) && host in s.nodes
    ensures HostsKnown(RecordDomains(s, host, found).store)
  {
    if found != [] { DomainsHosts(s, host, found[..|found| - 1]); }
  }

  /** A node that is unregistered leaves its instances behind. */
  lemma {:induction false} UnregisterHostsExactly(s: Store, h: Id)
    requires HostsKnown(s)
    ensures HostsKnown(Unregister(s, h).store) <==> On(s, h) == {}
  {
    if i :| i in On(s, h) {
      assert i in Unregister(s, h).store.instances;
    } else {
      forall i | i in s.instances ensures s.instances[i].host != h {
        assert i !in On(s, h);
      }
    }
  }

  /** Hosts of live instances stay registered unless a node with instances leaves. */
  lemma {:induction false} StepHostsExactly(s: Store, c: Call)
    requires HostsKnown(s)
    ensures HostsKnown(Step(s, c).store) <==> (c.NodeUnregister? ==> On(s, c.host) == {})
  {
    match c
    case NodeRegister(h, found, reached) =>
      if h in s.nodes {
        StaleStore(s, h, found.domains, reached);
      } else {
        DomainsHosts(Discover(WithNode(s, h), found).store, h, found.domains);
      }
    case NodeUnregister(h) => UnregisterHostsExactly(s, h);
    case _ =>
  }

  /** Lists are right and hosts registered after a call if and only if it keeps both. */
  lemma {:induction false} StepConsistentExactly(s: Store, c: Call)
    requires Consistent(s)
    ensures Consistent(Step(s, c).store) <==> KeepsConsistent(s, c)
  {
    StepListsExactly(s, c);
    StepHostsExactly(s, c);
  }

  /** On a node that is new to right lists, the first name in use is another host's. */
  lemma {:induction false} NewNodeFree(s: Store, h: Id, found: Hypervisor)
    requires Consistent(s) && h !in s.nodes && Discoverable(s, found) && KeepsLists(s, NodeRegister(h, found, {}))
    ensures NamesFree(s, found.domains) && On(s, h) == {}
  {
  }

  // ---------------------------------------------------------------- whole runs

  /** In every run, the lists are right after each call exactly when every call keeps them. */
  lemma {:induction false} AlwaysListsExactly(calls: seq<Call>, stores: seq<Store>, n: nat)
    requires History(calls, stores) && n <= |calls|
    ensures (forall m :: 0 <= m <= n ==> ListsAgree(stores[m])) <==>
      (forall i :: 0 <= i < n ==> KeepsLists(stores[i], calls[i]))
  {
    if n > 0 {
      AlwaysListsExactly(calls, stores, n - 1);
      assert Follows(stores, calls, n - 1);
      if ListsAgree(stores[n - 1]) { StepListsExactly(stores[n - 1], calls[n - 1]); }
    }
  }

  lemma {:induction false} AlwaysConsistentExactly(calls: seq<Call>, stores: seq<Store>, n: nat)
    requires History(calls, stores) && n <= |calls|
    ensures (forall m :: 0 <= m <= n ==> Consistent(stores[m])) <==>
      (forall i :: 0 <= i < n ==> KeepsConsistent(stores[i], calls[i]))
  {
    if n > 0 {
      AlwaysConsistentExactly(calls, stores, n - 1);
      assert Follows(stores, calls, n - 1);
      if Consistent(stores[n - 1]) { StepConsistentExactly(stores[n - 1], calls[n - 1]); }
    }
  }
}
