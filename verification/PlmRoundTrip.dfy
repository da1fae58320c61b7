/** Destroying an instance undoes running it. */
module PlmRoundTrip {
  import opened PlmStore
  import opened PlmRuns
  import opened PlmPools
  import opened PlmDisks

  /** The images get volumes that have no record yet, each another one. */
  predicate FreshImages(s: Store, images: seq<VolumeRequest>) {
    && (forall i :: 0 <= i < |images| ==> images[i].volume !in s.volumes)
    && (forall i, j :: 0 <= i < j < |images| ==> images[i].volume != images[j].volume)
  }

  predicate IsImage(images: seq<VolumeRequest>, v: Id) {
    exists k :: 0 <= k < |images| && images[k].volume == v
  }

  /** t has the volumes of s unchanged and the images besides. */
  ghost predicate Grown(s: Store, t: Store, images: seq<VolumeRequest>) {
    && SamePools(s, t)
    && (forall v :: v in t.volumes <==> v in s.volumes || IsImage(images, v))
    && (forall v :: v in s.volumes ==> t.volumes[v] == s.volumes[v])
  }

  lemma {:induction false} ImageGrows(s: Store, t: Store, images: seq<VolumeRequest>, r: VolumeRequest)
    requires Grown(s, t, images) && CreateVolume(t, r).result.Done? && r.recorded
    ensures Grown(s, CreateVolume(t, r).store, images + [r])
    ensures r.volume !in s.volumes && !IsImage(images, r.volume)
  {
    var all, u := images + [r], CreateVolume(t, r).store;
    assert r.volume !in t.volumes && u.volumes.Keys == t.volumes.Keys + {r.volume};
    forall v ensures IsImage(all, v) <==> IsImage(images, v) || r.volume == v {
      if IsImage(images, v) { var k :| 0 <= k < |images| && images[k].volume == v; assert all[k].volume == v; }
      assert all[|images|].volume == r.volume;
    }
  }

  lemma {:induction false} ImagesGrow(s: Store, images: seq<VolumeRequest>)
    requires CreateImages(s, images).result.Done? && forall i :: 0 <= i < |images| ==> images[i].recorded
    ensures Grown(s, CreateImages(s, images).store, images) && FreshImages(s, images)
  {
    if images != [] {
      var front, last := images[..|images| - 1], images[|images| - 1];
      assert images == front + [last];
      ImagesCompleteExactly(s, front);
      ImagesGrow(s, front);
      ImageGrows(s, CreateImages(s, front).store, front, last);
      forall i | 0 <= i < |front| ensures images[i].volume != last.volume {
        assert IsImage(front, front[i].volume);
      }
    }
  }

  /** The domain has exactly the volumes that were created for it. */
  ghost predicate OwnImages(r: RunRequest) {
    && |r.disks| == |r.images|
    && forall i :: 0 <= i < |r.images| ==> r.images[i].recorded && r.disks[i] == r.images[i].volume
  }

  /** What running an instance adds to the volumes and pools. */
  lemma {:induction false} RunGrows(s: Store, r: RunRequest)
    requires Consistent(s) && PoolsCounted(s) && Run(s, r).result.Done? && OwnImages(r)
    ensures var t := Run(s, r).store;
      && PoolsCounted(t) && SamePools(s, t) && FreshImages(s, r.images)
      && (forall v :: v in t.volumes <==> v in s.volumes || IsImage(r.images, v))
      && (forall v :: v in s.volumes ==> !IsImage(r.images, v) && t.volumes[v] == s.volumes[v])
    ensures var t := Run(s, r).store;
      && r.id in t.instances && t.instances[r.id].byPlm && t.instances[r.id].host == r.host
      && |t.instances[r.id].disks| == |r.disks|
      && forall k :: 0 <= k < |r.disks| ==> t.instances[r.id].disks[k] == Disk(r.images[k].volume, true)
  {
    var placed := Count(s, r.host, RequestOf(r));
    var images := CreateImages(placed, r.images).store;
    ImagesCompleteExactly(placed, r.images);
    ImagesGrow(placed, r.images);
    RunCountedExactly(s, r);
    forall k | 0 <= k < |r.disks| ensures r.disks[k] in images.volumes && r.disks[k] == r.images[k].volume {
      assert IsImage(r.images, r.images[k].volume);
    }
    var t := Run(s, r).store;
    forall v | v in s.volumes ensures !IsImage(r.images, v) && t.volumes[v] == s.volumes[v] {
      NotAnImage(r, v);
    }
  }

  lemma {:induction false} NotAnImage(r: RunRequest, v: Id)
    requires OwnImages(r)
    ensures v in r.disks <==> IsImage(r.images, v)
  {
    if v in r.disks { var k :| 0 <= k < |r.disks| && r.disks[k] == v; assert r.images[k].volume == v; }
    if IsImage(r.images, v) { var k :| 0 <= k < |r.images| && r.images[k].volume == v; assert r.disks[k] == v; }
  }

  /** The disks of the new instance: distinct, all recorded, and no others than the images. */
  lemma {:induction false} NewDisks(s: Store, t: Store, images: seq<VolumeRequest>, disks: seq<Disk>)
    requires FreshImages(s, images) && |disks| == |images| && PoolsCounted(t)
    requires forall k :: 0 <= k < |disks| ==> disks[k] == Disk(images[k].volume, true)
    requires forall v :: v in t.volumes <==> v in s.volumes || IsImage(images, v)
    ensures Drops(t, disks, {})
    ensures forall v :: OnDisk(disks, v) <==> IsImage(images, v)
  {
    forall v ensures OnDisk(disks, v) <==> IsImage(images, v) {
      if OnDisk(disks, v) { var k :| 0 <= k < |disks| && disks[k].volume == v; assert images[k].volume == v; }
      if IsImage(images, v) { var k :| 0 <= k < |images| && images[k].volume == v; assert disks[k].volume == v; }
    }
    forall k | 0 <= k < |disks| ensures DiskDrops(t, disks, k, {}) {
      assert IsImage(images, images[k].volume);
      assert forall j :: 0 <= j < k ==> disks[..k][j] == disks[j];
    }
  }

  /** Destroying an instance right after running it restores the whole store: node counters
      (through KB and back), instances, lists, volumes and every pool counter. */
  lemma {:induction false} DestroyUndoesRun(s: Store, r: RunRequest)
    requires Consistent(s) && PoolsCounted(s) && Run(s, r).result.Done? && OwnImages(r)
    ensures var u := Destroy(Run(s, r).store, r.id, {});
      && u.result.Done?
      && u.store.nodes == s.nodes && u.store.instances == s.instances
      && u.store.volumes == s.volumes && u.store.pools == s.pools
      && forall h :: ListOf(u.store, h) == ListOf(s, h)
  {
    var t := Run(s, r).store;
    RunGrows(s, r);
    var disks := t.instances[r.id].disks;
    NewDisks(s, t, r.images, disks);
    DropDisksExactly(t, disks, {});
    RunRecords(s, r);
    assert r.id !in ListOf(s, r.host);
    InstancesRestored(s, r);
    VolumesRestored(s, t, Destroy(t, r.id, {}).store, r.images, disks);
    DestroyCounted(t, r.id, {});
    SamePoolsSameCounts(s, Destroy(t, r.id, {}).store);
  }

  lemma {:induction false} VolumesRestored(s: Store, t: Store, u: Store, images: seq<VolumeRequest>, disks: seq<Disk>)
    requires Dropped(t, u, disks) && forall k :: 0 <= k < |disks| ==> disks[k].recorded
    requires forall v :: OnDisk(disks, v) <==> IsImage(images, v)
    requires forall v :: v in t.volumes <==> v in s.volumes || IsImage(images, v)
    requires forall v :: v in s.volumes ==> !IsImage(images, v) && t.volumes[v] == s.volumes[v]
    ensures u.volumes == s.volumes
  {
    forall v ensures v in u.volumes <==> v in s.volumes {
      if OnDisk(disks, v) { var k :| 0 <= k < |disks| && disks[k].volume == v; assert Deleted(disks, v); }
    }
  }

  lemma {:induction false} InstancesRestored(s: Store, r: RunRequest)
    requires Run(s, r).result.Done? && r.id !in s.instances && r.id !in ListOf(s, r.host)
    requires r.id in Run(s, r).store.instances
    requires !DropDisks(Run(s, r).store, Run(s, r).store.instances[r.id].disks, {}).result.Raised?
    ensures var u := Destroy(Run(s, r).store, r.id, {});
      && u.result.Done? && u.store.nodes == s.nodes && u.store.instances == s.instances
      && forall h :: ListOf(u.store, h) == ListOf(s, h)
  {
    var t := Run(s, r).store;
    RunRecords(s, r);
    var u := Destroy(t, r.id, {}).store;
    assert r.vmem * 1024 / 1024 == r.vmem;
    assert u.nodes[r.host] == s.nodes[r.host];
    forall h ensures ListOf(u, h) == ListOf(s, h) {
      assert ListOf(u, h) == if h == r.host then ListOf(t, h) - {r.id} else ListOf(t, h);
    }
  }

  /** What a completed run adds to nodes, instances and lists. */
  lemma {:induction false} RunRecords(s: Store, r: RunRequest)
    requires Run(s, r).result.Done?
    ensures var t := Run(s, r).store;
      && r.host in s.nodes && r.id !in s.instances && r.id in t.instances
      && t.nodes == s.nodes[r.host := s.nodes[r.host].Plus(RequestOf(r))]
      && t.instances == s.instances[r.id := t.instances[r.id]]
      && t.lists == s.lists[r.host := ListOf(s, r.host) + {r.id}]
      && t.instances[r.id].host == r.host && t.instances[r.id].byPlm
      && t.instances[r.id].vcpus == r.vcpus && t.instances[r.id].vmemKb == r.vmem * 1024
  {
  }

  /** Counters are determined by the volumes, so equal volumes mean equal counters. */
  lemma {:induction false} SamePoolsSameCounts(s: Store, u: Store)
    requires PoolsCounted(s) && PoolsCounted(u) && SamePools(s, u) && u.volumes == s.volumes
    ensures u.pools == s.pools
  {
    forall p | p in s.pools ensures u.pools[p] == s.pools[p] {
      assert PoolCounted(s, p) && PoolCounted(u, p);
      assert Carriers(u, p) == Carriers(s, p);
    }
  }
}
