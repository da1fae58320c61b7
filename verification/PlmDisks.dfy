/** The loop over the volumes of an instance that is going (instance_destroy): when it gets
    through, and what it leaves. */
module PlmDisks {
  import opened PlmStore
  import opened Wrappers

  predicate OnDisk(disks: seq<Disk>, v: Id) {
    exists k :: 0 <= k < |disks| && disks[k].volume == v
  }

  /** The volume is a recorded disk, which is deleted and not only detached. */
  predicate Deleted(disks: seq<Disk>, v: Id) {
    exists k :: 0 <= k < |disks| && disks[k].recorded && disks[k].volume == v
  }

  /** The k-th disk is there when its turn comes, and can be deleted if it has to be. */
  predicate DiskDrops(s: Store, disks: seq<Disk>, k: nat, stuck: set<Id>)
    requires k < |disks|
  {
    var v := disks[k].volume;
    && v in s.volumes && !Deleted(disks[..k], v)
    && (disks[k].recorded ==> v !in stuck && (s.volumes[v].pool.Some? ==> s.volumes[v].pool.value in s.pools))
  }

  predicate Drops(s: Store, disks: seq<Disk>, stuck: set<Id>) {
    forall k :: 0 <= k < |disks| ==> DiskDrops(s, disks, k, stuck)
  }

  /** Pools keep their identity; only counters move. */
  ghost predicate SamePools(s: Store, t: Store) {
    && t.pools.Keys == s.pools.Keys
    && forall p :: p in s.pools ==> t.pools[p].atRegistration == s.pools[p].atRegistration
  }

  /** t lacks just the recorded disks of s, other disks have no owner any more, and every
      other volume is unchanged. */
  ghost predicate Dropped(s: Store, t: Store, disks: seq<Disk>) {
    && (forall v :: v in t.volumes <==> v in s.volumes && !Deleted(disks, v))
    && (forall v :: v in t.volumes ==>
         t.volumes[v] == if OnDisk(disks, v) then s.volumes[v].(owner := None) else s.volumes[v])
  }

  lemma {:induction false} DiskSplit(disks: seq<Disk>, d: Disk, v: Id)
    ensures OnDisk(disks + [d], v) <==> OnDisk(disks, v) || d.volume == v
    ensures Deleted(disks + [d], v) <==> Deleted(disks, v) || (d.recorded && d.volume == v)
  {
    var all := disks + [d];
    assert all[|disks|] == d;
    if OnDisk(disks, v) { var k :| 0 <= k < |disks| && disks[k].volume == v; assert all[k].volume == v; }
    if Deleted(disks, v) {
      var k :| 0 <= k < |disks| && disks[k].recorded && disks[k].volume == v;
      assert all[k] == disks[k];
    }
  }

  lemma {:induction false} DropsStep(s: Store, disks: seq<Disk>, stuck: set<Id>)
    requires disks != []
    ensures Drops(s, disks, stuck) <==>
      Drops(s, disks[..|disks| - 1], stuck) && DiskDrops(s, disks, |disks| - 1, stuck)
  {
    var front := disks[..|disks| - 1];
    forall k | 0 <= k < |front| ensures DiskDrops(s, front, k, stuck) <==> DiskDrops(s, disks, k, stuck) {
      assert front[..k] == disks[..k] && front[k] == disks[k];
    }
  }

  lemma {:induction false} DropDiskExactly(s: Store, d: Disk, stuck: set<Id>)
    ensures var r := DropDisk(s, d, stuck);
      && SamePools(s, r.store)
      && (r.result.Done? <==> DiskDrops(s, [d], 0, stuck)) && (r.result.Raised? <==> !DiskDrops(s, [d], 0, stuck))
      && (r.result.Done? ==> DiskGone(s, r.store, d))
  {
    assert !Deleted([d][..0], d.volume);
  }

  ghost predicate DiskGone(s: Store, t: Store, d: Disk) {
    && d.volume in s.volumes
    && (forall v :: v in t.volumes <==> v in s.volumes && !(d.recorded && d.volume == v))
    && (forall v :: v in t.volumes ==>
         t.volumes[v] == if d.volume == v then s.volumes[v].(owner := None) else s.volumes[v])
  }

  lemma {:induction false} DroppedTwice(s: Store, t: Store, u: Store, disks: seq<Disk>, d: Disk)
    requires Dropped(s, t, disks) && DiskGone(t, u, d)
    ensures Dropped(s, u, disks + [d])
  {
    forall v ensures v in u.volumes <==> v in s.volumes && !Deleted(disks + [d], v) {
      DiskSplit(disks, d, v);
    }
    forall v | v in u.volumes
      ensures u.volumes[v] == if OnDisk(disks + [d], v) then s.volumes[v].(owner := None) else s.volumes[v]
    {
      DiskSplit(disks, d, v);
    }
  }

  /** The loop gets through exactly if each disk can be dropped when its turn comes. */
  lemma {:induction false} DropDisksExactly(s: Store, disks: seq<Disk>, stuck: set<Id>)
    ensures var r := DropDisks(s, disks, stuck);
      && SamePools(s, r.store)
      && (r.result.Done? <==> Drops(s, disks, stuck)) && (r.result.Raised? <==> !Drops(s, disks, stuck))
      && (r.result.Done? ==> Dropped(s, r.store, disks))
  {
    if disks != [] {
      var front, last := disks[..|disks| - 1], disks[|disks| - 1];
      DropDisksExactly(s, front, stuck);
      DropsStep(s, disks, stuck);
      var t := DropDisks(s, front, stuck);
      if t.result.Done? {
        DropDiskExactly(t.store, last, stuck);
        assert !Deleted([last][..0], last.volume);
        assert DiskDrops(t.store, [last], 0, stuck) <==> DiskDrops(s, disks, |disks| - 1, stuck);
        assert front + [last] == disks;
        if DiskDrops(t.store, [last], 0, stuck) {
          DroppedTwice(s, t.store, DropDisk(t.store, last, stuck).store, front, last);
        }
      }
    }
  }

  /** Volumes of t had the same owner in s, or have none. */
  ghost predicate OnlyReleased(s: Store, t: Store) {
    forall v :: v in t.volumes ==>
      t.volumes[v].owner.None? || (v in s.volumes && s.volumes[v].owner == t.volumes[v].owner)
  }

  ghost predicate Released(s: Store, v: Id) {
    v in s.volumes ==> s.volumes[v].owner.None?
  }

  lemma {:induction false} DropDiskReleases(s: Store, d: Disk, stuck: set<Id>)
    ensures var r := DropDisk(s, d, stuck);
      && OnlyReleased(s, r.store)
      && (!r.result.Raised? ==> d.volume in r.store.volumes ==> r.store.volumes[d.volume].owner.None?)
  {
  }

  /** After its disks have been dropped no volume of the instance has an owner. */
  lemma {:induction false} DropDisksRelease(s: Store, disks: seq<Disk>, stuck: set<Id>)
    ensures OnlyReleased(s, DropDisks(s, disks, stuck).store)
    ensures !DropDisks(s, disks, stuck).result.Raised? ==>
      forall k :: 0 <= k < |disks| ==> Released(DropDisks(s, disks, stuck).store, disks[k].volume)
  {
    if disks != [] {
      var front, last := disks[..|disks| - 1], disks[|disks| - 1];
      DropDisksRelease(s, front, stuck);
      var t := DropDisks(s, front, stuck);
      if !t.result.Raised? {
        DropDiskReleases(t.store, last, stuck);
        forall k | 0 <= k < |disks| && !DropDisks(s, disks, stuck).result.Raised?
          ensures Released(DropDisks(s, disks, stuck).store, disks[k].volume)
        {
          if k < |front| { assert Released(t.store, front[k].volume); }
        }
      }
    }
  }

  /** The manager destroys an instance of its own exactly when every volume of it is still
      recorded when its turn comes, libvirt deletes those that have to be deleted, and the
      node is registered; otherwise the call raises after the domain has gone. */
  lemma {:induction false} DestroyCompletesExactly(s: Store, id: Id, stuck: set<Id>)
    requires id in s.instances && s.instances[id].byPlm
    ensures Destroy(s, id, stuck).result.Done? <==>
      Drops(s, s.instances[id].disks, stuck) && s.instances[id].host in s.nodes
    ensures Destroy(s, id, stuck).result.Raised? <==>
      !(Drops(s, s.instances[id].disks, stuck) && s.instances[id].host in s.nodes)
  {
    DropDisksExactly(s, s.instances[id].disks, stuck);
  }
}
