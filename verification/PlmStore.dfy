/** The object store of the Parallel Libvirt Manager (plm/plmserver.py) and what each call
    does to it.  An object's uuid is derived from its name, so one id stands for both. */
module PlmStore {
  import opened Wrappers

  type Id = string

  /** Virtual CPUs, memory in MB and instances: a node's three counters, or a sum of them. */
  datatype Usage = Usage(vcpus: int, vmem: int, instances: int) {
    function Plus(u: Usage): Usage { Usage(vcpus + u.vcpus, vmem + u.vmem, instances + u.instances) }
    function Minus(u: Usage): Usage { Usage(vcpus - u.vcpus, vmem - u.vmem, instances - u.instances) }
  }

  const NONE := Usage(0, 0, 0)

  /** A disk of a domain; `recorded` tells whether its volume was known when the instance
      was recorded (the volume_lvid attribute is present). */
  datatype Disk = Disk(volume: Id, recorded: bool)

  /** libvirt reports memory in KB. */
  datatype Instance = Instance(host: Id, vcpus: nat, vmemKb: nat, disks: seq<Disk>, byPlm: bool)

  /** storage_pool_uuid, present on volumes created here only, and instance_lvid. */
  datatype Volume = Volume(pool: Option<Id>, owner: Option<Id>)

  /** The volume counter; `atRegistration` is its first value, kept to speak about it. */
  datatype Pool = Pool(volumes: int, atRegistration: nat)

  datatype Store = Store(nodes: map<Id, Usage>, instances: map<Id, Instance>, lists: map<Id, set<Id>>,
                         volumes: map<Id, Volume>, pools: map<Id, Pool>)

  datatype Result = Done | NotFound | NotOurs | StillAttached | StillHasVolumes | Raised

  datatype Reply = Reply(store: Store, result: Result)

  const EMPTY := Store(map[], map[], map[], map[], map[])

  // ---------------------------------------------------------------- requests

  /** volume_create: the pool named, the pool it lands in (the snapshot pool when there is a
      base volume), whether the volume gets a record, and whether libvirt succeeds. */
  datatype VolumeRequest = VolumeRequest(volume: Id, named: Id, landing: Id, base: Option<Id>,
                                         recorded: bool, created: bool)

  /** instance_run for a new domain of the manager's own. */
  datatype RunRequest = RunRequest(id: Id, host: Id, vcpus: nat, vmem: nat, images: seq<VolumeRequest>,
                                   started: bool, disks: seq<Id>)

  /** storagepool_create, with libvirt's count of the volumes found in the new pool. */
  datatype PoolRequest = PoolRequest(pool: Id, count: nat, created: bool)

  /** What node_register finds on a hypervisor: the configured pools that libvirt does not
      define yet, and the pools, volumes and domains that it does.  Domains come from a
      dictionary keyed by their names. */
  datatype Hypervisor = Hypervisor(missing: seq<PoolRequest>, pools: seq<FoundPool>, domains: Domains)
  datatype FoundVolume = FoundVolume(volume: Id, recorded: bool)
  datatype FoundPool = FoundPool(pool: Id, count: nat, volumes: seq<FoundVolume>)
  datatype FoundDomain = FoundDomain(id: Id, vcpus: nat, vmemKb: nat, disks: seq<Id>, byPlm: bool)

  type Domains = found: seq<FoundDomain> | DistinctNames(found)

  predicate DistinctNames(found: seq<FoundDomain>) {
    forall i, j :: 0 <= i < j < |found| ==> found[i].id != found[j].id
  }

  // ---------------------------------------------------------------- pieces

  function ListOf(s: Store, host: Id): set<Id> {
    if host in s.lists then s.lists[host] else {}
  }

  /** The bookkeeping of nodes, instances and lists, which volumes and pools leave alone. */
  predicate SameInstances(s: Store, t: Store) {
    t.nodes == s.nodes && t.instances == s.instances && t.lists == s.lists
  }

  /** What one instance counts for: int(vmem)/1024 turns KB back to MB. */
  function UsageOf(i: Instance): Usage {
    Usage(i.vcpus, i.vmemKb / 1024, 1)
  }

  /** node_resource_update. */
  function Count(s: Store, host: Id, u: Usage): Store
    requires host in s.nodes
  {
    s.(nodes := s.nodes[host := s.nodes[host].Plus(u)])
  }

  function SetOwner(volumes: map<Id, Volume>, disks: seq<Id>, owner: Option<Id>): map<Id, Volume> {
    map v | v in volumes :: if v in disks then volumes[v].(owner := owner) else volumes[v]
  }

  function DisksOf(s: Store, disks: seq<Id>): (r: seq<Disk>)
    ensures |r| == |disks|
  {
    seq(|disks|, i requires 0 <= i < |disks| => Disk(disks[i], disks[i] in s.volumes))
  }

  /** The end of instance_run: disks are attached and the instance is recorded and listed.
      Recording a name that is in use overwrites the record and then raises. */
  function RecordInstance(s: Store, id: Id, host: Id, vcpus: nat, vmemKb: nat, disks: seq<Id>, byPlm: bool): Reply {
    var attached := s.(volumes := SetOwner(s.volumes, disks, Some(id)));
    var recorded := attached.(instances := s.instances[id := Instance(host, vcpus, vmemKb, DisksOf(s, disks), byPlm)]);
    if id in s.instances then Reply(recorded, Raised)
    else Reply(recorded.(lists := s.lists[host := ListOf(s, host) + {id}]), Done)
  }

  // ---------------------------------------------------------------- volumes and pools

  function CreateVolume(s: Store, r: VolumeRequest): Reply {
    if r.named !in s.pools || (r.base.Some? && r.base.value !in s.volumes) || r.landing !in s.pools || !r.created then
      Reply(s, Raised)
    else if !r.recorded then
      Reply(s, Done)
    else
      var recorded := s.(volumes := s.volumes[r.volume := Volume(Some(r.landing), None)]);
      if r.volume in s.volumes then Reply(recorded, Raised)
      else
        var pool := s.pools[r.landing];
        Reply(recorded.(pools := s.pools[r.landing := pool.(volumes := pool.volumes + 1)]), Done)
  }

  /** `stuck` holds the volumes that libvirt fails to delete. */
  function DestroyVolume(s: Store, v: Id, stuck: set<Id>): Reply {
    if v !in s.volumes then Reply(s, NotFound)
    else if s.volumes[v].owner.Some? then Reply(s, StillAttached)
    else if v in stuck then Reply(s, Raised)
    else
      var without := s.(volumes := s.volumes - {v});
      match s.volumes[v].pool
      case None => Reply(without, Done)
      case Some(p) =>
        if p !in s.pools then Reply(without, Raised)
        else Reply(without.(pools := s.pools[p := s.pools[p].(volumes := s.pools[p].volumes - 1)]), Done)
  }

  function CreatePool(s: Store, r: PoolRequest): Reply {
    if !r.created then Reply(s, Raised)
    else Reply(s.(pools := s.pools[r.pool := Pool(r.count, r.count)]), if r.pool in s.pools then Raised else Done)
  }

  function DestroyPool(s: Store, p: Id, deleted: bool): Reply {
    if p !in s.pools then Reply(s, NotFound)
    else if s.pools[p].volumes != 0 then Reply(s, StillHasVolumes)
    else if !deleted then Reply(s, Raised)
    else Reply(s.(pools := s.pools - {p}), Done)
  }

  // ---------------------------------------------------------------- instances

  function CreateImages(s: Store, images: seq<VolumeRequest>): (r: Reply)
    ensures SameInstances(s, r.store)
  {
    if images == [] then Reply(s, Done)
    else
      var front := CreateImages(s, images[..|images| - 1]);
      if front.result.Raised? then front else CreateVolume(front.store, images[|images| - 1])
  }

  function RequestOf(r: RunRequest): Usage {
    Usage(r.vcpus, r.vmem, 1)
  }

  /** The node's counters go up first; whatever fails afterwards leaves them up. */
  function Run(s: Store, r: RunRequest): Reply {
    if r.host !in s.nodes then Reply(s, Raised)
    else
      var images := CreateImages(Count(s, r.host, RequestOf(r)), r.images);
      if images.result.Raised? || !r.started then Reply(images.store, Raised)
      else RecordInstance(images.store, r.id, r.host, r.vcpus, r.vmem * 1024, r.disks, true)
  }

  /** One disk of an instance that is going: detached, and deleted if it was recorded. */
  function DropDisk(s: Store, d: Disk, stuck: set<Id>): Reply {
    if d.volume !in s.volumes then Reply(s, Raised)
    else
      var detached := s.(volumes := s.volumes[d.volume := s.volumes[d.volume].(owner := None)]);
      if d.recorded then DestroyVolume(detached, d.volume, stuck) else Reply(detached, Done)
  }

  function DropDisks(s: Store, disks: seq<Disk>, stuck: set<Id>): (r: Reply)
    ensures SameInstances(s, r.store)
  {
    if disks == [] then Reply(s, Done)
    else
      var front := DropDisks(s, disks[..|disks| - 1], stuck);
      if front.result.Raised? then front else DropDisk(front.store, disks[|disks| - 1], stuck)
  }

  function Destroy(s: Store, id: Id, stuck: set<Id>): Reply {
    if id !in s.instances then Reply(s, NotFound)
    else if !s.instances[id].byPlm then Reply(s, NotOurs)
    else
      var i := s.instances[id];
      var dropped := DropDisks(s, i.disks, stuck);
      if dropped.result.Raised? then dropped
      else
        var t := dropped.store;
        var gone := Purge(t, i.host, {id});
        if i.host !in t.nodes then Reply(gone, Raised)
        else Reply(Count(gone, i.host, NONE.Minus(UsageOf(i))), Done)
  }

  // ---------------------------------------------------------------- nodes

  function CreatePools(s: Store, missing: seq<PoolRequest>): (r: Reply)
    ensures SameInstances(s, r.store)
  {
    if missing == [] then Reply(s, Done)
    else
      var front := CreatePools(s, missing[..|missing| - 1]);
      if front.result.Raised? then front else CreatePool(front.store, missing[|missing| - 1])
  }

  function RecordVolume(s: Store, v: FoundVolume): Reply {
    if !v.recorded then Reply(s, Done)
    else if v.volume in s.volumes then
      Reply(s.(volumes := s.volumes[v.volume := s.volumes[v.volume].(owner := None)]), Raised)
    else Reply(s.(volumes := s.volumes[v.volume := Volume(None, None)]), Done)
  }

  function RecordVolumes(s: Store, found: seq<FoundVolume>): (r: Reply)
    ensures SameInstances(s, r.store)
  {
    if found == [] then Reply(s, Done)
    else
      var front := RecordVolumes(s, found[..|found| - 1]);
      if front.result.Raised? then front else RecordVolume(front.store, found[|found| - 1])
  }

  function WithPool(s: Store, p: FoundPool): Store {
    if p.pool in s.pools then s else s.(pools := s.pools[p.pool := Pool(p.count, p.count)])
  }

  function RecordPool(s: Store, p: FoundPool): (r: Reply)
    ensures SameInstances(s, r.store)
  {
    RecordVolumes(WithPool(s, p), p.volumes)
  }

  function RecordPools(s: Store, found: seq<FoundPool>): (r: Reply)
    ensures SameInstances(s, r.store)
  {
    if found == [] then Reply(s, Done)
    else
      var front := RecordPools(s, found[..|found| - 1]);
      if front.result.Raised? then front else RecordPool(front.store, found[|found| - 1])
  }

  function RecordDomain(s: Store, host: Id, d: FoundDomain): Reply
    requires host in s.nodes
  {
    var r := RecordInstance(s, d.id, host, d.vcpus, d.vmemKb, d.disks, d.byPlm);
    if r.result.Raised? then r else Reply(Count(r.store, host, Usage(d.vcpus, d.vmemKb / 1024, 1)), Done)
  }

  function RecordDomains(s: Store, host: Id, found: seq<FoundDomain>): (r: Reply)
    requires host in s.nodes
    ensures host in r.store.nodes
  {
    if found == [] then Reply(s, Done)
    else
      var front := RecordDomains(s, host, found[..|found| - 1]);
      if front.result.Raised? then front else RecordDomain(front.store, host, found[|found| - 1])
  }

  /** Pools that are missing, then pools and volumes that are there. */
  function Discover(s: Store, found: Hypervisor): (r: Reply)
    ensures SameInstances(s, r.store)
  {
    var created := CreatePools(s, found.missing);
    if created.result.Raised? then created else RecordPools(created.store, found.pools)
  }

  function Names(found: seq<FoundDomain>): set<Id> {
    set i | 0 <= i < |found| :: found[i].id
  }

  /** Instances on the host's list whose domain is gone. */
  function Stale(s: Store, host: Id, found: seq<FoundDomain>): set<Id> {
    ListOf(s, host) - Names(found)
  }

  /** One of the three amounts. */
  datatype Kind = Vcpus | Vmem | Instances

  function Part(u: Usage, k: Kind): int {
    match k case Vcpus => u.vcpus case Vmem => u.vmem case Instances => u.instances
  }

  /** An amount summed over a set of instances. */
  ghost function SumOf(instances: map<Id, Instance>, ids: set<Id>, k: Kind): int
    requires ids <= instances.Keys
  {
    if ids == {} then 0
    else var i :| i in ids; Part(UsageOf(instances[i]), k) + SumOf(instances, ids - {i}, k)
  }

  ghost function Sum(instances: map<Id, Instance>, ids: set<Id>): Usage
    requires ids <= instances.Keys
  {
    Usage(SumOf(instances, ids, Vcpus), SumOf(instances, ids, Vmem), SumOf(instances, ids, Instances))
  }

  /** What stale removal adds to the counters: the amounts are passed as they are, not
      negated, and only the instance count goes down. */
  ghost function StaleCount(u: Usage): Usage {
    Usage(u.vcpus, u.vmem, -u.instances)
  }

  /** Instances of one host leave the store and the host's list. */
  function Purge(s: Store, host: Id, gone: set<Id>): Store {
    s.(instances := s.instances - gone, lists := s.lists[host := ListOf(s, host) - gone])
  }

  /** The stale instances that one registration removes: all of them, or, when an entry of
      the list has no record, those that were reached before it. */
  function Removed(s: Store, host: Id, found: seq<FoundDomain>, reached: set<Id>): (gone: set<Id>)
    ensures gone <= Stale(s, host, found) && gone <= s.instances.Keys
  {
    var stale := Stale(s, host, found);
    if stale <= s.instances.Keys then stale else reached * stale * s.instances.Keys
  }

  ghost function RemoveStale(s: Store, host: Id, found: seq<FoundDomain>, reached: set<Id>): Reply
    requires host in s.nodes
  {
    var gone := Removed(s, host, found, reached);
    Reply(if gone == {} then s else Count(Purge(s, host, gone), host, StaleCount(Sum(s.instances, gone))),
          if Stale(s, host, found) <= s.instances.Keys then Done else Raised)
  }

  function WithNode(s: Store, host: Id): Store {
    s.(nodes := s.nodes[host := NONE])
  }

  function RegisterNew(s: Store, host: Id, found: Hypervisor): Reply {
    var r := Discover(WithNode(s, host), found);
    if r.result.Raised? then r else RecordDomains(r.store, host, found.domains)
  }

  ghost function Register(s: Store, host: Id, found: Hypervisor, reached: set<Id>): Reply {
    if host in s.nodes then RemoveStale(s, host, found.domains, reached) else RegisterNew(s, host, found)
  }

  function Unregister(s: Store, host: Id): Reply {
    if host in s.nodes then Reply(s.(nodes := s.nodes - {host}), Done) else Reply(s, NotFound)
  }
}
