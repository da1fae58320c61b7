# CloudBench tool: a verified model

CloudBench (CBTOOL) drives cloud benchmarks. This project models the parts of it that keep
state, loop or compute, and proves what they promise. Where the code does not do what it
promises, the model follows the code, a lemma shows it, and the exact condition under which the
promise holds is proved.

| files | part of the system |
|---|---|
| PlmStore, PlmServer, PlmRuns, PlmAccounting, PlmPools, PlmDisks, PlmOwners, PlmEffects, PlmInvariants, PlmRoundTrip | the object store of the Parallel Libvirt Manager: nodes, instances, volumes and storage pools |
| MacAddress, CpuPinning | its MAC addresses and virtual CPU pinning |
| Substitution, ConfigFile | `${name}` expansion of configuration values and its in-place evaluation loops |
| TotalSize | the memory-footprint walk over a shared, possibly cyclic heap |
| BatchController | the adaptive batch size of the capacity experiment |
| ThreadPool | the worker pool as interleaved steps |
| DependencyOrder, VersionCompare | the installation order of dependencies and the minimum-version check |
| IpArithmetic, DictText | address arithmetic and the dictionary text format |
| VmCache | the client's cache of VM objects |
| FaultInjection | timed fault injection and repair |
| Strings, Division, Wrappers | what several of them share |

Loops and objects that the program updates in place are methods and classes here. Each is proved
against a function on values, and the properties are lemmas about those functions. Concurrency
is a state machine over atomic steps. Times are exact reals. `dafny verify dfyconfig.toml` checks
everything.

## What the code does differently from what it says

- Stale instances: `node_register` passes the amounts of an instance that is gone as they are,
  while `instance_placement` negates them. The CPU and memory counters of the node then exceed
  the live sums by twice the amounts (`PlmAccounting.RegisterLeakIs`, `LeakExactly`). Stale removal
  does not look at volumes either (`PlmOwners.StaleOwnersExactly`).
- A run under a name in use replaces the record of the instance. A volume that the new record does
  not list keeps its owner, and when the instance is destroyed that owner is gone
  (`PlmOwners.StepLiveExactly`).
- A run that fails after its placement leaves the node's counters raised, and one whose name is in
  use leaves what it overwrites on them (`PlmAccounting.RunLaw`).
- A task with a result that is added between the last poll of `wait_completion` and its return is
  missed, and can be lost for good (`ThreadPool.PutIsSafeExactly`, `OverlapLosesResult`).
- The comment on MAC addresses says that an increasing counter rules collisions out; the suffix
  wraps around (`MacAddress.CollideExactly`).
- The comment in `total_size` says that user handlers take precedence; a handler for a new type is
  tried after all built-in ones (`TotalSize.UserHandlerWins`).
- `refresh_vms` calls `check_for_new_vm` without the cloud name, which raises for every VM that is
  not cached yet. The lookup is a parameter of the model: `VmCache.AsWrittenAddsNothing` says what
  the call as written does, `RefreshVms` holds for every lookup. The comparison of a uuid with an
  object makes each new VM its own sibling, and the model keeps that.
- `statically_balance_vcpu_domains` passes wrong arguments when it reads a domain's CPU count; the
  counts are an input of the model.
- A repair countdown that lands exactly on zero is never acted on
  (`FaultInjection.TimerTellsExactly`, `LandedIsForgotten`, `OneFailedExactly`).
- An AI whose list of VMs is the empty text makes `refresh_vms` raise, and so does the model.

## Reading the manager's model

An object's uuid is derived from its name, so one id stands for both. `create_object` overwrites
an existing record and then raises because the name is taken; that is what `Raised` together with
a changed store means.

A run is any sequence of calls from the empty store, failing ones included (`PlmRuns.History`). The
accounting law holds of all of them. Each invariant comes with the exact set of calls that keep it,
given by guards on the store before the call and the request: `KeepsLists` for instance lists,
`KeepsConsistent` for lists and the registration of hosts, `KeepsCounts` for volume counters,
`KeepsLive` for live owners and `KeepsOwners` for owners that also list the volume as a disk. An
invariant holds throughout a run if and only if every call of the run is in its set. `Valid` of
class `Plm` is consistency, counts and owners together. `PlmEffects` says, record by record, what the
larger calls leave.

## Model

| member | source | states |
|---|---|---|
| PlmServer.Plm.NodeResourceUpdate | plm/plmserver.py:994-1032 | the three counters of one node move by the amounts given, the instance count by one up or down, and nothing else changes |
| PlmServer.Plm.InstancePlacement | plm/plmserver.py:1035-1087 | a placement adds the request to a registered node's counters, a termination takes it away, an unknown node raises and changes nothing |
| PlmServer.Plm.NodeRegister | plm/plmserver.py:747-917 | a new node is registered completely if and only if nothing found has a name in use; then exactly the pools, volumes and domains found are recorded, each pool with the number of volumes found in it, and the counters are the sums over the domains. On a known node stale instances leave, in whatever order, up to an entry without a record. A valid store has no such entry and stays valid exactly if the call is one that keeps it; counters obey the accounting law |
| PlmServer.Plm.RemoveStaleInstances | plm/plmserver.py:888-917 | in whatever order the listed instances are visited, those reached leave store and list and the counters move by their un-negated sums; with right lists all stale ones are reached |
| PlmServer.Plm.DiscoverDomains | plm/plmserver.py:850-866 | found domains are recorded, listed and counted one by one until a name is in use |
| PlmServer.Plm.NodeUnregister | plm/plmserver.py:958-992 | a valid store stays valid if and only if no live instance is on the node, and no other node's counters go off |
| PlmServer.Plm.AddInstance | plm/plmserver.py:1212-1261 | known disks are attached, the instance is recorded with which of them were known, and it is listed unless its name was in use |
| PlmServer.Plm.InstanceRun | plm/plmserver.py:1089-1265 | counters first, then images until one fails, then the domain, then the record, every failure leaving what was done before it; it completes if and only if host, images, domain and name allow it, keeps a valid store valid exactly under the guards, and obeys the accounting law |
| PlmServer.Plm.InstanceDestroy | plm/plmserver.py:1400-1464 | volumes are detached and deleted in turn, then record, list entry and counters go, or the loop stops with the instance still there; it completes if and only if every disk can be dropped in its turn, a valid store stays valid, no counter goes off, and owners stay live if and only if the instance owned no volume but its disks |
| PlmServer.Plm.VolumeCreate | plm/plmserver.py:1714-1887 | when it completes and what is recorded and counted then; a valid store stays valid if and only if the request takes over no recorded volume of another pool |
| PlmServer.Plm.VolumeDestroy | plm/plmserver.py:1917-1964 | an unattached volume goes and its pool's counter drops by one; a valid store stays valid, and in it an exception comes only from libvirt's refusal and changes nothing |
| PlmServer.Plm.StoragepoolCreate | plm/plmserver.py:1466-1628 | a valid store stays valid if and only if no live volume carries the pool's uuid yet |
| PlmServer.Plm.StoragepoolDestroy | plm/plmserver.py:1656-1712 | a valid store stays valid; in it a pool that goes had no volume when it was registered and no live volume carries its uuid |
| PlmEffects.RegistrationLeaves | plm/plmserver.py:747-866 | every pool, volume and domain found on a new node is recorded with what was found, earlier records stay, the last domain that lists a volume owns it, and lists and counters grow by the domains |
| PlmEffects.TakenVolumeReleased | plm/plmserver.py:1847-1859 | a found volume that has a record stops discovery, and the record loses its owner |
| PlmEffects.StaleRemovalLeaves | plm/plmserver.py:888-917 | stale removal gets through if and only if every stale entry has a record, and adds up what it removes |
| PlmEffects.RunLeaves | plm/plmserver.py:1089-1265 | a run adds its request to the node in any case; if it gets as far as its record, each image is a volume of its pool counted there, the instance is recorded with its disks, owns them and is listed; if not, only the images before the failure stay |
| PlmEffects.DestroyLeaves | plm/plmserver.py:1400-1464 | a destroy that drops all disks leaves no trace of instance and recorded disks and takes its numbers off node and pools; any other leaves the instance and only drops the disks before the failure |
| PlmEffects.SumLaws | plm/plmserver.py:1446-1450 | the sums that counters are compared with grow by an instance's CPUs, its memory in MB and one |
| PlmRuns.RunCompletesExactly | plm/plmserver.py:1148-1261 | instance_run completes if and only if the node is registered, every image can be created given those before it, the domain starts and the name is new |
| PlmRuns.ImagesCompleteExactly | plm/plmserver.py:1196-1206 | the image loop completes if and only if each image names pools and a base that are there by then and a volume that is new by then, and libvirt creates it |
| PlmRuns.DiscoveryCompletesExactly | plm/plmserver.py:794-848 | discovery completes if and only if the missing pools can be created under new names and no volume found has a record, in the store or earlier in the listing |
| PlmRuns.StepListsExactly | plm/plmserver.py:1255-1258 | a call keeps each host's INSTANCELIST equal to its live instances if and only if it records no name in use for another host, neither by a run nor by the first found domain whose name is in use |
| PlmRuns.StepHostsExactly | plm/plmserver.py:958-992 | hosts of live instances stay registered if and only if no node with instances is unregistered |
| PlmRuns.StepConsistentExactly | plm/plmserver.py:1255-1258 | a call keeps both if and only if it is in both sets |
| PlmRuns.AlwaysListsExactly | plm/plmserver.py:1438-1442 | lists are right after each call of a run if and only if every call keeps them |
| PlmRuns.AlwaysConsistentExactly | plm/plmserver.py:1438-1442 | the same for lists and hosts together |
| PlmRuns.RerunListsExactly | lib/stores/redis_datastore_adapter.py:1337-1345 | recording an instance under a name in use raises after overwriting; lists still agree if and only if it was on the same host |
| PlmAccounting.StepLaw | plm/plmserver.py:994-1032 | for every call on every store, what it adds to the difference between a node's counters and the sums over its instances |
| PlmAccounting.RunLaw | plm/plmserver.py:1148-1258 | a run that completes keeps counters and sums in step through MB to KB and back; one that fails after placement leaves the whole request on the counters; one whose name is in use leaves what the overwritten instance counted for, on the host where that was |
| PlmAccounting.DestroyLaw | plm/plmserver.py:1446-1450 | instance_destroy takes off exactly what the instance counted for, or leaves both sides alone when it raises |
| PlmAccounting.StaleLaw | plm/plmserver.py:912-917 | stale removal adds the un-negated sums of what it removes to its node and takes those instances off the sums of the nodes they are on |
| PlmAccounting.RegisterLeakIs | plm/plmserver.py:912-917 | with right lists a registration puts CPUs and memory of its own node off by twice the stale sums, keeps the instance count right and touches no other node |
| PlmAccounting.CountersAccounted | plm/plmserver.py:994-1032 | after every run, whatever its calls, each counter of each registered node is the sum over its live instances plus exactly what leaked since its registration |
| PlmAccounting.LeakExactly | plm/plmserver.py:888-917 | while lists are right, a call leaks on a node if and only if it is a run there that cannot complete or a registration that removes a stale instance with CPUs or memory |
| PlmAccounting.ConservedExactly | plm/plmserver.py:1060-1084 | after every run that keeps the lists right, a node's three counters equal the sums over its live instances if and only if since its registration every run on it could complete and no stale instance with CPUs or memory was removed from it |
| PlmPools.StepCountedExactly | plm/plmserver.py:1854-1877 | a call keeps each pool's counter equal to its first value plus the live volumes carrying its uuid, and no uuid of a missing pool carried, if and only if no volume that it gets to record is taken over from another pool, in the store or among the images before it, and no pool with volumes starts its counter afresh |
| PlmPools.AlwaysCountedExactly | plm/plmserver.py:1932-1951 | counts are right after each call of a run if and only if every call is one of those |
| PlmPools.DestroyCheckExactly | plm/plmserver.py:1673 | in every such run a pool passes the destroy check if and only if it started empty and no live volume carries its uuid |
| PlmPools.RecreateCountedExactly | lib/stores/redis_datastore_adapter.py:1337-1345 | recreating a volume under a name in use raises; pool counters survive if and only if it was in that pool |
| PlmPools.RecreatePoolCountedExactly | lib/stores/redis_datastore_adapter.py:1337-1345 | recreating a pool under a name in use raises; counters survive if and only if no live volume carries its uuid |
| PlmOwners.StepLiveExactly | plm/plmserver.py:1400-1464 | every volume's owner is a live instance after a call if and only if it removes no stale instance that owns a volume and destroys no instance that owns a volume which is none of its disks |
| PlmOwners.OwnersAlwaysLiveExactly | plm/plmserver.py:1422-1444 | owners are live after each call of a run if and only if every call is one of those |
| PlmOwners.StepRightExactly | plm/plmserver.py:1220-1253 | a call keeps owners live and each volume among its owner's disks if and only if it removes no stale instance that owns a volume and every record it overwrites is replaced by one with all volumes that the name owns by then |
| PlmOwners.OwnersAlwaysRightExactly | plm/plmserver.py:1422-1444 | the same after each call of a run if and only if every call is one of those |
| PlmOwners.StaleOwnersExactly | plm/plmserver.py:888-917 | after stale removal owners are live if and only if no removed instance owned a volume |
| PlmDisks.DropDisksRelease | plm/plmserver.py:1422-1434 | after the volume loop of a destroy no volume of the instance has an owner and no other owner changed |
| PlmDisks.DropDisksExactly | plm/plmserver.py:1422-1434 | the loop gets through if and only if each disk is recorded when its turn comes, was not deleted before, and can be deleted if it has to be; then just the recorded disks are gone and the others without an owner |
| PlmInvariants.StepSoundExactly | lib/stores/redis_datastore_adapter.py:1337-1345 | a call keeps lists, volume counts and owners all right if and only if it is in all three sets |
| PlmDisks.DestroyCompletesExactly | plm/plmserver.py:1400-1464 | whatever libvirt refuses to delete, destroying an instance of the manager's own completes if and only if the loop gets through and the node is registered, and raises otherwise |
| PlmRoundTrip.DestroyUndoesRun | plm/plmserver.py:1446-1450 | running an instance and destroying it restores counters, instances, lists, volumes and pool counters |
| MacAddress.Cluster.GenerateMac | plm/plmserver.py:479-522 | the counter goes up by one; six bytes, the prefix first, then the selector, then bytes that decode to the counter modulo their number |
| MacAddress.MacLength | plm/plmserver.py:514 | six bytes if and only if the prefix has at most five, and never fewer |
| MacAddress.SuffixDecodes | plm/plmserver.py:518-520 | the suffix decodes to the counter modulo 256 to the number of its bytes |
| MacAddress.CollideExactly | plm/plmserver.py:503-522 | two addresses are equal if and only if selectors are and counters are congruent modulo 256^(5-p) |
| MacAddress.WindowIsUnique | plm/plmserver.py:503-507 | any 256^(5-p) calls in a row differ pairwise, and the next repeats the first for the same user |
| IpArithmetic.Powers | plm/plmserver.py:514-520 | 256, 65536, 16777216 and 4294967296 suffixes of one to four bytes |
| CpuPinning.Balance | plm/plmserver.py:2351-2371 | every virtual CPU is pinned once, in order, to the next physical CPU in turn |
| CpuPinning.Balanced | plm/plmserver.py:2359-2371 | each goes to exactly one physical CPU, and any two loads differ by at most one |
| CpuPinning.EachPinnedOnce | plm/plmserver.py:2359-2371 | every virtual CPU of every domain is pinned, no other is, and none twice |
| Substitution.LoopComputesMeaning | lib/auxiliary/config.py:388-395 | without a cycle the replacement loop ends, within the number of names to expand, with the full recursive substitution or its unknown name |
| Substitution.LoopIsSound | lib/auxiliary/config.py:70-73 | a value that the loop delivers is the full recursive substitution |
| Substitution.LoopExact | lib/auxiliary/config.py:388-395 | the loop ends with a value if and only if recursive substitution has one; they are equal and hold no name |
| Substitution.RoundKeepsMeaning | lib/auxiliary/config.py:101-108 | replacing all occurrences of one name keeps the meaning and pays for each occurrence |
| Substitution.RoundRemovesName | lib/auxiliary/config.py:101-108 | a round leaves no occurrence of a name that its value does not contain |
| Substitution.MeaningLaws | lib/auxiliary/config.py:64-108 | literals mean themselves, a name what its value means, a concatenation what its parts mean; an unknown name or a cycle spoils it |
| Substitution.KeyIsLowerCase | lib/auxiliary/config.py:70-73 | names are looked up with capitals made small and nothing else changed |
| Substitution.NeverReturns | lib/auxiliary/config.py:64-108 | a value that expands never leads back to its own key |
| Substitution.RefinedSameMeaning | lib/auxiliary/config.py:373-400 | overwriting any values by their expansions changes the expansion of no text |
| ConfigFile.ExpandValue | lib/auxiliary/config.py:388-395 | the loop on one value returns its recursive meaning, literal when it is known |
| ConfigFile.Definitions.EvaluateSection | lib/auxiliary/config.py:373-400 | in whatever order keys are visited, each ends with the meaning it had before among the section's own values and the user-defined ones that they do not shadow; failure if and only if one has none |
| ConfigFile.Definitions.EvaluateFile | lib/auxiliary/config.py:373-400 | the same for every section of the file, in whatever order sections are visited, when none changes what a user-defined value means |
| ConfigFile.InvisibleExactly | lib/auxiliary/config.py:70-73 | evaluating user-defined values first changes the meaning of no text of a section if and only if each of them that expands expands to the same text seen from the section |
| ConfigFile.NoShadowIsEnough | lib/auxiliary/config.py:70-73 | a section that shadows no name used in a user-defined value is such a section |
| ConfigFile.ShadowingShows | lib/auxiliary/config.py:70-73 | an instance of the other kind, whose value depends on the order |
| TotalSize.Walk.SizeOf | lib/auxiliary/code_instrumentation.py:252-265 | one call counts exactly the objects it newly sees, all reachable from its argument and closed under contents |
| TotalSize.ComputeTotalSize | lib/auxiliary/code_instrumentation.py:229-267 | on every finite heap the walk ends with the sizes of the objects reachable from the root, each once; without user handlers reachable means by keys, values and elements of the built-in containers |
| TotalSize.BuiltInYields | lib/auxiliary/code_instrumentation.py:240-247 | the built-in handlers yield the elements of a sequence or set, the keys and values of a dictionary, and nothing of other objects |
| TotalSize.UserHandlerWins | lib/auxiliary/code_instrumentation.py:240-263 | for a whole dictionary of user handlers, one of a known type serves an object if and only if no built-in handler in front of its slot does, one of a new type if and only if no built-in handler and no user handler before it does |
| TotalSize.UserHandlerShadowed | lib/auxiliary/code_instrumentation.py:248 | a handler for a subclass of list is never used |
| BatchController.CapacityPhase | scenarios/instance_provision_capacity.py:760-1176 | the loop ends where the controller says or right after a batch that stops it, and leaves its size; the first batch changes nothing |
| BatchController.State.Compare | scenarios/instance_provision_capacity.py:1061-1166 | a ratio that rose, or fell with a changed number of failed VMs, counts as a failure and clears successes, any other the other way round; what size, single-VM counter and end become |
| BatchController.RunSafe | scenarios/instance_provision_capacity.py:1076-1166 | in every run the size stays between 0 and the initial one, is 0 only at the end, and the controller ends only after five failing batches in a row or as many as the hysteresis |
| BatchController.FailuresEnd | scenarios/instance_provision_capacity.py:1076-1123 | exactly how many failing batches in a row end the experiment, from any state |
| BatchController.FailuresBound | scenarios/instance_provision_capacity.py:1076-1123 | h + floor(log_f B) + 5 always suffice |
| BatchController.FailuresBoundTight | scenarios/instance_provision_capacity.py:1076-1123 | one fewer does not, from any power of the factor |
| BatchController.SuccessesRestore | scenarios/instance_provision_capacity.py:1125-1149 | exactly how many other batches in a row restore the initial size |
| BatchController.StreaksDecideRun | scenarios/instance_provision_capacity.py:763-1176 | anywhere in any run, enough batches with rising failure ratios end it, and enough with settled ones restore the initial size |
| BatchController.RisingEndsExactly | scenarios/instance_provision_capacity.py:757-1123 | from the start at a power of the factor, exactly which batch of an ever rising failure ratio ends the experiment |
| BatchController.FloorLogIsLog | scenarios/instance_provision_capacity.py:1093 | the count of divisions is the integer logarithm |
| BatchController.CeilLogIsLeast | scenarios/instance_provision_capacity.py:1147-1149 | the count of multiplications is the least that reaches the initial size |
| ThreadPool.AlwaysCounted | lib/auxiliary/thread_pool.py:35-49 | over every interleaving the unfinished count is queued plus running tasks |
| ThreadPool.PoolKeepsShape | lib/auxiliary/thread_pool.py:53-61 | a pool of n threads keeps n workers, and a task can be added exactly while fewer than n are queued |
| ThreadPool.FirstInFirstOut | lib/auxiliary/thread_pool.py:35-61 | over every interleaving tasks are taken up in the order in which they were added |
| ThreadPool.WaitReturnsEveryResult | lib/auxiliary/thread_pool.py:76-86 | when no task with a result is added between the last poll of a wait and its return, it returns as a multiset one result per task added since the last wait that did not raise, those added while it polls included |
| ThreadPool.PutIsSafeExactly | lib/auxiliary/thread_pool.py:59-86 | from any state reached so, adding a task leaves all waits complete, whatever follows, if and only if no wait is past its last poll or the task raises |
| ThreadPool.PutIsMissed | lib/auxiliary/thread_pool.py:76-86 | in that window the wait returns one result too few, before its copy and after it |
| ThreadPool.OverlapLosesResult | lib/auxiliary/thread_pool.py:40-86 | in that window a schedule of any pool with a worker loses the result to this wait and all later ones: the wait returns what it would have without the task, and then no list holds a result and nothing is pending |
| ThreadPool.SomeWorkerCanMove | lib/auxiliary/thread_pool.py:35-49 | with a worker, some worker step is possible if and only if a task is unfinished |
| ThreadPool.WaitEnds | lib/auxiliary/thread_pool.py:76-79 | any schedule of worker steps ends the wait after exactly the work left |
| DependencyOrder.BuildList | lib/auxiliary/dependencies.py:968-985 | insertion and compaction give the names in the install order |
| DependencyOrder.InstallsEachOnce | lib/auxiliary/dependencies.py:979-985 | whatever the orders, every dependency is installed exactly once |
| DependencyOrder.InOrderExactly | lib/auxiliary/dependencies.py:968-985 | with orders below 250 the list is sorted, ties newest first, if and only if no dependency is pushed to the slot of a later one with a higher order |
| DependencyOrder.FewPushesSuffice | lib/auxiliary/dependencies.py:979-985 | fewer than twenty later dependencies of no higher order are harmless |
| DependencyOrder.TwentyPushesBreak | lib/auxiliary/dependencies.py:979-985 | twenty are not, at any order that has a next one |
| DependencyOrder.AppendedAtEnd | lib/auxiliary/dependencies.py:969-983 | a dependency whose place is beyond the list of 5000 and those inserted is installed after all met so far |
| DependencyOrder.LargeOrdersBreak | lib/auxiliary/dependencies.py:969-985 | so if the last one met is of such an order and a higher one came before it, the list is not sorted |
| VersionCompare.AcceptsExactly | lib/auxiliary/dependencies.py:873-908 | a version is accepted if and only if any will do or both are readable and it is not older with missing components read as zero; a mismatch is reported if and only if one is unreadable |
| VersionCompare.CleanLaws | lib/auxiliary/dependencies.py:885-887 | digits and dots stay in their order, everything else goes |
| VersionCompare.NumberLaws | lib/auxiliary/dependencies.py:888-889 | components are read in base ten |
| VersionCompare.AnyHasEightSpellings | lib/auxiliary/dependencies.py:880-883 | which minimum versions accept anything |
| VersionCompare.CmpIsPaddedOrder | lib/auxiliary/data_ops.py:634-635 | list comparison of stripped versions is comparison padded with infinitely many zeros |
| VersionCompare.StripKeepsDigits | lib/auxiliary/dependencies.py:888-890 | stripping changes neither readability nor any padded component |
| VersionCompare.OlderIsStrictWeakOrder | lib/auxiliary/data_ops.py:634-635 | the padded order is a total preorder |
| VersionCompare.AcceptanceIsUpwardClosed | lib/auxiliary/dependencies.py:898-908 | what is at least as new as an accepted version is accepted |
| IpArithmetic.AddIpAddress | lib/auxiliary/data_ops.py:570-589 | the carry loop with early exit leaves the octets of the recursive addition; on four octets it adds 32-bit numbers |
| IpArithmetic.AddsModulo | lib/auxiliary/data_ops.py:577-587 | for delta >= 0 the result has octets in range and the value (old + delta) modulo 256^n |
| IpArithmetic.AddsCompose | lib/auxiliary/data_ops.py:570-589 | adding a and then b is adding a + b |
| IpArithmetic.NegativeDelta | lib/auxiliary/data_ops.py:578-587 | a negative delta gives an address if and only if the last octet covers it |
| DictText.ComputeDic2Str | lib/auxiliary/data_ops.py:111-136 | the text is built back to front and loses its last comma |
| DictText.ComputeStr2Dic | lib/auxiliary/data_ops.py:78-108 | pieces are read left to right, a piece without a colon is an index error |
| DictText.TextOfItems | lib/auxiliary/data_ops.py:119-122 | the text of a dictionary is KEY:VALUE for each item, the last first, with commas between them |
| DictText.ReadsPiece | lib/auxiliary/data_ops.py:86-93 | a piece without a colon is an index error; otherwise the key stands before the first colon and the value before the next |
| DictText.ReadsMore | lib/auxiliary/data_ops.py:86-93 | a further piece overwrites the key's earlier value, or makes the text unreadable |
| Strings.JoinSplit | lib/auxiliary/data_ops.py:86 | splitting loses nothing: joining gives the text back |
| DictText.RoundTripExactly | lib/auxiliary/data_ops.py:78-136 | the dictionary comes back if and only if it is not empty and holds neither separator |
| VmCache.Client.AddMembers | lib/api/api_service_client.py:247-257 | VMs of one AI that are not cached are looked up and added, all are struck off the stale ones, up to the first lookup that raises |
| VmCache.Client.LinkSiblings | lib/api/api_service_client.py:258-266 | every new VM of an AI lists all of them, itself included, and has the last client among them as its client |
| VmCache.Client.RefreshVms | lib/api/api_service_client.py:227-281 | after a completed refresh the cache holds exactly the VMs of all current AIs, old objects untouched, new ones with the name listed and the role looked up; an incomplete one removes nothing |
| VmCache.AsWrittenAddsNothing | lib/api/api_service_client.py:252 | as the call is written a refresh completes if and only if every listed VM is cached already |
| VmCache.CompletesExactly | lib/api/api_service_client.py:241-257 | when every lookup finds a VM, a refresh completes if and only if every AI answers with at least one |
| VmCache.StopsForCause | lib/api/api_service_client.py:275-281 | it returns False only on an error of the service, and an exception escapes only for an uncaught lookup or an AI without VMs |
| VmCache.IsClientExactly | lib/api/api_service_client.py:265 | a role is a client's if and only if the word stands in it |
| FaultInjection.FaultClock.SelectiveFaultInjection | scenarios/common.py:374-414 | one call repairs all failed hosts exactly if the repair countdown is below zero, and fails its host and winds up both countdowns exactly if the other one is used up; otherwise both run down |
| FaultInjection.NextFault | scenarios/common.py:401-412 | from any point of a run the call that uses up the countdown fails its host, and none before it fails any |
| FaultInjection.FirstFault | scenarios/common.py:401-412 | from the start the first call whose readings add up to the time between faults fails exactly its host, and no host is failed before |
| FaultInjection.OverdueIsRepaired | scenarios/common.py:390-399 | a host whose repair countdown is below zero is repaired by the next call |
| FaultInjection.FaultsFindAllRepaired | scenarios/common.py:385-412 | in a spaced run without landings each fault finds no host failed |
| FaultInjection.HealthyNext | scenarios/common.py:385-412 | one call keeps the countdowns at their distance and one host failed at most, unless the repair lands on zero |
| FaultInjection.TimerTellsExactly | scenarios/common.py:385-412 | in every spaced run a zero repair timer means no failed host if and only if the countdown never lands on zero, and then at most one host is failed |
| FaultInjection.OneFailedExactly | scenarios/common.py:385-412 | in every spaced run at most one host is failed at any time if and only if no fault hits another host while one is failed with its timer spent |
| FaultInjection.LandedIsForgotten | scenarios/common.py:388-389 | after such a landing no call repairs before the next fault |

## Left out

- libvirt, Redis, the API service and the network: their answers are parameters, failing ones included. libvirt echoes the CPUs and memory it was given for the manager's own instances.
- The tag index of the object store: names resolve to records directly, and two objects never share a name.
- The random choice of a compute node in a group, group calls, describe calls and instance state changes: they move no counter and create no record.
- Fault-tolerance calls, eclipsed sizes, XML templates and the "already created" branches of volume and pool creation, which fail on names that are not bound.
- Old-style `$name/path` expansion: values with one name, or with several names and a slash, are outside the evaluation loops modelled here, and so are the built-in variables, booleans and file inclusion.
- Regular-expression corner cases: names and literals hold no `$` or `}`, and names hold no pattern characters.
- The abort flags of the thread pool: an idle worker never sets its own, so nothing useful holds of them.
- Resumed capacity experiments and option values that change between batches; the first batch of a run has no predecessor.
- DependencyOrder.InOrderExactly: orders of 250 and more, of which `LargeOrdersBreak` gives the failing case, and negative ones, which count from the end of the list.
- Timestamps, averages, printing, logging and what is sent to dashboards.
- Octets as text and the rounding of float division for sums beyond 2^53 in add_ip_address.
- Unicode digits in version strings, and values that are not strings in dic2str.
- sha256 and the host name behind the selector byte: the byte is a parameter.
- The refresh time stamp, the experiment id and the should-refresh check of refresh_vms.
