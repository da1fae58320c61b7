/** APIClient.refresh_vms (lib/api/api_service_client.py): the client's cache of VM objects
    is brought up to date with the VMs of the AIs that exist now. */
module VmCache {

  type Uuid = string

  /** What stateshow lists, and what appshow says of one AI. */
  datatype StateObject = StateObject(isAi: bool, name: string)

  datatype Member = Member(uuid: Uuid, name: string)

  /** An AI without VMs has the empty text for their list: its one empty piece has no uuid,
      role and name, which is an exception that nothing catches. */
  datatype App = Members(vms: seq<Member>) | AppError

  /** What check_for_new_vm does for a VM name: a role to build the object from, an
      APIException, or an exception that nothing catches. */
  datatype Lookup = Found(role: string) | ApiError | Uncaught

  datatype Outcome = Refreshed | ReturnedFalse | Escaped

  class ApiVm {
    const name: string
    const role: string
    var siblings: seq<ApiVm>
    var client: ApiVm?

    constructor (name: string, role: string)
      ensures this.name == name && this.role == role && siblings == [] && client == null
    {
      this.name, this.role, siblings, client := name, role, [], null;
    }
  }

  /** role.count("client") is not zero. */
  predicate IsClient(role: string) {
    "client" <= role || (role != "" && IsClient(role[1..]))
  }

  predicate ClientAt(role: string, i: int) {
    0 <= i && i + 6 <= |role| && role[i..i + 6] == "client"
  }

  lemma {:induction false} ClientFirst(role: string)
    ensures "client" <= role <==> ClientAt(role, 0)
  {
    assert |"client"| == 6;
    if |role| >= 6 { assert role[0..6] == role[..6]; }
  }

  lemma {:induction false} ClientNext(role: string, i: int)
    requires role != "" && i >= 0
    ensures ClientAt(role[1..], i) <==> ClientAt(role, i + 1)
  {
    if i + 7 <= |role| { assert role[1..][i..i + 6] == role[i + 1..i + 7]; }
  }

  /** A role is a client's when the word stands anywhere in it. */
  lemma {:induction false} IsClientExactly(role: string)
    ensures IsClient(role) <==> exists i :: ClientAt(role, i)
  {
    ClientFirst(role);
    if role != "" {
      var rest := role[1..];
      IsClientExactly(rest);
      if i :| ClientAt(rest, i) { ClientNext(role, i); }
      if i :| ClientAt(role, i) {
        if i > 0 { ClientNext(role, i - 1); }
      }
    }
  }

  /** The service's answers during one refresh. */
  datatype Service = Service(objects: seq<StateObject>, apps: map<string, App>, lookups: map<string, Lookup>)

  function AppOf(s: Service, name: string): App {
    if name in s.apps then s.apps[name] else AppError
  }

  /** A lookup that the service never gets to answer raises in the client itself. */
  function LookupOf(s: Service, name: string): Lookup {
    if name in s.lookups then s.lookups[name] else Uncaught
  }

  // ---------------------------------------------------------------- what is visited

  /** Which uuids are cached after some members were visited, and how that went. */
  datatype Scan = Scan(cached: set<Uuid>, outcome: Outcome)

  function ScanMembers(s: Service, members: seq<Member>, cached: set<Uuid>): Scan {
    if members == [] then Scan(cached, Refreshed)
    else
      var front := ScanMembers(s, members[..|members| - 1], cached);
      var m := members[|members| - 1];
      if front.outcome != Refreshed || m.uuid in front.cached then front
      else match LookupOf(s, m.name)
        case Found(_) => Scan(front.cached + {m.uuid}, Refreshed)
        case ApiError => Scan(front.cached, ReturnedFalse)
        case Uncaught => Scan(front.cached, Escaped)
  }

  function ScanObjects(s: Service, objects: seq<StateObject>, cached: set<Uuid>): Scan {
    if objects == [] then Scan(cached, Refreshed)
    else
      var front := ScanObjects(s, objects[..|objects| - 1], cached);
      if front.outcome != Refreshed then front else ScanObject(s, objects[|objects| - 1], front.cached)
  }

  function ScanObject(s: Service, o: StateObject, cached: set<Uuid>): Scan {
    if !o.isAi then Scan(cached, Refreshed)
    else match AppOf(s, o.name)
      case AppError => Scan(cached, ReturnedFalse)
      case Members(vms) => if vms == [] then Scan(cached, Escaped) else ScanMembers(s, vms, cached)
  }

  function Uuids(members: seq<Member>): set<Uuid> {
    set i | 0 <= i < |members| :: members[i].uuid
  }

  /** The VMs of all current AIs. */
  function Listed(s: Service, objects: seq<StateObject>): set<Uuid> {
    if objects == [] then {}
    else
      Listed(s, objects[..|objects| - 1]) + ListedBy(s, objects[|objects| - 1])
  }

  function ListedBy(s: Service, o: StateObject): set<Uuid> {
    if o.isAi && AppOf(s, o.name).Members? then Uuids(AppOf(s, o.name).vms) else {}
  }

  /** Some AI that stateshow lists has a VM of that uuid. */
  ghost predicate SomeAiHas(s: Service, objects: seq<StateObject>, u: Uuid) {
    exists k :: 0 <= k < |objects| && AiHas(s, objects[k], u)
  }

  ghost predicate AiHas(s: Service, o: StateObject, u: Uuid) {
    o.isAi && o.name in s.apps && s.apps[o.name].Members? &&
    exists i :: 0 <= i < |s.apps[o.name].vms| && s.apps[o.name].vms[i].uuid == u
  }

  lemma {:induction false} ListedExactly(s: Service, objects: seq<StateObject>, u: Uuid)
    ensures u in Listed(s, objects) <==> SomeAiHas(s, objects, u)
  {
    if objects != [] {
      var front, o := objects[..|objects| - 1], objects[|objects| - 1];
      ListedExactly(s, front, u);
      assert u in ListedBy(s, o) <==> AiHas(s, o, u);
      if SomeAiHas(s, front, u) { var k :| 0 <= k < |front| && AiHas(s, front[k], u); assert AiHas(s, objects[k], u); }
      if AiHas(s, o, u) { assert AiHas(s, objects[|objects| - 1], u); }
    }
  }

  /** A new object has the name of a VM that an AI lists under its uuid, and the role that
      looking this name up gave. */
  ghost predicate Described(s: Service, members: seq<Member>, u: Uuid, name: string, role: string) {
    exists i :: 0 <= i < |members| && members[i] == Member(u, name) && name in s.lookups && s.lookups[name] == Found(role)
  }

  ghost predicate DescribedBy(s: Service, o: StateObject, u: Uuid, name: string, role: string) {
    o.isAi && o.name in s.apps && s.apps[o.name].Members? && Described(s, s.apps[o.name].vms, u, name, role)
  }

  ghost predicate SomeAiDescribes(s: Service, objects: seq<StateObject>, u: Uuid, name: string, role: string) {
    exists k :: 0 <= k < |objects| && DescribedBy(s, objects[k], u, name, role)
  }

  lemma {:induction false} MembersScanned(s: Service, members: seq<Member>, cached: set<Uuid>)
    ensures cached <= ScanMembers(s, members, cached).cached <= cached + Uuids(members)
    ensures ScanMembers(s, members, cached).outcome == Refreshed ==>
      ScanMembers(s, members, cached).cached == cached + Uuids(members)
  {
    if members != [] {
      var front, m := members[..|members| - 1], members[|members| - 1];
      MembersScanned(s, front, cached);
      UuidsAppend(front, m);
      assert front + [m] == members;
    }
  }

  lemma {:induction false} UuidsAppend(members: seq<Member>, m: Member)
    ensures Uuids(members + [m]) == Uuids(members) + {m.uuid}
  {
    assert forall i :: 0 <= i < |members| ==> (members + [m])[i] == members[i];
    assert (members + [m])[|members|] == m;
  }

  lemma {:induction false} ObjectsScanned(s: Service, objects: seq<StateObject>, cached: set<Uuid>)
    ensures cached <= ScanObjects(s, objects, cached).cached <= cached + Listed(s, objects)
    ensures ScanObjects(s, objects, cached).outcome == Refreshed ==>
      ScanObjects(s, objects, cached).cached == cached + Listed(s, objects)
  {
    if objects != [] {
      var front, o := objects[..|objects| - 1], objects[|objects| - 1];
      ObjectsScanned(s, front, cached);
      if o.isAi && AppOf(s, o.name).Members? {
        MembersScanned(s, AppOf(s, o.name).vms, ScanObjects(s, front, cached).cached);
      }
    }
  }

  ghost predicate AppsAnswer(s: Service, objects: seq<StateObject>) {
    forall i :: 0 <= i < |objects| && objects[i].isAi ==>
      AppOf(s, objects[i].name).Members? && AppOf(s, objects[i].name).vms != []
  }

  /** The call is written without the cloud name, so the lookup of a VM that is not cached
      always raises: a refresh then completes exactly when there is nothing new to add. */
  lemma {:induction false} AsWrittenAddsNothing(s: Service, objects: seq<StateObject>, cached: set<Uuid>)
    requires forall name :: LookupOf(s, name) == Uncaught
    ensures ScanObjects(s, objects, cached).cached == cached
    ensures ScanObjects(s, objects, cached).outcome == Refreshed <==>
      AppsAnswer(s, objects) && Listed(s, objects) <= cached
  {
    if objects != [] {
      var front, o := objects[..|objects| - 1], objects[|objects| - 1];
      AsWrittenAddsNothing(s, front, cached);
      assert forall i :: 0 <= i < |front| ==> objects[i] == front[i];
      if o.isAi && AppOf(s, o.name).Members? {
        NothingAdded(s, AppOf(s, o.name).vms, cached);
      }
      assert AppsAnswer(s, objects) <==>
        AppsAnswer(s, front) && (o.isAi ==> AppOf(s, o.name).Members? && AppOf(s, o.name).vms != []);
    }
  }

  lemma {:induction false} NothingAdded(s: Service, members: seq<Member>, cached: set<Uuid>)
    requires forall name :: LookupOf(s, name) == Uncaught
    ensures ScanMembers(s, members, cached).cached == cached
    ensures ScanMembers(s, members, cached).outcome == Refreshed <==> Uuids(members) <= cached
  {
    if members != [] {
      var front, m := members[..|members| - 1], members[|members| - 1];
      NothingAdded(s, front, cached);
      UuidsAppend(front, m);
      assert front + [m] == members;
      assert LookupOf(s, m.name) == Uncaught;
    }
  }

  /** When every lookup finds a role, a refresh completes exactly when every AI answers with
      at least one VM. */
  lemma {:induction false} CompletesExactly(s: Service, objects: seq<StateObject>, cached: set<Uuid>)
    requires forall name :: LookupOf(s, name).Found?
    ensures ScanObjects(s, objects, cached).outcome == Refreshed <==> AppsAnswer(s, objects)
  {
    if objects != [] {
      var front, o := objects[..|objects| - 1], objects[|objects| - 1];
      CompletesExactly(s, front, cached);
      assert forall i :: 0 <= i < |front| ==> objects[i] == front[i];
      if o.isAi && AppOf(s, o.name).Members? {
        AllAdded(s, AppOf(s, o.name).vms, ScanObjects(s, front, cached).cached);
      }
      assert AppsAnswer(s, objects) <==>
        AppsAnswer(s, front) && (o.isAi ==> AppOf(s, o.name).Members? && AppOf(s, o.name).vms != []);
    }
  }

  lemma {:induction false} AllAdded(s: Service, members: seq<Member>, cached: set<Uuid>)
    requires forall name :: LookupOf(s, name).Found?
    ensures ScanMembers(s, members, cached).outcome == Refreshed
  {
    if members != [] {
      AllAdded(s, members[..|members| - 1], cached);
      assert LookupOf(s, members[|members| - 1].name).Found?;
    }
  }

  /** A refresh returns False only on an error that the service reports, and an exception
      escapes it only on an uncaught lookup or an AI without VMs. */
  lemma {:induction false} StopsForCause(s: Service, objects: seq<StateObject>, cached: set<Uuid>)
    ensures ScanObjects(s, objects, cached).outcome == ReturnedFalse ==>
      (exists name :: LookupOf(s, name) == ApiError) || (exists name :: AppOf(s, name) == AppError)
    ensures ScanObjects(s, objects, cached).outcome == Escaped ==>
      (exists name :: LookupOf(s, name) == Uncaught) || (exists name :: AppOf(s, name) == Members([]))
  {
    if objects != [] {
      var front, o := objects[..|objects| - 1], objects[|objects| - 1];
      StopsForCause(s, front, cached);
      if o.isAi && AppOf(s, o.name).Members? {
        MembersStopForCause(s, AppOf(s, o.name).vms, ScanObjects(s, front, cached).cached);
      }
    }
  }

  lemma {:induction false} MembersStopForCause(s: Service, members: seq<Member>, cached: set<Uuid>)
    ensures ScanMembers(s, members, cached).outcome == ReturnedFalse ==> exists name :: LookupOf(s, name) == ApiError
    ensures ScanMembers(s, members, cached).outcome == Escaped ==> exists name :: LookupOf(s, name) == Uncaught
  {
    if members != [] { MembersStopForCause(s, members[..|members| - 1], cached); }
  }

  // ---------------------------------------------------------------- the refresh

  class Client {
    var vms: map<Uuid, ApiVm>

    constructor ()
      ensures vms == map[]
    {
      vms := map[];
    }

    /** One AI: VMs not cached yet are looked up and added, all are struck off `stale`. */
    method AddMembers(s: Service, members: seq<Member>, stale: map<Uuid, ApiVm>)
      returns (outcome: Outcome, left: map<Uuid, ApiVm>, added: seq<Uuid>)
      modifies this
      ensures Scan(vms.Keys, outcome) == ScanMembers(s, members, old(vms.Keys))
      ensures forall u :: u in old(vms) ==> u in vms && vms[u] == old(vms)[u]
      ensures forall u :: u in vms && u !in old(vms) ==> fresh(vms[u]) && u in added
      ensures forall u :: u in added ==> u in vms && u !in old(vms)
      ensures forall u :: u in added ==> Described(s, members, u, vms[u].name, vms[u].role)
      ensures outcome == Refreshed ==> left == stale - Uuids(members)
    {
      left, added := stale, [];
      for i := 0 to |members|
        invariant Scan(vms.Keys, Refreshed) == ScanMembers(s, members[..i], old(vms.Keys))
        invariant forall u :: u in old(vms) ==> u in vms && vms[u] == old(vms)[u]
        invariant forall u :: u in vms && u !in old(vms) ==> fresh(vms[u]) && u in added
        invariant forall u :: u in added ==> u in vms && u !in old(vms)
        invariant forall u :: u in added ==> Described(s, members, u, vms[u].name, vms[u].role)
        invariant left == stale - Uuids(members[..i])
      {
        var m := members[i];
        ScanNext(s, members, i, old(vms.Keys));
        if m.uuid !in vms {
          match LookupOf(s, m.name) {
            case Found(role) =>
              var vm := new ApiVm(m.name, role);
              DescribesItself(s, members, i, role);
              vms := vms[m.uuid := vm];
              added := added + [m.uuid];
            case ApiError =>
              return ReturnedFalse, left, added;
            case Uncaught =>
              return Escaped, left, added;
          }
        }
        left := left - {m.uuid};
      }
      assert members[..|members|] == members;
      return Refreshed, left, added;
    }

    /** The last of the VMs whose role is that of a client, -1 if there is none. */
    function LastClient(uuids: seq<Uuid>): (i: int)
      requires forall u :: u in uuids ==> u in vms
      reads this
      ensures -1 <= i < |uuids| && (i >= 0 ==> IsClient(vms[uuids[i]].role))
      ensures forall j :: i < j < |uuids| ==> !IsClient(vms[uuids[j]].role)
    {
      if uuids == [] then -1
      else if IsClient(vms[uuids[|uuids| - 1]].role) then |uuids| - 1
      else LastClient(uuids[..|uuids| - 1])
    }

    ghost predicate AreObjects(list: seq<ApiVm>, uuids: seq<Uuid>)
      requires forall u :: u in uuids ==> u in vms
      reads this
    {
      |list| == |uuids| && forall i :: 0 <= i < |uuids| ==> list[i] == vms[uuids[i]]
    }

    /** `if sibling != myself` compares a uuid with an object, so every new VM of an AI is
        listed as a sibling of all of them, itself included; its client is the last of them
        that is one. */
    method LinkSiblings(added: seq<Uuid>)
      requires forall u :: u in added ==> u in vms
      modifies set u | u in added :: vms[u]
      ensures forall u :: u in added ==> AreObjects(vms[u].siblings, added)
      ensures LastClient(added) >= 0 ==> forall u :: u in added ==> vms[u].client == vms[added[LastClient(added)]]
    {
      ghost var last := LastClient(added);
      for k := 0 to |added|
        invariant forall j :: 0 <= j < k ==> AreObjects(vms[added[j]].siblings, added)
        invariant last >= 0 ==> forall j :: 0 <= j < k ==> vms[added[j]].client == vms[added[last]]
      {
        assert added[k] in added;
        var list, client := Gather(added, vms[added[k]].client);
        vms[added[k]].siblings := list;
        vms[added[k]].client := client;
      }
    }

    /** The inner loop over the siblings, for one VM. */
    method Gather(added: seq<Uuid>, before: ApiVm?) returns (list: seq<ApiVm>, client: ApiVm?)
      requires forall u :: u in added ==> u in vms
      ensures AreObjects(list, added)
      ensures client == if LastClient(added) >= 0 then vms[added[LastClient(added)]] else before
    {
      list, client := [], before;
      for i := 0 to |added|
        invariant |list| == i && forall j :: 0 <= j < i ==> list[j] == vms[added[j]]
        invariant client == if LastClient(added[..i]) >= 0 then vms[added[LastClient(added[..i])]] else before
      {
        assert added[..i + 1][..i] == added[..i];
        var sibling := vms[added[i]];
        list := list + [sibling];
        if IsClient(sibling.role) {
          client := sibling;
        }
      }
      assert added[..|added|] == added;
    }

    /** One object that stateshow lists. */
    method VisitObject(s: Service, o: StateObject, stale: map<Uuid, ApiVm>)
      returns (outcome: Outcome, left: map<Uuid, ApiVm>)
      modifies this
      ensures Scan(vms.Keys, outcome) == ScanObject(s, o, old(vms.Keys))
      ensures forall u :: u in old(vms) ==> u in vms && vms[u] == old(vms)[u]
      ensures forall u :: u in vms && u !in old(vms) ==> fresh(vms[u])
      ensures outcome == Refreshed ==> forall u :: u in vms && u !in old(vms) ==> vms[u] in vms[u].siblings
      ensures forall u :: u in vms && u !in old(vms) ==> DescribedBy(s, o, u, vms[u].name, vms[u].role)
      ensures outcome == Refreshed ==> left == stale - ListedBy(s, o)
    {
      if !o.isAi {
        return Refreshed, stale;
      }
      var app := AppOf(s, o.name);
      if app.AppError? {
        return ReturnedFalse, stale;
      }
      if app.vms == [] {
        return Escaped, stale;
      }
      var added;
      outcome, left, added := AddMembers(s, app.vms, stale);
      if outcome == Refreshed {
        LinkSiblings(added);
      }
    }

    /** After a completed refresh the cache holds exactly the VMs of the current AIs; those
        that were cached before are the same objects as before, with nothing changed in them
        (only this client and new objects are modified).  A refresh that does not complete
        has added what it met on the way and removed nothing. */
    method RefreshVms(s: Service) returns (outcome: Outcome)
      modifies this
      ensures outcome == ScanObjects(s, s.objects, old(vms.Keys)).outcome
      ensures outcome == Refreshed ==> vms.Keys == Listed(s, s.objects)
      ensures outcome == Refreshed ==> forall u :: u in vms <==> SomeAiHas(s, s.objects, u)
      ensures forall u :: u in vms && u !in old(vms) ==> SomeAiDescribes(s, s.objects, u, vms[u].name, vms[u].role)
      ensures outcome != Refreshed ==> vms.Keys == ScanObjects(s, s.objects, old(vms.Keys)).cached
      ensures forall u :: u in vms && u in old(vms) ==> vms[u] == old(vms)[u]
      ensures forall u :: u in vms && u !in old(vms) ==> fresh(vms[u])
      ensures outcome == Refreshed ==> forall u :: u in vms && u !in old(vms) ==> vms[u] in vms[u].siblings
    {
      var stale;
      outcome, stale := VisitAll(s);
      if outcome == Refreshed {
        ObjectsScanned(s, s.objects, old(vms.Keys));
        vms := vms - stale.Keys;
        forall u ensures u in vms <==> SomeAiHas(s, s.objects, u) { ListedExactly(s, s.objects, u); }
      }
    }

    /** The loop over everything that stateshow lists; `stale` is what no AI lists any more. */
    method VisitAll(s: Service) returns (outcome: Outcome, stale: map<Uuid, ApiVm>)
      modifies this
      ensures Scan(vms.Keys, outcome) == ScanObjects(s, s.objects, old(vms.Keys))
      ensures forall u :: u in old(vms) ==> u in vms && vms[u] == old(vms)[u]
      ensures forall u :: u in vms && u !in old(vms) ==> fresh(vms[u])
      ensures outcome == Refreshed ==> forall u :: u in vms && u !in old(vms) ==> vms[u] in vms[u].siblings
      ensures forall u :: u in vms && u !in old(vms) ==> SomeAiDescribes(s, s.objects, u, vms[u].name, vms[u].role)
      ensures outcome == Refreshed ==> stale.Keys == old(vms).Keys - Listed(s, s.objects)
    {
      stale := vms;
      for i := 0 to |s.objects|
        invariant Scan(vms.Keys, Refreshed) == ScanObjects(s, s.objects[..i], old(vms.Keys))
        invariant forall u :: u in old(vms) ==> u in vms && vms[u] == old(vms)[u]
        invariant forall u :: u in vms && u !in old(vms) ==> fresh(vms[u]) && vms[u] in vms[u].siblings
        invariant forall u :: u in vms && u !in old(vms) ==> SomeAiDescribes(s, s.objects, u, vms[u].name, vms[u].role)
        invariant stale.Keys == old(vms).Keys - Listed(s, s.objects[..i])
      {
        assert s.objects[..i + 1][..i] == s.objects[..i];
        outcome, stale := VisitObject(s, s.objects[i], stale);
        if outcome != Refreshed {
          StopsEarly(s, i + 1, old(vms.Keys));
          return;
        }
      }
      assert s.objects[..|s.objects|] == s.objects;
      outcome := Refreshed;
    }
  }

  lemma {:induction false} DescribesItself(s: Service, members: seq<Member>, i: nat, role: string)
    requires i < |members| && LookupOf(s, members[i].name) == Found(role)
    ensures Described(s, members, members[i].uuid, members[i].name, role)
  {
    assert members[i] == Member(members[i].uuid, members[i].name);
  }

  lemma {:induction false} ScanNext(s: Service, members: seq<Member>, i: nat, cached: set<Uuid>)
    requires i < |members|
    ensures members[..i + 1][..i] == members[..i]
    ensures Uuids(members[..i + 1]) == Uuids(members[..i]) + {members[i].uuid}
    ensures ScanMembers(s, members[..i + 1], cached).outcome != Refreshed ==>
      ScanMembers(s, members, cached) == ScanMembers(s, members[..i + 1], cached)
  {
    assert members[..i + 1] == members[..i] + [members[i]];
    UuidsAppend(members[..i], members[i]);
    MembersStop(s, members, i + 1, |members|, cached);
    assert members[..|members|] == members;
  }

  lemma {:induction false} MembersStop(s: Service, members: seq<Member>, i: nat, n: nat, cached: set<Uuid>)
    requires i <= n <= |members|
    ensures ScanMembers(s, members[..i], cached).outcome != Refreshed ==>
      ScanMembers(s, members[..n], cached) == ScanMembers(s, members[..i], cached)
  {
    if i < n {
      MembersStop(s, members, i, n - 1, cached);
      assert members[..n][..n - 1] == members[..n - 1];
    }
  }

  lemma {:induction false} StopsEarly(s: Service, i: nat, cached: set<Uuid>)
    requires i <= |s.objects| && ScanObjects(s, s.objects[..i], cached).outcome != Refreshed
    ensures ScanObjects(s, s.objects, cached) == ScanObjects(s, s.objects[..i], cached)
  {
    ObjectsStop(s, i, |s.objects|, cached);
    assert s.objects[..|s.objects|] == s.objects;
  }

  lemma {:induction false} ObjectsStop(s: Service, i: nat, n: nat, cached: set<Uuid>)
    requires i <= n <= |s.objects| && ScanObjects(s, s.objects[..i], cached).outcome != Refreshed
    ensures ScanObjects(s, s.objects[..n], cached) == ScanObjects(s, s.objects[..i], cached)
  {
    if i < n {
      ObjectsStop(s, i, n - 1, cached);
      assert s.objects[..n][..n - 1] == s.objects[..n - 1];
    }
  }
}
