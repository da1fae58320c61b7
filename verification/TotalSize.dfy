/** The memory-footprint walk of lib/auxiliary/code_instrumentation.py: a depth-first
    traversal of a heap that may be shared or cyclic, with one mutable `seen` set. */
module TotalSize {

  type Id = nat          // what id(o) returns
  type TypeName = string

  /** An object as the walk sees it: its own size, every type it is an instance of, and
      the ids it yields when iterated as a sequence or as a dictionary. */
  datatype Object = Object(size: nat, types: set<TypeName>, elements: seq<Id>, items: seq<(Id, Id)>)

  datatype Handler = Handler(typ: TypeName, contents: Object -> seq<Id>)

  type Heap = map<Id, Object>

  /** chain.from_iterable over the (key, value) pairs of a dictionary. */
  function Chain(items: seq<(Id, Id)>): seq<Id> {
    if items == [] then [] else [items[0].0, items[0].1] + Chain(items[1..])
  }

  function BuiltIn(): seq<Handler> {
    [Handler("tuple", (o: Object) => o.elements), Handler("list", (o: Object) => o.elements),
     Handler("deque", (o: Object) => o.elements), Handler("dict", (o: Object) => Chain(o.items)),
     Handler("set", (o: Object) => o.elements), Handler("frozenset", (o: Object) => o.elements)]
  }

  /** The position of a type among the handlers, or their number when it has none. */
  function Slot(handlers: seq<Handler>, typ: TypeName): (i: nat)
    ensures i <= |handlers|
    ensures i < |handlers| ==> handlers[i].typ == typ
    ensures forall j :: 0 <= j < i ==> handlers[j].typ != typ
  {
    if handlers == [] || handlers[0].typ == typ then 0 else 1 + Slot(handlers[1..], typ)
  }

  /** One entry of dict.update: a known type keeps its place, a new one goes last. */
  function Install(handlers: seq<Handler>, user: Handler): seq<Handler> {
    var i := Slot(handlers, user.typ);
    if i < |handlers| then handlers[i := user] else handlers + [user]
  }

  /** The first handler whose type the object has; the loop over handlers stops there. */
  function Match(handlers: seq<Handler>, o: Object): (i: nat)
    ensures i <= |handlers|
    ensures i < |handlers| ==> handlers[i].typ in o.types
    ensures forall j :: 0 <= j < i ==> handlers[j].typ !in o.types
  {
    if handlers == [] || handlers[0].typ in o.types then 0 else 1 + Match(handlers[1..], o)
  }

  function Contents(handlers: seq<Handler>, o: Object): seq<Id> {
    var i := Match(handlers, o);
    if i < |handlers| then handlers[i].contents(o) else []
  }

  /** dict.update with a dictionary of user handlers. */
  function Merge(handlers: seq<Handler>, users: seq<Handler>): seq<Handler> {
    if users == [] then handlers else Install(Merge(handlers, users[..|users| - 1]), users[|users| - 1])
  }

  predicate DistinctTypes(users: seq<Handler>) {
    forall i, j :: 0 <= i < j < |users| ==> users[i].typ != users[j].typ
  }

  predicate HasType(handlers: seq<Handler>, typ: TypeName) {
    exists i :: 0 <= i < |handlers| && handlers[i].typ == typ
  }

  predicate NoneMatches(handlers: seq<Handler>, o: Object) {
    forall j :: 0 <= j < |handlers| ==> handlers[j].typ !in o.types
  }

  /** Handlers keep their places and types, and the types are those of both. */
  lemma {:induction false} MergeTypes(handlers: seq<Handler>, users: seq<Handler>)
    ensures |Merge(handlers, users)| >= |handlers|
    ensures forall j :: 0 <= j < |handlers| ==> Merge(handlers, users)[j].typ == handlers[j].typ
    ensures forall t :: HasType(Merge(handlers, users), t) <==> HasType(handlers, t) || HasType(users, t)
  {
    if users != [] {
      var front, last := users[..|users| - 1], users[|users| - 1];
      MergeTypes(handlers, front);
      InstallTypes(Merge(handlers, front), last);
      forall t ensures HasType(users, t) <==> HasType(front, t) || last.typ == t {
        if HasType(front, t) { var i :| 0 <= i < |front| && front[i].typ == t; assert users[i].typ == t; }
        if last.typ == t { assert users[|users| - 1].typ == t; }
      }
    }
  }

  lemma {:induction false} InstallTypes(handlers: seq<Handler>, user: Handler)
    ensures var merged := Install(handlers, user);
      && |merged| >= |handlers|
      && (forall j :: 0 <= j < |handlers| ==> merged[j].typ == handlers[j].typ)
      && (forall j :: 0 <= j < |handlers| && j != Slot(handlers, user.typ) ==> merged[j] == handlers[j])
      && (forall t :: HasType(merged, t) <==> HasType(handlers, t) || user.typ == t)
  {
    var merged, i := Install(handlers, user), Slot(handlers, user.typ);
    assert merged[i] == user;
    forall t ensures HasType(merged, t) <==> HasType(handlers, t) || user.typ == t {
      if HasType(handlers, t) { var j :| 0 <= j < |handlers| && handlers[j].typ == t; assert merged[j].typ == t; }
    }
  }

  /** The handler is the one that is called for the object. */
  ghost predicate Serves(handlers: seq<Handler>, user: Handler, o: Object) {
    var i := Match(handlers, o);
    i < |handlers| && handlers[i] == user
  }

  /** One entry more: it serves exactly when no handler listed before its slot does, and
      handlers of other types serve as before. */
  lemma {:induction false} InstalledServes(handlers: seq<Handler>, user: Handler, other: Handler, o: Object)
    requires other.typ != user.typ
    ensures Serves(Install(handlers, user), user, o) <==>
      user.typ in o.types && NoneMatches(handlers[..Slot(handlers, user.typ)], o)
    ensures Serves(Install(handlers, user), other, o) <==> Serves(handlers, other, o)
  {
    var merged, i := Install(handlers, user), Slot(handlers, user.typ);
    InstallTypes(handlers, user);
    assert merged[i] == user;
    if NoneMatches(handlers[..i], o) {
      forall j | 0 <= j < i ensures merged[j].typ !in o.types { assert handlers[..i][j].typ !in o.types; }
      assert Match(merged, o) >= i;
    } else {
      var j :| 0 <= j < i && handlers[..i][j].typ in o.types;
      assert merged[j].typ in o.types && handlers[j].typ in o.types;
      assert Match(merged, o) <= j && Match(handlers, o) <= j;
    }
    assert Match(handlers, o) < |handlers| ==> Match(merged, o) == Match(handlers, o);
  }

  /** The comment in the source says that user handlers take precedence.  They do not: one of
      a known type serves an object exactly when no built-in handler before its slot does,
      and one of a new type when no built-in handler and no user handler before it does. */
  lemma {:induction false} UserHandlerWins(handlers: seq<Handler>, users: seq<Handler>, k: nat, o: Object)
    requires DistinctTypes(users) && k < |users|
    ensures Serves(Merge(handlers, users), users[k], o) <==>
      && users[k].typ in o.types
      && NoneMatches(handlers[..Slot(handlers, users[k].typ)], o)
      && (HasType(handlers, users[k].typ) || NoneMatches(users[..k], o))
  {
    var front, last := users[..|users| - 1], users[|users| - 1];
    var before := Merge(handlers, front);
    if k < |front| {
      UserHandlerWins(handlers, front, k, o);
      InstalledServes(before, last, users[k], o);
      assert front[..k] == users[..k];
    } else {
      var other := Handler(last.typ + "'", last.contents);
      InstalledServes(before, last, other, o);
      MergeTypes(handlers, front);
      LastSlot(handlers, front, last, o);
    }
  }

  lemma {:induction false} LastSlot(handlers: seq<Handler>, front: seq<Handler>, last: Handler, o: Object)
    requires !HasType(front, last.typ)
    ensures var before := Merge(handlers, front);
      NoneMatches(before[..Slot(before, last.typ)], o) <==>
      NoneMatches(handlers[..Slot(handlers, last.typ)], o) && (HasType(handlers, last.typ) || NoneMatches(front, o))
  {
    var before := Merge(handlers, front);
    MergeTypes(handlers, front);
    if HasType(handlers, last.typ) {
      KnownSlot(handlers, before, last.typ, o);
    } else {
      assert !HasType(before, last.typ);
      assert Slot(before, last.typ) == |before| && before[..|before|] == before;
      assert Slot(handlers, last.typ) == |handlers| && handlers[..|handlers|] == handlers;
      NoneMatchesTypes(before, o);
      NoneMatchesTypes(handlers, o);
      NoneMatchesTypes(front, o);
    }
  }

  lemma {:induction false} KnownSlot(handlers: seq<Handler>, before: seq<Handler>, typ: TypeName, o: Object)
    requires HasType(handlers, typ) && |before| >= |handlers|
    requires forall j :: 0 <= j < |handlers| ==> before[j].typ == handlers[j].typ
    ensures NoneMatches(before[..Slot(before, typ)], o) <==> NoneMatches(handlers[..Slot(handlers, typ)], o)
  {
    var i := Slot(handlers, typ);
    assert Slot(before, typ) == i;
    forall j | 0 <= j < i ensures before[..i][j].typ == handlers[..i][j].typ { }
  }

  lemma {:induction false} NoneMatchesTypes(handlers: seq<Handler>, o: Object)
    ensures NoneMatches(handlers, o) <==> forall t :: HasType(handlers, t) ==> t !in o.types
  {
    if j :| 0 <= j < |handlers| && handlers[j].typ in o.types { assert HasType(handlers, handlers[j].typ); }
  }

  /** What an object holds when no user says otherwise: the elements of a sequence or a set,
      the keys and the values of a dictionary, and nothing else. */
  ghost predicate DefaultHolds(o: Object, c: Id) {
    if "tuple" in o.types || "list" in o.types || "deque" in o.types then c in o.elements
    else if "dict" in o.types then exists item :: item in o.items && (c == item.0 || c == item.1)
    else ("set" in o.types || "frozenset" in o.types) && c in o.elements
  }

  lemma {:induction false} ChainYields(items: seq<(Id, Id)>, c: Id)
    ensures c in Chain(items) <==> exists item :: item in items && (c == item.0 || c == item.1)
  {
    if items != [] {
      ChainYields(items[1..], c);
      assert items == [items[0]] + items[1..];
      if c == items[0].0 || c == items[0].1 { assert items[0] in items; }
    }
  }

  /** The built-in handlers yield exactly that. */
  lemma {:induction false} BuiltInYields(o: Object, c: Id)
    ensures c in Contents(BuiltIn(), o) <==> DefaultHolds(o, c)
  {
    ChainYields(o.items, c);
    var handlers, i := BuiltIn(), Match(BuiltIn(), o);
    assert handlers[0].typ == "tuple" && handlers[1].typ == "list" && handlers[2].typ == "deque";
    assert handlers[3].typ == "dict" && handlers[4].typ == "set" && handlers[5].typ == "frozenset";
    if i < 6 { assert handlers[i].typ in o.types; }
  }

  /** A subclass of list with its own handler is still walked as a plain list. */
  lemma {:induction false} UserHandlerShadowed(user: Handler, o: Object)
    requires user.typ == "Matrix" && o.types == {"Matrix", "list"}
    ensures Contents(Install(BuiltIn(), user), o) == o.elements
  {
    var merged := Install(BuiltIn(), user);
    assert merged == BuiltIn() + [user];
    assert merged[0].typ == "tuple" && merged[1].typ == "list";
    assert Match(merged, o) == 1;
  }

  // ---------------------------------------------------------------- reachability

  ghost predicate Closed(heap: Heap, handlers: seq<Handler>) {
    forall x, c :: x in heap && c in Contents(handlers, heap[x]) ==> c in heap
  }

  ghost predicate IsPath(heap: Heap, handlers: seq<Handler>, path: seq<Id>) {
    && path != []
    && (forall x :: x in path ==> x in heap)
    && forall i :: 0 <= i < |path| - 1 ==> path[i + 1] in Contents(handlers, heap[path[i]])
  }

  ghost predicate Reachable(heap: Heap, handlers: seq<Handler>, source: Id, sink: Id) {
    exists path :: IsPath(heap, handlers, path) && path[0] == source && path[|path| - 1] == sink
  }

  ghost function ReachableFrom(heap: Heap, handlers: seq<Handler>, root: Id): set<Id> {
    set x | x in heap && Reachable(heap, handlers, root, x)
  }

  ghost function SumSizes(heap: Heap, ids: set<Id>): nat
    requires ids <= heap.Keys
  {
    if ids == {} then 0
    else var x :| x in ids; heap[x].size + SumSizes(heap, ids - {x})
  }

  lemma {:induction false} SumSizesSplit(heap: Heap, a: set<Id>, b: set<Id>)
    requires a !! b && a + b <= heap.Keys
    ensures SumSizes(heap, a + b) == SumSizes(heap, a) + SumSizes(heap, b)
    decreases |a + b|
  {
    if a + b != {} {
      var x :| x in a + b && SumSizes(heap, a + b) == heap[x].size + SumSizes(heap, a + b - {x});
      if x in a {
        SumSizesSplit(heap, a - {x}, b);
        assert a + b - {x} == (a - {x}) + b;
        SumSizesPick(heap, a, x);
      } else {
        SumSizesSplit(heap, a, b - {x});
        assert a + b - {x} == a + (b - {x});
        SumSizesPick(heap, b, x);
      }
    }
  }

  lemma {:induction false} SumSizesPick(heap: Heap, ids: set<Id>, x: Id)
    requires x in ids && ids <= heap.Keys
    ensures SumSizes(heap, ids) == heap[x].size + SumSizes(heap, ids - {x})
    decreases |ids|
  {
    var y :| y in ids && SumSizes(heap, ids) == heap[y].size + SumSizes(heap, ids - {y});
    if y != x {
      SumSizesPick(heap, ids - {y}, x);
      SumSizesPick(heap, ids - {x}, y);
      assert ids - {y} - {x} == ids - {x} - {y};
    }
  }

  lemma {:induction false} ReachablePrepend(heap: Heap, handlers: seq<Handler>, o: Id, child: Id, sink: Id)
    requires o in heap && child in Contents(handlers, heap[o])
    requires Reachable(heap, handlers, child, sink)
    ensures Reachable(heap, handlers, o, sink)
  {
    var path :| IsPath(heap, handlers, path) && path[0] == child && path[|path| - 1] == sink;
    var longer := [o] + path;
    assert forall i :: 0 <= i < |path| ==> longer[i + 1] == path[i];
    assert longer[|longer| - 1] == sink;
    forall i | 0 <= i < |longer| - 1 ensures longer[i + 1] in Contents(handlers, heap[longer[i]]) {
      if i > 0 { assert path[i - 1 + 1] in Contents(handlers, heap[path[i - 1]]); }
    }
    assert IsPath(heap, handlers, longer);
  }

  lemma {:induction false} ReachableSelf(heap: Heap, handlers: seq<Handler>, o: Id)
    requires o in heap
    ensures Reachable(heap, handlers, o, o)
  {
    assert IsPath(heap, handlers, [o]);
  }

  /** A set that holds the root and is closed under contents holds all that is reachable. */
  lemma {:induction false} PathStaysInside(heap: Heap, handlers: seq<Handler>, path: seq<Id>, inside: set<Id>)
    requires IsPath(heap, handlers, path) && path[0] in inside
    requires forall x, c :: x in inside && x in heap && c in Contents(handlers, heap[x]) ==> c in inside
    ensures path[|path| - 1] in inside
    decreases |path|
  {
    if |path| > 1 {
      assert path[0 + 1] in Contents(handlers, heap[path[0]]);
      var rest := path[1..];
      forall i | 0 <= i < |rest| - 1 ensures rest[i + 1] in Contents(handlers, heap[rest[i]]) {
        assert path[(i + 1) + 1] in Contents(handlers, heap[path[i + 1]]);
      }
      PathStaysInside(heap, handlers, rest, inside);
    }
  }

  // ---------------------------------------------------------------- the walk

  /** The new ids are exactly accounted for: their sizes are summed once and they are all
      reachable from `o`. */
  ghost predicate Visited(heap: Heap, handlers: seq<Handler>, o: Id, before: set<Id>, now: set<Id>, s: nat) {
    && before <= now && now <= heap.Keys
    && s == SumSizes(heap, now - before)
    && forall x :: x in now - before ==> Reachable(heap, handlers, o, x)
  }

  /** Everything the given ids contain is inside the set. */
  ghost predicate AllInside(heap: Heap, handlers: seq<Handler>, ids: set<Id>, inside: set<Id>) {
    forall x, c :: x in ids && x in heap && c in Contents(handlers, heap[x]) ==> c in inside
  }

  /** The visit of `o` after the first k children have been walked. */
  ghost predicate Partial(heap: Heap, handlers: seq<Handler>, o: Id, before: set<Id>, now: set<Id>, s: nat, k: nat)
    requires o in heap
  {
    && o in now && o !in before
    && Visited(heap, handlers, o, before, now, s)
    && AllInside(heap, handlers, now - before - {o}, now)
    && forall j :: 0 <= j < k && j < |Contents(handlers, heap[o])| ==> Contents(handlers, heap[o])[j] in now
  }

  lemma {:induction false} PartialStart(heap: Heap, handlers: seq<Handler>, o: Id, before: set<Id>)
    requires o in heap && o !in before && before <= heap.Keys
    ensures Partial(heap, handlers, o, before, before + {o}, heap[o].size, 0)
  {
    ReachableSelf(heap, handlers, o);
    SumSizesPick(heap, {o}, o);
    assert before + {o} - before == {o};
  }

  /** The visit of one child extends the visit of its container. */
  lemma {:induction false} PartialStep(heap: Heap, handlers: seq<Handler>, o: Id, k: nat,
                    before: set<Id>, mid: set<Id>, now: set<Id>, s: nat, t: nat)
    requires o in heap && k < |Contents(handlers, heap[o])|
    requires Partial(heap, handlers, o, before, mid, s, k)
    requires Contents(handlers, heap[o])[k] in now
    requires Visited(heap, handlers, Contents(handlers, heap[o])[k], mid, now, t)
    requires AllInside(heap, handlers, now - mid, now)
    ensures Partial(heap, handlers, o, before, now, s + t, k + 1)
  {
    SumSizesSplit(heap, mid - before, now - mid);
    assert now - before == (mid - before) + (now - mid);
    forall x | x in now - mid ensures Reachable(heap, handlers, o, x) {
      ReachablePrepend(heap, handlers, o, Contents(handlers, heap[o])[k], x);
    }
  }

  lemma {:induction false} PartialEnd(heap: Heap, handlers: seq<Handler>, o: Id, before: set<Id>, now: set<Id>, s: nat)
    requires o in heap && Partial(heap, handlers, o, before, now, s, |Contents(handlers, heap[o])|)
    ensures Visited(heap, handlers, o, before, now, s) && AllInside(heap, handlers, now - before, now)
  {
  }

  class Walk {
    const heap: Heap
    const handlers: seq<Handler>
    var seen: set<Id>

    constructor (heap: Heap, handlers: seq<Handler>)
      ensures this.heap == heap && this.handlers == handlers && seen == {}
    {
      this.heap := heap;
      this.handlers := handlers;
      seen := {};
    }

    method SizeOf(o: Id) returns (s: nat)
      requires Closed(heap, handlers) && o in heap && seen <= heap.Keys
      modifies this`seen
      ensures o in seen && Visited(heap, handlers, o, old(seen), seen, s)
      ensures AllInside(heap, handlers, seen - old(seen), seen)
      decreases heap.Keys - seen, 0
    {
      if o in seen {
        return 0;
      }
      ghost var before := seen;
      seen := seen + {o};
      PartialStart(heap, handlers, o, before);
      s := SumOver(o, before, heap[o].size);
    }

    /** s += sum(map(sizeof, handler(o))). */
    method SumOver(o: Id, ghost before: set<Id>, own: nat) returns (s: nat)
      requires Closed(heap, handlers) && o in heap
      requires Partial(heap, handlers, o, before, seen, own, 0)
      modifies this`seen
      ensures o in seen && Visited(heap, handlers, o, before, seen, s)
      ensures AllInside(heap, handlers, seen - before, seen)
      decreases heap.Keys - seen, 1
    {
      var children := Contents(handlers, heap[o]);
      s := own;
      for k := 0 to |children|
        invariant heap.Keys - seen <= heap.Keys - old(seen)
        invariant Partial(heap, handlers, o, before, seen, s, k)
      {
        ghost var mid, sum := seen, s;
        var t := SizeOf(children[k]);
        s := s + t;
        PartialStep(heap, handlers, o, k, before, mid, seen, sum, t);
      }
      PartialEnd(heap, handlers, o, before, seen, s);
    }
  }

  /** On every finite heap, shared and cyclic ones included, the walk ends and returns the
      sizes of the objects reachable from the root, each counted once. */
  method ComputeTotalSize(heap: Heap, users: seq<Handler>, root: Id) returns (s: nat)
    requires Closed(heap, Merge(BuiltIn(), users)) && root in heap
    ensures s == SumSizes(heap, ReachableFrom(heap, Merge(BuiltIn(), users), root))
    ensures users == [] ==> s == SumSizes(heap, DefaultReachable(heap, root))
  {
    var handlers := Merge(BuiltIn(), users);
    var walk := new Walk(heap, handlers);
    s := walk.SizeOf(root);
    ghost var found := walk.seen - {};
    forall x | x in ReachableFrom(heap, handlers, root) ensures x in found {
      var path :| IsPath(heap, handlers, path) && path[0] == root && path[|path| - 1] == x;
      PathStaysInside(heap, handlers, path, found);
    }
    assert found == ReachableFrom(heap, handlers, root);
    if users == [] { DefaultReach(heap, root); }
  }

  /** Each object on the path holds the next one. */
  ghost predicate IsDefaultPath(heap: Heap, path: seq<Id>) {
    && path != []
    && (forall x :: x in path ==> x in heap)
    && forall i :: 0 <= i < |path| - 1 ==> DefaultHolds(heap[path[i]], path[i + 1])
  }

  ghost predicate LeadsTo(heap: Heap, source: Id, sink: Id) {
    exists path :: IsDefaultPath(heap, path) && path[0] == source && path[|path| - 1] == sink
  }

  ghost function DefaultReachable(heap: Heap, root: Id): set<Id> {
    set x | x in heap && LeadsTo(heap, root, x)
  }

  lemma {:induction false} DefaultReach(heap: Heap, root: Id)
    ensures ReachableFrom(heap, BuiltIn(), root) == DefaultReachable(heap, root)
  {
    forall path: seq<Id> ensures IsPath(heap, BuiltIn(), path) <==> IsDefaultPath(heap, path) {
      SamePath(heap, path);
    }
    forall x | x in heap ensures Reachable(heap, BuiltIn(), root, x) <==> LeadsTo(heap, root, x) { }
  }

  lemma {:induction false} SamePath(heap: Heap, path: seq<Id>)
    ensures IsPath(heap, BuiltIn(), path) <==> IsDefaultPath(heap, path)
  {
    if forall x :: x in path ==> x in heap {
      forall i | 0 <= i < |path| - 1
        ensures path[i + 1] in Contents(BuiltIn(), heap[path[i]]) <==> DefaultHolds(heap[path[i]], path[i + 1])
      {
        BuiltInYields(heap[path[i]], path[i + 1]);
      }
    }
  }
}
