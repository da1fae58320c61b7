/** The order in which dependencies are installed (lib/auxiliary/dependencies.py): each is
    inserted at twenty times its order into a list of 5000 zeros, then zeros are dropped. */
module DependencyOrder {

  const SPACING := 20
  const SLOTS := 5000

  datatype Dependency = Dependency(name: string, order: int)

  /** A cell of the list: a zero, or the dependency met i-th. */
  datatype Slot = Zero | Item(i: nat)

  /** list.insert: a negative index counts from the end, and both ends are clamped. */
  function Clamp(index: int, length: nat): (k: nat)
    ensures k <= length
    ensures 0 <= index <= length ==> k == index
  {
    if index < 0 then (if length + index < 0 then 0 else length + index)
    else if index > length then length else index
  }

  function Insert<T>(list: seq<T>, k: nat, x: T): seq<T>
    requires k <= |list|
  {
    list[..k] + [x] + list[k..]
  }

  function PyInsert<T>(list: seq<T>, index: int, x: T): seq<T> {
    Insert(list, Clamp(index, |list|), x)
  }

  /** The list after the first n dependencies. */
  function Spaced(deps: seq<Dependency>, n: nat): (list: seq<Slot>)
    requires n <= |deps|
    ensures |list| == SLOTS + n
  {
    if n == 0 then seq(SLOTS, _ => Zero)
    else PyInsert(Spaced(deps, n - 1), deps[n - 1].order * SPACING, Item(n - 1))
  }

  /** [x for x in list if x != 0] */
  function Compact(list: seq<Slot>): seq<nat> {
    if list == [] then []
    else (if list[0].Item? then [list[0].i] else []) + Compact(list[1..])
  }

  function InstallOrder(deps: seq<Dependency>): seq<nat> {
    Compact(Spaced(deps, |deps|))
  }

  method BuildList(deps: seq<Dependency>) returns (names: seq<string>)
    ensures |names| == |InstallOrder(deps)|
    ensures forall k :: 0 <= k < |names| ==>
      InstallOrder(deps)[k] < |deps| && names[k] == deps[InstallOrder(deps)[k]].name
  {
    var list: seq<Slot> := seq(SLOTS, _ => Zero);
    for n := 0 to |deps|
      invariant list == Spaced(deps, n)
    {
      list := PyInsert(list, deps[n].order * SPACING, Item(n));
    }
    names := [];
    IndicesInRange(deps, |deps|);
    CompactMembers(list);
    for p := 0 to |list|
      invariant |names| == |Compact(list[..p])|
      invariant forall k :: 0 <= k < |names| ==>
        Compact(list[..p])[k] < |deps| && names[k] == deps[Compact(list[..p])[k]].name
    {
      assert list[..p + 1] == list[..p] + [list[p]];
      CompactAppend(list[..p], list[p]);
      if list[p] != Zero {
        names := names + [deps[list[p].i].name];
      }
    }
    assert list[..|list|] == list;
  }

  // ---------------------------------------------------------------- what is promised

  /** Installed in order, and among equal orders the one met last comes first. */
  ghost predicate SortedNewestFirst(deps: seq<Dependency>, out: seq<nat>) {
    forall a, b :: 0 <= a < b < |out| && out[a] < |deps| && out[b] < |deps| ==>
      deps[out[a]].order < deps[out[b]].order || (deps[out[a]].order == deps[out[b]].order && out[a] > out[b])
  }

  /** How many of the dependencies met after the d-th and before the e-th push it right. */
  function Pushes(deps: seq<Dependency>, d: nat, e: nat): nat
    requires d < e <= |deps|
  {
    if e == d + 1 then 0
    else Pushes(deps, d, e - 1) + if deps[e - 1].order <= deps[d].order then 1 else 0
  }

  /** No dependency is pushed as far as the slot of a later one with a higher order. */
  ghost predicate NoOvertaking(deps: seq<Dependency>, n: nat)
    requires n <= |deps|
  {
    forall d, e :: 0 <= d < e < n && deps[d].order < deps[e].order ==>
      Pushes(deps, d, e) < 20 * (deps[e].order - deps[d].order)
  }

  ghost predicate InRange(deps: seq<Dependency>) {
    forall i :: 0 <= i < |deps| ==> 0 <= deps[i].order < 250
  }

  // ---------------------------------------------------------------- compaction

  lemma {:induction false} CompactConcat(a: seq<Slot>, b: seq<Slot>)
    ensures Compact(a + b) == Compact(a) + Compact(b)
  {
    if a == [] {
      assert a + b == b;
    } else {
      assert (a + b)[1..] == a[1..] + b && (a + b)[0] == a[0];
      CompactConcat(a[1..], b);
      var head := if a[0].Item? then [a[0].i] else [];
      assert Compact(a + b) == head + (Compact(a[1..]) + Compact(b));
      assert head + (Compact(a[1..]) + Compact(b)) == (head + Compact(a[1..])) + Compact(b);
    }
  }

  lemma {:induction false} CompactAppend(a: seq<Slot>, x: Slot)
    ensures Compact(a + [x]) == Compact(a) + if x.Item? then [x.i] else []
  {
    CompactConcat(a, [x]);
    assert [x][1..] == [];
  }

  lemma {:induction false} CompactMembers(list: seq<Slot>)
    ensures forall i :: i in Compact(list) <==> Item(i) in list
  {
    if list != [] { CompactMembers(list[1..]); }
  }

  lemma {:induction false} CompactZeros(list: seq<Slot>)
    requires forall p :: 0 <= p < |list| ==> list[p] == Zero
    ensures Compact(list) == []
  {
    if list != [] { CompactZeros(list[1..]); }
  }

  lemma {:induction false} CompactInsert(list: seq<Slot>, k: nat, i: nat)
    requires k <= |list|
    ensures Compact(Insert(list, k, Item(i))) == Compact(list[..k]) + [i] + Compact(list[k..])
    ensures Compact(list) == Compact(list[..k]) + Compact(list[k..])
  {
    CompactConcat(list[..k] + [Item(i)], list[k..]);
    CompactAppend(list[..k], Item(i));
    CompactConcat(list[..k], list[k..]);
    assert list[..k] + list[k..] == list;
  }

  lemma {:induction false} InsertHolds(list: seq<Slot>, k: nat, x: Slot)
    requires k <= |list|
    ensures forall y :: y in Insert(list, k, x) <==> y in list || y == x
  {
    assert list == list[..k] + list[k..];
  }

  /** One more dependency is one more insertion. */
  lemma {:induction false} SpacedNext(deps: seq<Dependency>, n: nat) returns (k: nat)
    requires n < |deps|
    ensures k <= |Spaced(deps, n)| && Spaced(deps, n + 1) == Insert(Spaced(deps, n), k, Item(n))
  {
    k := Clamp(deps[n].order * SPACING, |Spaced(deps, n)|);
  }

  lemma {:induction false} IndicesInRange(deps: seq<Dependency>, n: nat)
    requires n <= |deps|
    ensures forall x :: x in Spaced(deps, n) && x.Item? ==> x.i < n
  {
    if n > 0 {
      IndicesInRange(deps, n - 1);
      var k := SpacedNext(deps, n - 1);
      InsertHolds(Spaced(deps, n - 1), k, Item(n - 1));
    }
  }

  /** Whatever the orders, every dependency is installed exactly once. */
  lemma {:induction false} InstallsEachOnce(deps: seq<Dependency>, n: nat)
    requires n <= |deps|
    ensures |Compact(Spaced(deps, n))| == n
    ensures forall i :: 0 <= i < n ==> i in Compact(Spaced(deps, n))
  {
    if n == 0 {
      CompactZeros(Spaced(deps, 0));
    } else {
      InstallsEachOnce(deps, n - 1);
      var k := SpacedNext(deps, n - 1);
      InsertOne(Spaced(deps, n - 1), k, n - 1);
    }
  }

  lemma {:induction false} InsertOne(list: seq<Slot>, k: nat, i: nat)
    requires k <= |list|
    ensures |Compact(Insert(list, k, Item(i)))| == |Compact(list)| + 1
    ensures forall x :: x in Compact(Insert(list, k, Item(i))) <==> x in Compact(list) || x == i
  {
    CompactInsert(list, k, i);
    InsertMembers(Compact(list[..k]), Compact(list[k..]), i);
  }

  lemma {:induction false} InsertMembers(low: seq<nat>, high: seq<nat>, x: nat)
    ensures forall i :: i in low + [x] + high <==> i in low + high || i == x
  {
  }

  // ---------------------------------------------------------------- positions

  function Position(deps: seq<Dependency>, i: nat, n: nat): int
    requires i < n <= |deps|
  {
    deps[i].order * SPACING + Pushes(deps, i, n)
  }

  ghost predicate AtPosition(deps: seq<Dependency>, n: nat, i: nat)
    requires i < n <= |deps|
  {
    0 <= Position(deps, i, n) < SLOTS + n && Spaced(deps, n)[Position(deps, i, n)] == Item(i)
  }

  ghost predicate Accounted(deps: seq<Dependency>, n: nat, p: nat)
    requires n <= |deps| && p < SLOTS + n
  {
    var x := Spaced(deps, n)[p];
    x.Item? ==> x.i < n && p == Position(deps, x.i, n)
  }

  /** As long as nothing was overtaken, each dependency sits in its own slot pushed right by
      the later ones of no higher order, and nothing else is in the list. */
  ghost predicate Placed(deps: seq<Dependency>, n: nat)
    requires n <= |deps|
  {
    && (forall i :: 0 <= i < n ==> AtPosition(deps, n, i))
    && (forall p :: 0 <= p < SLOTS + n ==> Accounted(deps, n, p))
  }

  lemma {:induction false} StaysPlaced(deps: seq<Dependency>, n: nat)
    requires n <= |deps| && InRange(deps) && NoOvertaking(deps, n)
    ensures Placed(deps, n)
  {
    if n > 0 {
      StaysPlaced(deps, n - 1);
      forall i | 0 <= i < n ensures AtPosition(deps, n, i) {
        NewPosition(deps, n - 1, i);
      }
      forall p | 0 <= p < SLOTS + n ensures Accounted(deps, n, p) {
        OldPosition(deps, n - 1, p);
      }
    }
  }

  /** Where an element of the list is found after one more insertion. */
  lemma {:induction false} InsertLooksUp(deps: seq<Dependency>, n: nat, p: nat)
    requires n < |deps| && InRange(deps) && p < SLOTS + n
    ensures var k := deps[n].order * SPACING;
      && Spaced(deps, n + 1)[k] == Item(n)
      && Spaced(deps, n + 1)[if p < k then p else p + 1] == Spaced(deps, n)[p]
  {
  }

  lemma {:induction false} Shifts(deps: seq<Dependency>, i: nat, n: nat)
    requires i < n < |deps| && NoOvertaking(deps, n + 1)
    ensures Position(deps, i, n + 1) ==
      Position(deps, i, n) + if Position(deps, i, n) < deps[n].order * SPACING then 0 else 1
  {
    Splits(deps, i, n);
  }

  lemma {:induction false} NewPosition(deps: seq<Dependency>, n: nat, i: nat)
    requires i <= n < |deps| && InRange(deps) && NoOvertaking(deps, n + 1) && Placed(deps, n)
    ensures AtPosition(deps, n + 1, i)
  {
    if i < n {
      assert AtPosition(deps, n, i);
      Shifts(deps, i, n);
      InsertLooksUp(deps, n, Position(deps, i, n));
    } else {
      InsertLooksUp(deps, n, 0);
    }
  }

  lemma {:induction false} OldPosition(deps: seq<Dependency>, n: nat, p: nat)
    requires n < |deps| && InRange(deps) && NoOvertaking(deps, n + 1) && Placed(deps, n)
    requires p < SLOTS + n + 1
    ensures Accounted(deps, n + 1, p)
  {
    var k := deps[n].order * SPACING;
    if p == k {
      InsertLooksUp(deps, n, 0);
    } else {
      var q := if p < k then p else p - 1;
      InsertLooksUp(deps, n, q);
      assert Accounted(deps, n, q);
      if Spaced(deps, n)[q].Item? {
        Shifts(deps, Spaced(deps, n)[q].i, n);
      }
    }
  }

  /** Insertion splits the list between the lower orders and the others. */
  lemma {:induction false} Splits(deps: seq<Dependency>, i: nat, n: nat)
    requires i < n < |deps| && NoOvertaking(deps, n + 1)
    ensures Position(deps, i, n) < deps[n].order * SPACING <==> deps[i].order < deps[n].order
  {
  }

  lemma {:induction false} CompactNext(deps: seq<Dependency>, n: nat)
    requires n < |deps| && InRange(deps)
    ensures var before, k := Spaced(deps, n), deps[n].order * SPACING;
      && 0 <= k <= |before|
      && Compact(Spaced(deps, n + 1)) == Compact(before[..k]) + [n] + Compact(before[k..])
      && Compact(before) == Compact(before[..k]) + Compact(before[k..])
  {
    CompactInsert(Spaced(deps, n), deps[n].order * SPACING, n);
  }

  lemma {:induction false} SortedNext(deps: seq<Dependency>, n: nat)
    requires n < |deps| && InRange(deps) && NoOvertaking(deps, n + 1)
    requires SortedNewestFirst(deps, Compact(Spaced(deps, n)))
    ensures SortedNewestFirst(deps, Compact(Spaced(deps, n + 1)))
  {
    var before, k := Spaced(deps, n), deps[n].order * SPACING;
    CompactNext(deps, n);
    LowAndHigh(deps, n);
    SortedInsert(deps, Compact(before[..k]), Compact(before[k..]), n);
  }

  lemma {:induction false} SortedFrom(deps: seq<Dependency>, m: nat, n: nat)
    requires m <= n <= |deps| && InRange(deps) && NoOvertaking(deps, n)
    requires SortedNewestFirst(deps, Compact(Spaced(deps, m)))
    ensures SortedNewestFirst(deps, Compact(Spaced(deps, n)))
    decreases n - m
  {
    if m < n {
      SortedNext(deps, m);
      SortedFrom(deps, m + 1, n);
    }
  }

  lemma {:induction false} SortedPrefix(deps: seq<Dependency>, n: nat)
    requires n <= |deps| && InRange(deps) && NoOvertaking(deps, n)
    ensures SortedNewestFirst(deps, Compact(Spaced(deps, n)))
  {
    InstallsEachOnce(deps, 0);
    SortedFrom(deps, 0, n);
  }

  lemma {:induction false} LowAndHigh(deps: seq<Dependency>, n: nat)
    requires n < |deps| && InRange(deps) && NoOvertaking(deps, n + 1)
    ensures var k := deps[n].order * SPACING;
      && (forall i :: i in Compact(Spaced(deps, n)[..k]) ==> i < n && deps[i].order < deps[n].order)
      && (forall i :: i in Compact(Spaced(deps, n)[k..]) ==> i < n && deps[i].order >= deps[n].order)
  {
    StaysPlaced(deps, n);
    var before := Spaced(deps, n);
    var k := deps[n].order * SPACING;
    CompactMembers(before[..k]);
    CompactMembers(before[k..]);
    forall i | i in Compact(before[..k]) ensures i < n && deps[i].order < deps[n].order {
      var p :| 0 <= p < k && before[..k][p] == Item(i);
      assert before[p] == Item(i) && Accounted(deps, n, p);
      Splits(deps, i, n);
    }
    forall i | i in Compact(before[k..]) ensures i < n && deps[i].order >= deps[n].order {
      var p :| 0 <= p < |before| - k && before[k..][p] == Item(i);
      assert before[k + p] == Item(i) && Accounted(deps, n, k + p);
      Splits(deps, i, n);
    }
  }

  lemma {:induction false} SortedInsert(deps: seq<Dependency>, low: seq<nat>, high: seq<nat>, n: nat)
    requires n < |deps| && SortedNewestFirst(deps, low + high)
    requires forall i :: i in low ==> i < n && deps[i].order < deps[n].order
    requires forall i :: i in high ==> i < n && deps[i].order >= deps[n].order
    ensures SortedNewestFirst(deps, low + [n] + high)
  {
    var out := low + [n] + high;
    forall a, b | 0 <= a < b < |out| && out[a] < |deps| && out[b] < |deps|
      ensures deps[out[a]].order < deps[out[b]].order || (deps[out[a]].order == deps[out[b]].order && out[a] > out[b])
    {
      if a == |low| {
        assert out[b] == high[b - |low| - 1];
      } else if b == |low| {
        assert out[a] == low[a];
      } else {
        var c := if a < |low| then a else a - 1;
        var d := if b < |low| then b else b - 1;
        assert (low + high)[c] == out[a] && (low + high)[d] == out[b];
      }
    }
  }

  // ---------------------------------------------------------------- overtaking

  ghost predicate ComesBefore(out: seq<nat>, e: nat, d: nat) {
    exists a, b :: 0 <= a < b < |out| && out[a] == e && out[b] == d
  }

  /** Later insertions never change the relative order of two dependencies. */
  lemma {:induction false} OrderPersists(deps: seq<Dependency>, e: nat, d: nat, m: nat, n: nat)
    requires m <= n <= |deps| && InRange(deps) && ComesBefore(Compact(Spaced(deps, m)), e, d)
    ensures ComesBefore(Compact(Spaced(deps, n)), e, d)
  {
    if m < n {
      OrderPersists(deps, e, d, m, n - 1);
      var before := Spaced(deps, n - 1);
      var k := deps[n - 1].order * SPACING;
      CompactInsert(before, k, n - 1);
      BeforeInsert(Compact(before[..k]), Compact(before[k..]), n - 1, e, d);
    }
  }

  lemma {:induction false} BeforeInsert(low: seq<nat>, high: seq<nat>, x: nat, e: nat, d: nat)
    requires ComesBefore(low + high, e, d)
    ensures ComesBefore(low + [x] + high, e, d)
  {
    var a, b :| 0 <= a < b < |low + high| && (low + high)[a] == e && (low + high)[b] == d;
    var out := low + [x] + high;
    assert out[if a < |low| then a else a + 1] == e && out[if b < |low| then b else b + 1] == d;
  }

  /** The first dependency to overtake lands in front of one with a lower order. */
  lemma {:induction false} Overtakes(deps: seq<Dependency>, d: nat, e: nat)
    requires d < e < |deps| && InRange(deps) && NoOvertaking(deps, e)
    requires deps[d].order < deps[e].order && Pushes(deps, d, e) >= SPACING * (deps[e].order - deps[d].order)
    ensures ComesBefore(Compact(Spaced(deps, e + 1)), e, d)
  {
    StaysPlaced(deps, e);
    var before := Spaced(deps, e);
    var k := deps[e].order * SPACING;
    var p := Position(deps, d, e);
    assert AtPosition(deps, e, d);
    CompactInsert(before, k, e);
    CompactMembers(before[k..]);
    assert before[k..][p - k] == Item(d);
    assert d in Compact(before[k..]);
    var b :| 0 <= b < |Compact(before[k..])| && Compact(before[k..])[b] == d;
    var low := |Compact(before[..k])|;
    var out := Compact(Spaced(deps, e + 1));
    assert out[low] == e && out[low + 1 + b] == d;
  }

  lemma {:induction false} FirstOvertaker(deps: seq<Dependency>, n: nat) returns (d: nat, e: nat)
    requires n <= |deps| && !NoOvertaking(deps, n)
    ensures d < e < n && NoOvertaking(deps, e) && deps[d].order < deps[e].order
    ensures Pushes(deps, d, e) >= SPACING * (deps[e].order - deps[d].order)
  {
    if NoOvertaking(deps, n - 1) {
      e := n - 1;
      d :| 0 <= d < e && deps[d].order < deps[e].order
           && Pushes(deps, d, e) >= SPACING * (deps[e].order - deps[d].order);
    } else {
      d, e := FirstOvertaker(deps, n - 1);
    }
  }

  // ---------------------------------------------------------------- the theorem

  lemma {:induction false} MisplacedBreaks(deps: seq<Dependency>, out: seq<nat>, e: nat, d: nat)
    requires ComesBefore(out, e, d) && e < |deps| && d < |deps| && deps[d].order < deps[e].order
    ensures !SortedNewestFirst(deps, out)
  {
    var a, b :| 0 <= a < b < |out| && out[a] == e && out[b] == d;
    assert !(deps[out[a]].order < deps[out[b]].order);
  }

  lemma {:induction false} OvertakingBreaks(deps: seq<Dependency>)
    requires InRange(deps) && !NoOvertaking(deps, |deps|)
    ensures !SortedNewestFirst(deps, InstallOrder(deps))
  {
    var d, e := FirstOvertaker(deps, |deps|);
    Overtakes(deps, d, e);
    OrderPersists(deps, e, d, e + 1, |deps|);
    MisplacedBreaks(deps, InstallOrder(deps), e, d);
  }

  /** With orders below 250, dependencies are installed in order, ties newest first, exactly
      when none is pushed to the slot of a later one with a higher order. */
  lemma {:induction false} InOrderExactly(deps: seq<Dependency>)
    requires InRange(deps)
    ensures SortedNewestFirst(deps, InstallOrder(deps)) <==> NoOvertaking(deps, |deps|)
  {
    if NoOvertaking(deps, |deps|) { SortedPrefix(deps, |deps|); } else { OvertakingBreaks(deps); }
  }

  /** Fewer than twenty later dependencies of no higher order are always harmless. */
  lemma {:induction false} FewPushesSuffice(deps: seq<Dependency>)
    requires InRange(deps)
    requires forall d :: 0 <= d < |deps| ==> Pushes(deps, d, |deps|) < 20
    ensures SortedNewestFirst(deps, InstallOrder(deps))
  {
    forall d, e | 0 <= d < e < |deps| && deps[d].order < deps[e].order
      ensures Pushes(deps, d, e) < SPACING * (deps[e].order - deps[d].order)
    {
      PushesGrow(deps, d, e, |deps|);
    }
    InOrderExactly(deps);
  }

  lemma {:induction false} PushesGrow(deps: seq<Dependency>, d: nat, e: nat, n: nat)
    requires d < e <= n <= |deps|
    ensures Pushes(deps, d, e) <= Pushes(deps, d, n)
  {
    if e < n { PushesGrow(deps, d, e, n - 1); }
  }

  /** Twenty are enough to break the order, at every order that has a next one. */
  lemma {:induction false} TwentyPushesBreak(deps: seq<Dependency>)
    requires |deps| == 22 && InRange(deps)
    requires forall i :: 0 < i <= 20 ==> deps[i].order <= deps[0].order
    requires deps[21].order == deps[0].order + 1
    ensures !SortedNewestFirst(deps, InstallOrder(deps))
  {
    AllPush(deps, 21);
    InOrderExactly(deps);
  }

  lemma {:induction false} AllPush(deps: seq<Dependency>, e: nat)
    requires 1 <= e <= |deps| && forall i :: 0 < i < e ==> deps[i].order <= deps[0].order
    ensures Pushes(deps, 0, e) == e - 1
  {
    if e > 1 { AllPush(deps, e - 1); }
  }

  /** A dependency whose place is beyond the list is put at its end. */
  lemma {:induction false} AppendedAtEnd(deps: seq<Dependency>, n: nat)
    requires n < |deps| && 20 * deps[n].order >= 5000 + n
    ensures Compact(Spaced(deps, n + 1)) == Compact(Spaced(deps, n)) + [n]
  {
    var list := Spaced(deps, n);
    assert Insert(list, |list|, Item(n)) == list + [Item(n)];
    CompactAppend(list, Item(n));
  }

  /** So if the last one met is of such an order, one of a higher order that was met before it
      is installed before it. */
  lemma {:induction false} LargeOrdersBreak(deps: seq<Dependency>, m: nat)
    requires m < |deps| - 1 && deps[m].order > deps[|deps| - 1].order
    requires 20 * deps[|deps| - 1].order >= 5000 + |deps| - 1
    ensures !SortedNewestFirst(deps, InstallOrder(deps))
  {
    var n := |deps| - 1;
    AppendedAtEnd(deps, n);
    InstallsEachOnce(deps, n);
    var before, out := Compact(Spaced(deps, n)), InstallOrder(deps);
    assert m in before;
    var a :| 0 <= a < |before| && before[a] == m;
    assert out[a] == m && out[|before|] == n;
  }
}
