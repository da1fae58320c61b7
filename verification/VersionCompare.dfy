/** compare_versions (lib/auxiliary/dependencies.py): is the version found at least the
    minimum version required? */
module VersionCompare {
  import opened Strings
  import opened Wrappers

  datatype Verdict = Accepted | TooOld | Mismatch | NoMinimum

  predicate IsDigit(c: char) { '0' <= c <= '9' }

  /** Everything but digits and dots is dropped. */
  function Clean(s: string): string {
    if s == "" then "" else (if IsDigit(s[0]) || s[0] == '.' then [s[0]] else []) + Clean(s[1..])
  }

  predicate AllZeros(part: string) {
    part != "" && forall i :: 0 <= i < |part| ==> part[i] == '0'
  }

  /** Removes the trailing ".0", ".00", ... groups; the first component is never one. */
  function StripZeros(parts: seq<string>): (r: seq<string>)
    ensures |r| <= |parts| && (parts != [] ==> r != [])
  {
    if |parts| > 1 && AllZeros(parts[|parts| - 1]) then StripZeros(parts[..|parts| - 1]) else parts
  }

  /** int() of a run of digits. */
  function Number(digits: string): nat
    requires forall i :: 0 <= i < |digits| ==> IsDigit(digits[i])
  {
    if digits == "" then 0
    else
      var last := digits[|digits| - 1];
      assert IsDigit(last);
      Number(digits[..|digits| - 1]) * 10 + (last - '0') as nat
  }

  predicate Numeric(parts: seq<string>) {
    forall i :: 0 <= i < |parts| ==> parts[i] != "" && forall j :: 0 <= j < |parts[i]| ==> IsDigit(parts[i][j])
  }

  function Numbers(parts: seq<string>): (r: seq<nat>)
    requires Numeric(parts)
    ensures |r| == |parts|
  {
    seq(|parts|, i requires 0 <= i < |parts| => Number(parts[i]))
  }

  /** The components as written, before any is stripped. */
  function Components(version: string): seq<string> {
    Split(Clean(version), '.')
  }

  /** The list that is compared; None where int() raises on an empty component. */
  function Parse(version: string): Option<seq<nat>> {
    var parts := StripZeros(Components(version));
    if Numeric(parts) then Some(Numbers(parts)) else None
  }

  /** Lexicographic comparison of lists, and cmp(a, b) = (a > b) - (a < b). */
  function Cmp(a: seq<nat>, b: seq<nat>): (r: int)
    ensures -1 <= r <= 1
  {
    if a == [] then (if b == [] then 0 else -1)
    else if b == [] then 1
    else if a[0] < b[0] then -1
    else if a[0] > b[0] then 1
    else Cmp(a[1..], b[1..])
  }

  predicate IsAny(version: string) {
    |version| == 3 && LowerChar(version[0]) == 'a' && LowerChar(version[1]) == 'n' && LowerChar(version[2]) == 'y'
  }

  function Compare(required: Option<string>, provided: string): Verdict {
    if required.None? then NoMinimum
    else if IsAny(required.value) then Accepted
    else
      var a, b := Parse(required.value), Parse(provided);
      if a.None? || b.None? then Mismatch
      else if Cmp(a.value, b.value) > 0 then TooOld
      else Accepted
  }

  /** Digits and dots stay, in their order, and nothing else does. */
  lemma {:induction false} CleanLaws(a: string, b: string, c: char)
    ensures Clean("") == "" && Clean([c]) == if '0' <= c <= '9' || c == '.' then [c] else ""
    ensures Clean(a + b) == Clean(a) + Clean(b)
  {
    assert [c][1..] == "";
    if a == "" {
      assert a + b == b;
    } else {
      assert (a + b)[1..] == a[1..] + b;
      CleanLaws(a[1..], b, c);
    }
  }

  /** A run of digits is read in base ten, 0 having the code 48. */
  lemma {:induction false} NumberLaws(digits: string, d: char)
    requires IsDigit(d) && forall i :: 0 <= i < |digits| ==> IsDigit(digits[i])
    ensures Number([d]) == d as int - 48
    ensures Number(digits + [d]) == 10 * Number(digits) + (d as int - 48)
  {
    assert (digits + [d])[..|digits|] == digits;
    assert [d][..0] == "";
  }

  /** Any spelling of "any" will do. */
  lemma {:induction false} AnyHasEightSpellings(version: string)
    ensures IsAny(version) <==> version in {"any", "Any", "aNy", "anY", "ANy", "AnY", "aNY", "ANY"}
  {
    if IsAny(version) {
      assert version == [version[0], version[1], version[2]];
      LetterOf(version[0], 'a');
      LetterOf(version[1], 'n');
      LetterOf(version[2], 'y');
    }
  }

  lemma {:induction false} LetterOf(c: char, small: char)
    requires 'a' <= small <= 'z' && LowerChar(c) == small
    ensures c == small || c as int == small as int - 32
  {
  }

  // ---------------------------------------------------------------- the padded order

  function Digit(v: seq<nat>, i: nat): nat {
    if i < |v| then v[i] else 0
  }

  /** a is older than b when both go on with infinitely many zero components. */
  ghost predicate Older(a: seq<nat>, b: seq<nat>) {
    exists i: nat :: OlderAt(a, b, i)
  }

  ghost predicate OlderAt(a: seq<nat>, b: seq<nat>, i: nat) {
    Digit(a, i) < Digit(b, i) && forall j: nat :: j < i ==> Digit(a, j) == Digit(b, j)
  }

  ghost predicate SameVersion(a: seq<nat>, b: seq<nat>) {
    forall i: nat :: Digit(a, i) == Digit(b, i)
  }

  predicate Stripped(v: seq<nat>) {
    |v| <= 1 || v[|v| - 1] != 0
  }

  lemma {:induction false} OlderTail(a: seq<nat>, b: seq<nat>)
    requires Digit(a, 0) == Digit(b, 0) && a != [] && b != []
    ensures Older(a, b) <==> Older(a[1..], b[1..])
    ensures SameVersion(a, b) <==> SameVersion(a[1..], b[1..])
  {
    assert forall i: nat {:trigger Digit(a, i + 1)} :: Digit(a, i + 1) == Digit(a[1..], i);
    assert forall i: nat {:trigger Digit(b, i + 1)} :: Digit(b, i + 1) == Digit(b[1..], i);
    if i: nat :| OlderAt(a[1..], b[1..], i) {
      forall j: nat | j < i + 1 ensures Digit(a, j) == Digit(b, j) {
        if j > 0 { assert Digit(a[1..], j - 1) == Digit(b[1..], j - 1); }
      }
      assert Digit(a[1..], i) == Digit(a, i + 1) && Digit(b[1..], i) == Digit(b, i + 1);
      assert OlderAt(a, b, i + 1);
    }
    if i: nat :| OlderAt(a, b, i) {
      assert i > 0;
      forall j: nat | j < i - 1 ensures Digit(a[1..], j) == Digit(b[1..], j) {
        assert Digit(a, j + 1) == Digit(b, j + 1);
      }
      assert Digit(a[1..], i - 1) == Digit(a, i) && Digit(b[1..], i - 1) == Digit(b, i);
      assert OlderAt(a[1..], b[1..], i - 1);
    }
    if SameVersion(a[1..], b[1..]) {
      forall i: nat ensures Digit(a, i) == Digit(b, i) {
        if i > 0 { assert Digit(a[1..], i - 1) == Digit(b[1..], i - 1); }
      }
    }
    if SameVersion(a, b) {
      forall i: nat ensures Digit(a[1..], i) == Digit(b[1..], i) {
        assert Digit(a, i + 1) == Digit(b, i + 1);
      }
    }
  }

  /** A list that ends in a nonzero component is newer than nothing at all. */
  lemma {:induction false} NewerThanNothing(b: seq<nat>)
    requires b != [] && b[|b| - 1] != 0
    ensures Older([], b) && !SameVersion([], b) && !Older(b, [])
  {
    assert Digit(b, |b| - 1) != Digit([], |b| - 1);
    var i: nat := 0;
    while b[i] == 0
      invariant i < |b| && forall j :: 0 <= j < i ==> b[j] == 0
      decreases |b| - i
    {
      i := i + 1;
    }
    assert OlderAt([], b, i);
  }

  /** Neither list is a single zero facing nothing: what stripping guarantees. */
  predicate Comparable(a: seq<nat>, b: seq<nat>) {
    && Stripped(a) && Stripped(b)
    && (a == [] ==> b == [] || b[|b| - 1] != 0) && (b == [] ==> a == [] || a[|a| - 1] != 0)
  }

  lemma {:induction false} CmpIsPaddedOrder(a: seq<nat>, b: seq<nat>)
    requires Comparable(a, b)
    ensures Cmp(a, b) == -1 <==> Older(a, b)
    ensures Cmp(a, b) == 1 <==> Older(b, a)
    ensures Cmp(a, b) == 0 <==> SameVersion(a, b)
    ensures Cmp(a, b) == 0 <==> a == b
  {
    if a == [] && b == [] {
    } else if a == [] {
      NewerThanNothing(b);
    } else if b == [] {
      NewerThanNothing(a);
    } else if a[0] != b[0] {
      assert Digit(a, 0) == a[0] && Digit(b, 0) == b[0];
      assert if a[0] < b[0] then OlderAt(a, b, 0) else OlderAt(b, a, 0);
    } else {
      OlderTail(a, b);
      OlderTail(b, a);
      CmpIsPaddedOrder(a[1..], b[1..]);
      assert a == [a[0]] + a[1..] && b == [b[0]] + b[1..];
    }
  }

  // ---------------------------------------------------------------- stripping

  lemma {:induction false} NumberZero(digits: string)
    requires forall i :: 0 <= i < |digits| ==> IsDigit(digits[i])
    ensures Number(digits) == 0 <==> forall i :: 0 <= i < |digits| ==> digits[i] == '0'
  {
    if digits != "" {
      var front, last := digits[..|digits| - 1], digits[|digits| - 1];
      NumberZero(front);
      assert IsDigit(last);
      assert Number(digits) == Number(front) * 10 + (last - '0') as nat;
      assert (last - '0') as nat == 0 <==> last == '0';
      assert forall i :: 0 <= i < |front| ==> front[i] == digits[i];
    }
  }

  /** Stripping touches neither whether int() succeeds nor any padded component. */
  lemma {:induction false} StripKeepsDigits(parts: seq<string>)
    requires parts != []
    ensures Numeric(StripZeros(parts)) <==> Numeric(parts)
    ensures Numeric(parts) ==>
      && Stripped(Numbers(StripZeros(parts)))
      && SameVersion(Numbers(StripZeros(parts)), Numbers(parts))
  {
    var last := parts[|parts| - 1];
    if |parts| > 1 && AllZeros(last) {
      var front := parts[..|parts| - 1];
      StripKeepsDigits(front);
      assert forall i :: 0 <= i < |front| ==> front[i] == parts[i];
      if Numeric(parts) {
        NumberZero(last);
        assert SameVersion(Numbers(front), Numbers(parts));
        assert forall i: nat :: Digit(Numbers(StripZeros(parts)), i) == Digit(Numbers(front), i);
      }
    } else if Numeric(parts) {
      assert last != "" && forall j :: 0 <= j < |last| ==> IsDigit(last[j]);
      NumberZero(last);
    }
  }

  /** A version that int() can read, as the list of all its written components. */
  predicate Readable(version: string) {
    Numeric(Components(version))
  }

  function Written(version: string): seq<nat>
    requires Readable(version)
  {
    Numbers(Components(version))
  }

  lemma {:induction false} SameOrder(a: seq<nat>, a': seq<nat>, b: seq<nat>, b': seq<nat>)
    requires SameVersion(a, a') && SameVersion(b, b')
    ensures Older(a, b) <==> Older(a', b')
  {
    forall i: nat ensures OlderAt(a, b, i) <==> OlderAt(a', b', i) {
      assert forall j: nat :: Digit(a, j) == Digit(a', j) && Digit(b, j) == Digit(b', j);
    }
  }

  /** A found version is accepted exactly when any will do, or when both can be read and it
      is not older than the minimum, every missing component counting as zero. */
  lemma {:induction false} AcceptsExactly(required: string, provided: string)
    ensures Compare(Some(required), provided) == Accepted <==>
      IsAny(required) ||
      (Readable(required) && Readable(provided) && !Older(Written(provided), Written(required)))
    ensures Compare(Some(required), provided) == Mismatch <==>
      !IsAny(required) && !(Readable(required) && Readable(provided))
    ensures Compare(None, provided) == NoMinimum && Compare(Some(required), provided) != NoMinimum
  {
    StripKeepsDigits(Components(required));
    StripKeepsDigits(Components(provided));
    if Readable(required) && Readable(provided) {
      var a, b := Parse(required).value, Parse(provided).value;
      CmpIsPaddedOrder(a, b);
      SameOrder(b, Written(provided), a, Written(required));
    }
  }

  // ---------------------------------------------------------------- a total preorder

  lemma {:induction false} OlderIsStrictWeakOrder(a: seq<nat>, b: seq<nat>, c: seq<nat>)
    ensures !Older(a, a)
    ensures Older(a, b) ==> !Older(b, a)
    ensures !Older(a, b) && !Older(b, c) ==> !Older(a, c)
    ensures Older(a, b) || Older(b, a) || SameVersion(a, b)
  {
    OlderTotal(a, b);
    OlderTotal(b, c);
    if Older(a, b) { OlderAsymmetric(b, a); }
    if !Older(a, b) && !Older(b, c) {
      if Older(b, a) {
        if Older(c, b) { OlderTransitive(c, b, a); } else { SameOrder(b, c, a, a); }
        OlderAsymmetric(a, c);
      } else {
        SameOrder(a, b, c, c);
      }
    }
  }

  lemma {:induction false} OlderAsymmetric(a: seq<nat>, b: seq<nat>)
    requires Older(b, a)
    ensures !Older(a, b)
  {
    var j: nat :| OlderAt(b, a, j);
    forall i: nat ensures !OlderAt(a, b, i) {
      if j < i { assert Digit(a, j) != Digit(b, j); }
    }
  }

  lemma {:induction false} OlderTransitive(a: seq<nat>, b: seq<nat>, c: seq<nat>)
    requires Older(a, b) && Older(b, c)
    ensures Older(a, c)
  {
    var i: nat :| OlderAt(a, b, i);
    var j: nat :| OlderAt(b, c, j);
    var k := if i < j then i else j;
    assert forall m: nat :: m < k ==> Digit(a, m) == Digit(b, m) && Digit(b, m) == Digit(c, m);
    assert OlderAt(a, c, k);
  }

  lemma {:induction false} OlderTotal(a: seq<nat>, b: seq<nat>)
    ensures Older(a, b) || Older(b, a) || SameVersion(a, b)
  {
    var longest := if |a| < |b| then |b| else |a|;
    var i: nat := 0;
    while i < longest && Digit(a, i) == Digit(b, i)
      invariant i <= longest && forall j: nat :: j < i ==> Digit(a, j) == Digit(b, j)
    {
      i := i + 1;
    }
    if i < longest {
      assert OlderAt(a, b, i) || OlderAt(b, a, i);
    }
  }

  /** Whatever is at least as new as an accepted version is accepted too. */
  lemma {:induction false} AcceptanceIsUpwardClosed(required: string, accepted: string, newer: string)
    requires Compare(Some(required), accepted) == Accepted
    requires Readable(accepted) && Readable(newer) && !Older(Written(newer), Written(accepted))
    ensures Compare(Some(required), newer) == Accepted
  {
    AcceptsExactly(required, accepted);
    AcceptsExactly(required, newer);
    if !IsAny(required) {
      OlderIsStrictWeakOrder(Written(newer), Written(accepted), Written(required));
    }
  }
}
