/** add_ip_address (lib/auxiliary/data_ops.py): a carry loop over the octets of a subnet
    address, from the last one, that leaves as soon as nothing is carried. */
module IpArithmetic {
  import opened Division

  const BASE := 256

  /** The octets as one base-256 number. */
  function ValueOf(octets: seq<int>): int {
    if octets == [] then 0
    else ValueOf(octets[..|octets| - 1]) * BASE + octets[|octets| - 1]
  }

  function Power(n: nat): (p: nat)
    ensures p >= 1
  {
    if n == 0 then 1 else BASE * Power(n - 1)
  }

  predicate AreOctets(octets: seq<int>) {
    forall i :: 0 <= i < |octets| ==> 0 <= octets[i] < BASE
  }

  /** What the loop leaves, written from the last octet: replace it and carry on in front
      of it while the sum reaches 256, else stop. */
  function Added(octets: seq<int>, delta: int): (r: seq<int>)
    ensures |r| == |octets|
  {
    if octets == [] then []
    else
      var n := |octets| - 1;
      var sum := octets[n] + delta;
      if sum >= BASE then Added(octets[..n], sum / BASE) + [sum % BASE]
      else octets[..n] + [sum]
  }

  /** An address of four octets as a 32-bit number. */
  function Number(octets: seq<int>): int
    requires |octets| == 4
  {
    octets[0] * 16777216 + octets[1] * 65536 + octets[2] * 256 + octets[3]
  }

  method AddIpAddress(subnet: seq<int>, delta: int) returns (octets: seq<int>)
    ensures octets == Added(subnet, delta)
    ensures delta >= 0 && |subnet| == 4 && (forall i :: 0 <= i < 4 ==> 0 <= subnet[i] < 256) ==>
      && |octets| == 4 && (forall i :: 0 <= i < 4 ==> 0 <= octets[i] < 256)
      && Number(octets) == (Number(subnet) + delta) % 4294967296
  {
    if delta >= 0 && |subnet| == 4 && AreOctets(subnet) { FourOctets(subnet, delta); }
    octets := subnet;
    var carry := delta;
    assert subnet[..|subnet|] == subnet && octets[|subnet|..] == [];
    for index := 0 to |subnet|
      invariant |octets| == |subnet|
      invariant octets[..|subnet| - index] == subnet[..|subnet| - index]
      invariant Added(subnet, delta) == Added(subnet[..|subnet| - index], carry) + octets[|subnet| - index..]
    {
      var n := |subnet| - index - 1;
      var front := subnet[..n + 1];
      assert front[..n] == subnet[..n] && front[n] == octets[n];
      var sum := octets[n] + carry;
      var tail := octets[n + 1..];
      if sum >= BASE {
        carry := sum / BASE;
        octets := octets[n := sum % BASE];
        assert octets[n..] == [sum % BASE] + tail;
      } else {
        octets := octets[n := sum];
        assert octets == subnet[..n] + [sum] + tail;
        break;
      }
    }
  }

  /** For every delta of zero or more the result is again an address, and its value is the
      sum reduced modulo the size of the address space. */
  lemma {:induction false} AddsModulo(octets: seq<int>, delta: nat)
    requires AreOctets(octets)
    ensures AreOctets(Added(octets, delta))
    ensures ValueOf(Added(octets, delta)) == (ValueOf(octets) + delta) % Power(|octets|)
  {
    if octets != [] {
      var n := |octets| - 1;
      var front, sum := octets[..n], octets[n] + delta;
      var r := Added(octets, delta);
      ValueBound(front);
      if sum >= BASE {
        AddsModulo(front, sum / BASE);
        assert r[..n] == Added(front, sum / BASE) && r[n] == sum % BASE;
        CarryModulo(ValueOf(front), sum, Power(n));
      } else {
        assert r[..n] == front && r[n] == sum;
        SmallModulo(ValueOf(front) * BASE + sum, BASE * Power(n), ValueOf(front), sum, Power(n));
      }
    }
  }

  lemma {:induction false} Powers()
    ensures Power(1) == 256 && Power(2) == 65536 && Power(3) == 16777216 && Power(4) == 4294967296
  {
    assert Power(0) == 1;
    assert Power(1) == 256 * Power(0) && Power(2) == 256 * Power(1);
    assert Power(3) == 256 * Power(2) && Power(4) == 256 * Power(3);
  }

  lemma {:induction false} NumberIsValue(octets: seq<int>)
    requires |octets| == 4
    ensures ValueOf(octets) == Number(octets)
  {
    var a, b, c := octets[..3], octets[..2], octets[..1];
    assert octets[..3][..2] == b && b[..1] == c && c[..0] == [];
    assert ValueOf(c) == octets[0];
    assert ValueOf(b) == octets[0] * 256 + octets[1];
    assert ValueOf(a) == (octets[0] * 256 + octets[1]) * 256 + octets[2];
  }

  /** On an address of four octets this is addition of 32-bit numbers. */
  lemma {:induction false} FourOctets(octets: seq<int>, delta: nat)
    requires |octets| == 4 && AreOctets(octets)
    ensures AreOctets(Added(octets, delta))
    ensures Number(Added(octets, delta)) == (Number(octets) + delta) % 4294967296
  {
    AddsModulo(octets, delta);
    Powers();
    NumberIsValue(octets);
    NumberIsValue(Added(octets, delta));
  }

  lemma {:induction false} ValueBound(octets: seq<int>)
    requires AreOctets(octets)
    ensures 0 <= ValueOf(octets) < Power(|octets|)
  {
    if octets != [] { ValueBound(octets[..|octets| - 1]); }
  }

  lemma {:induction false} SmallModulo(x: int, m: nat, v: int, s: int, p: nat)
    requires x == v * BASE + s && m == BASE * p && 0 <= v < p && 0 <= s < BASE
    ensures m > 0 && x % m == x
  {
    DivisionUnique(x, m, 0, x);
  }

  /** ((v + s / 256) mod p) * 256 + s mod 256 == (v * 256 + s) mod (256 p) */
  lemma {:induction false} CarryModulo(v: int, s: nat, p: nat)
    requires p > 0 && v >= 0
    ensures BASE * p > 0
    ensures ((v + s / BASE) % p) * BASE + s % BASE == (v * BASE + s) % (BASE * p)
  {
    var a := v + s / BASE;
    var q, r := a / p, a % p;
    assert a == p * q + r;
    var x := v * BASE + s;
    var y := r * BASE + s % BASE;
    assert x == a * BASE + s % BASE;
    assert a * BASE == (p * q) * BASE + r * BASE;
    assert (p * q) * BASE == q * (BASE * p);
    DivisionUnique(x, BASE * p, q, y);
  }

  /** Equal values have equal octets. */
  lemma {:induction false} ValueInjective(a: seq<int>, b: seq<int>)
    requires AreOctets(a) && AreOctets(b) && |a| == |b| && ValueOf(a) == ValueOf(b)
    ensures a == b
  {
    if a != [] {
      var n := |a| - 1;
      ValueInjective(a[..n], b[..n]);
      assert a == a[..n] + [a[n]] && b == b[..n] + [b[n]];
    }
  }

  /** Adding twice is adding the sum, wherever the carries went. */
  lemma {:induction false} AddsCompose(octets: seq<int>, a: nat, b: nat)
    requires AreOctets(octets)
    ensures Added(Added(octets, a), b) == Added(octets, a + b)
  {
    AddsModulo(octets, a);
    AddsModulo(Added(octets, a), b);
    AddsModulo(octets, a + b);
    SameResidue(ValueOf(octets), a, b, Power(|octets|));
    ValueInjective(Added(Added(octets, a), b), Added(octets, a + b));
  }

  lemma {:induction false} SameResidue(v: int, a: nat, b: nat, m: int)
    requires m > 0
    ensures ((v + a) % m + b) % m == (v + (a + b)) % m
  {
    AddModulo(v + a, b, m);
    assert v + a + b == v + (a + b);
  }

  lemma {:induction false} AddModulo(x: int, b: int, m: int)
    requires m > 0
    ensures (x % m + b) % m == (x + b) % m
  {
    var y := x % m + b;
    assert y == (y / m) * m + y % m;
    assert x == (x / m) * m + x % m;
    DivisionUnique(x + b, m, y / m + x / m, y % m);
  }

  /** A negative delta is not borrowed: the result is an address exactly when the last octet
      alone can give it, and then only that octet changes. */
  lemma {:induction false} NegativeDelta(octets: seq<int>, delta: int)
    requires AreOctets(octets) && octets != [] && delta < 0
    ensures AreOctets(Added(octets, delta)) <==> octets[|octets| - 1] + delta >= 0
    ensures Added(octets, delta) == octets[|octets| - 1 := octets[|octets| - 1] + delta]
  {
    var n := |octets| - 1;
    assert Added(octets, delta)[n] == octets[n] + delta;
  }
}
