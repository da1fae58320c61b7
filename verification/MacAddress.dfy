/** generate_mac_addr (plm/plmserver.py): prefix, one selector byte per user, and as many
    low-order bytes of a cluster-wide counter as are left. */
module MacAddress {
  import opened Division
  import opened IpArithmetic

  type Byte = b: int | 0 <= b < 256

  /** The length of p two-digit bytes separated by colons. */
  function TextLength(p: nat): int {
    if p == 0 then 0 else 3 * p - 1
  }

  /** (17 - len(prefix)) / 3 - 1, rounded down. */
  function BytesNeeded(p: nat): int {
    (17 - TextLength(p)) / 3 - 1
  }

  /** The n low-order bytes of the counter, the most significant first. */
  function Suffix(counter: nat, n: nat): (r: seq<Byte>)
    ensures |r| == n
  {
    if n == 0 then [] else Suffix(counter / BASE, n - 1) + [counter % BASE]
  }

  /** counter >> 8 * bytes. */
  function Shifted(counter: nat, bytes: nat): nat {
    if bytes == 0 then counter else Shifted(counter, bytes - 1) / BASE
  }

  function Mac(prefix: seq<Byte>, selector: Byte, counter: nat): seq<Byte> {
    var needed := BytesNeeded(|prefix|);
    prefix + [selector] + Suffix(counter, if needed < 0 then 0 else needed)
  }

  /** The counter that the datastore keeps for the whole cluster. */
  class Cluster {
    var counter: nat

    constructor ()
      ensures counter == 0
    {
      counter := 0;
    }

    method GenerateMac(prefix: seq<Byte>, selector: Byte) returns (mac: seq<Byte>)
      modifies this
      ensures counter == old(counter) + 1 && mac == Mac(prefix, selector, counter)
      ensures 1 <= |prefix| <= 5 ==>
        && |mac| == 6 && mac[..|prefix|] == prefix && mac[|prefix|] == selector
        && ValueOf(mac[|prefix| + 1..]) == counter % Power(5 - |prefix|)
    {
      if 1 <= |prefix| <= 5 { Layout(prefix, selector, counter + 1); }
      counter := counter + 1;
      var needed := BytesNeeded(|prefix|);
      var n := if needed < 0 then 0 else needed;
      mac := prefix + [selector];
      for x := 0 to n
        invariant mac == prefix + [selector] + Suffix(Shifted(counter, n - x), x)
      {
        assert Shifted(counter, n - x) == Shifted(counter, n - 1 - x) / BASE;
        mac := mac + [Shifted(counter, n - 1 - x) % BASE];
      }
    }
  }

  /** The suffix decodes to the counter modulo the number of suffixes. */
  lemma {:induction false} SuffixDecodes(counter: nat, n: nat)
    ensures AreOctets(Suffix(counter, n))
    ensures ValueOf(Suffix(counter, n)) == counter % Power(n)
  {
    if n > 0 {
      SuffixDecodes(counter / BASE, n - 1);
      var front := Suffix(counter / BASE, n - 1);
      assert Suffix(counter, n)[..n - 1] == front;
      CarryModulo(0, counter, Power(n - 1));
    }
  }

  lemma {:induction false} Layout(prefix: seq<Byte>, selector: Byte, counter: nat)
    requires 1 <= |prefix| <= 5
    ensures var mac := Mac(prefix, selector, counter);
      && |mac| == 6 && mac[..|prefix|] == prefix && mac[|prefix|] == selector
      && ValueOf(mac[|prefix| + 1..]) == counter % Power(5 - |prefix|)
  {
    var n := 5 - |prefix|;
    MacLength(prefix, selector, counter);
    SuffixDecodes(counter, n);
    Parts(prefix, selector, Suffix(counter, n));
  }

  lemma {:induction false} Parts(prefix: seq<Byte>, selector: Byte, suffix: seq<Byte>)
    ensures var mac := prefix + [selector] + suffix;
      mac[..|prefix|] == prefix && mac[|prefix|] == selector && mac[|prefix| + 1..] == suffix
  {
  }

  /** Six bytes exactly for prefixes of one to five bytes, and never fewer. */
  lemma {:induction false} MacLength(prefix: seq<Byte>, selector: Byte, counter: nat)
    requires prefix != []
    ensures |Mac(prefix, selector, counter)| == 6 <==> |prefix| <= 5
    ensures |Mac(prefix, selector, counter)| >= 6
    ensures |prefix| <= 5 ==> BytesNeeded(|prefix|) == 5 - |prefix|
  {
  }

  /** The source says that an increasing counter rules collisions out.  Two addresses of a
      cluster collide exactly when their selectors agree and their counters are congruent. */
  lemma {:induction false} CollideExactly(prefix: seq<Byte>, s: Byte, t: Byte, c: nat, d: nat)
    requires 1 <= |prefix| <= 4
    ensures Mac(prefix, s, c) == Mac(prefix, t, d) <==>
      s == t && c % Power(5 - |prefix|) == d % Power(5 - |prefix|)
  {
    var n := 5 - |prefix|;
    SameSuffix(c, d, n);
    SameTail(prefix, s, t, Suffix(c, n), Suffix(d, n));
  }

  lemma {:induction false} SameSuffix(c: nat, d: nat, n: nat)
    ensures Suffix(c, n) == Suffix(d, n) <==> c % Power(n) == d % Power(n)
  {
    SuffixDecodes(c, n);
    SuffixDecodes(d, n);
    if ValueOf(Suffix(c, n)) == ValueOf(Suffix(d, n)) {
      ValueInjective(Suffix(c, n), Suffix(d, n));
    }
  }

  lemma {:induction false} SameTail(prefix: seq<Byte>, s: Byte, t: Byte, u: seq<Byte>, v: seq<Byte>)
    ensures prefix + [s] + u == prefix + [t] + v <==> s == t && u == v
  {
    var a, b := prefix + [s] + u, prefix + [t] + v;
    assert a[|prefix|] == s && b[|prefix|] == t;
    assert a[|prefix| + 1..] == u && b[|prefix| + 1..] == v;
  }

  /** So the addresses of any 256^(5-p) calls in a row are all different, and the next one
      repeats the first if it is for the same user. */
  lemma {:induction false} WindowIsUnique(prefix: seq<Byte>, s: Byte, t: Byte, c: nat, k: nat)
    requires 1 <= |prefix| <= 4 && 0 < k
    ensures k < Power(5 - |prefix|) ==> Mac(prefix, s, c) != Mac(prefix, t, c + k)
    ensures k == Power(5 - |prefix|) ==> Mac(prefix, s, c) == Mac(prefix, s, c + k)
  {
    var m := Power(5 - |prefix|);
    CollideExactly(prefix, s, t, c, c + k);
    CollideExactly(prefix, s, s, c, c + k);
    assert c == (c / m) * m + c % m;
    if k < m {
      if c % m + k < m {
        DivisionUnique(c + k, m, c / m, c % m + k);
      } else {
        assert (c / m + 1) * m == (c / m) * m + m;
        DivisionUnique(c + k, m, c / m + 1, c % m + k - m);
      }
    } else if k == m {
      assert (c / m + 1) * m == (c / m) * m + m;
      DivisionUnique(c + k, m, c / m + 1, c % m);
    }
  }
}
