/** statically_balance_vcpu_domains (plm/plmserver.py): virtual CPUs are dealt out to the
    physical ones in turn, across all domains of a host. */
module CpuPinning {
  import opened Division

  /** One call of pinVcpu with its affinity map. */
  datatype Pin = Pin(domain: nat, vcpu: nat, cpus: seq<bool>)

  function Total(vcpus: seq<nat>): nat {
    if vcpus == [] then 0 else Total(vcpus[..|vcpus| - 1]) + vcpus[|vcpus| - 1]
  }

  /** Every virtual CPU of every domain, in the order in which they are pinned. */
  function AllVcpus(vcpus: seq<nat>): (r: seq<(nat, nat)>)
    ensures |r| == Total(vcpus)
  {
    if vcpus == [] then []
    else AllVcpus(vcpus[..|vcpus| - 1]) + VcpusOf(|vcpus| - 1, vcpus[|vcpus| - 1])
  }

  function VcpusOf(domain: nat, count: nat): (r: seq<(nat, nat)>)
    ensures |r| == count
  {
    seq(count, v => (domain, v))
  }

  function Targets(pins: seq<Pin>): (r: seq<(nat, nat)>)
    ensures |r| == |pins|
  {
    seq(|pins|, g requires 0 <= g < |pins| => (pins[g].domain, pins[g].vcpu))
  }

  /** The affinity map with one CPU set. */
  function OneHot(cpu: nat, count: nat): seq<bool> {
    seq(count, p => p == cpu)
  }

  ghost predicate Dealt(pins: seq<Pin>, pcpus: nat)
    requires pcpus > 0
  {
    forall g :: 0 <= g < |pins| ==> pins[g].cpus == OneHot(g % pcpus, pcpus)
  }

  method Balance(vcpus: seq<nat>, pcpus: nat) returns (pins: seq<Pin>)
    requires pcpus >= 1
    ensures Targets(pins) == AllVcpus(vcpus) && Dealt(pins, pcpus)
  {
    pins := [];
    var cpu := 0;
    for d := 0 to |vcpus|
      invariant Targets(pins) == AllVcpus(vcpus[..d]) && Dealt(pins, pcpus)
      invariant cpu == |pins| % pcpus
    {
      ghost var before := pins;
      assert vcpus[..d + 1][..d] == vcpus[..d];
      for v := 0 to vcpus[d]
        invariant Pinned(before, pins, d, v) && Dealt(pins, pcpus) && cpu == |pins| % pcpus
      {
        var list := seq(pcpus, _ => false);
        list := list[cpu := true];
        assert list == OneHot(cpu, pcpus);
        PinOne(before, pins, d, v, list, pcpus);
        pins := pins + [Pin(d, v, list)];
        if cpu < pcpus - 1 {
          cpu := cpu + 1;
        } else {
          cpu := 0;
        }
      }
    }
    assert vcpus[..|vcpus|] == vcpus;
  }

  ghost predicate Pinned(before: seq<Pin>, now: seq<Pin>, domain: nat, count: nat) {
    Targets(now) == Targets(before) + VcpusOf(domain, count)
  }

  lemma {:induction false} PinOne(before: seq<Pin>, now: seq<Pin>, d: nat, v: nat, list: seq<bool>, pcpus: nat)
    requires pcpus >= 1 && Pinned(before, now, d, v) && Dealt(now, pcpus) && list == OneHot(|now| % pcpus, pcpus)
    ensures Pinned(before, now + [Pin(d, v, list)], d, v + 1) && Dealt(now + [Pin(d, v, list)], pcpus)
    ensures (|now| + 1) % pcpus == if |now| % pcpus < pcpus - 1 then |now| % pcpus + 1 else 0
  {
    NextCpu(|now|, pcpus);
    assert VcpusOf(d, v + 1) == VcpusOf(d, v) + [(d, v)];
    assert Targets(now + [Pin(d, v, list)]) == Targets(now) + [(d, v)];
  }

  lemma {:induction false} NextCpu(g: nat, n: nat)
    requires n >= 1
    ensures (g + 1) % n == if g % n < n - 1 then g % n + 1 else 0
    ensures (g + 1) / n == if g % n < n - 1 then g / n else g / n + 1
  {
    var q, r := g / n, g % n;
    assert g == q * n + r;
    if r < n - 1 {
      DivisionUnique(g + 1, n, q, r + 1);
    } else {
      assert (q + 1) * n == q * n + n;
      DivisionUnique(g + 1, n, q + 1, 0);
    }
  }

  // ---------------------------------------------------------------- balance

  /** How many virtual CPUs run on physical CPU p. */
  function Load(pins: seq<Pin>, p: nat): nat {
    if pins == [] then 0
    else
      var last := pins[|pins| - 1];
      Load(pins[..|pins| - 1], p) + if p < |last.cpus| && last.cpus[p] then 1 else 0
  }

  lemma {:induction false} LoadDealt(pins: seq<Pin>, pcpus: nat, p: nat)
    requires p < pcpus && Dealt(pins, pcpus)
    ensures Load(pins, p) == |pins| / pcpus + if p < |pins| % pcpus then 1 else 0
  {
    if pins != [] {
      var g := |pins| - 1;
      LoadDealt(pins[..g], pcpus, p);
      NextCpu(g, pcpus);
      assert pins[g].cpus[p] <==> p == g % pcpus;
    } else {
      DivisionUnique(0, pcpus, 0, 0);
    }
  }

  /** Each virtual CPU is pinned to exactly one physical CPU, and the loads of any two
      physical CPUs differ by at most one. */
  lemma {:induction false} Balanced(vcpus: seq<nat>, pins: seq<Pin>, pcpus: nat, p: nat, q: nat)
    requires p < pcpus && q < pcpus && Targets(pins) == AllVcpus(vcpus) && Dealt(pins, pcpus)
    ensures forall g, i :: 0 <= g < |pins| && 0 <= i < |pins[g].cpus| && pins[g].cpus[i] ==> i == g % pcpus
    ensures forall g :: 0 <= g < |pins| ==> g % pcpus < |pins[g].cpus| && pins[g].cpus[g % pcpus]
    ensures Load(pins, p) <= Load(pins, q) + 1 && |pins| == Total(vcpus)
  {
    LoadDealt(pins, pcpus, p);
    LoadDealt(pins, pcpus, q);
  }

  lemma {:induction false} AllVcpusExactly(vcpus: seq<nat>)
    ensures forall d: nat, v: nat :: (d, v) in AllVcpus(vcpus) <==> d < |vcpus| && v < vcpus[d]
    ensures forall g, h :: 0 <= g < h < |AllVcpus(vcpus)| ==> AllVcpus(vcpus)[g] != AllVcpus(vcpus)[h]
  {
    if vcpus != [] {
      var front, n := vcpus[..|vcpus| - 1], |vcpus| - 1;
      AllVcpusExactly(front);
      var before, last := AllVcpus(front), VcpusOf(n, vcpus[n]);
      assert AllVcpus(vcpus) == before + last;
      forall d: nat, v: nat ensures (d, v) in last <==> d == n && v < vcpus[n] {
        if d == n && v < vcpus[n] { assert last[v] == (d, v); }
      }
      forall g, h | 0 <= g < h < |before + last| ensures (before + last)[g] != (before + last)[h] {
        if g < |before| <= h {
          assert (before + last)[g] in before && (before + last)[h] in last;
          assert (before + last)[g].0 < n && (before + last)[h].0 == n;
        }
      }
    }
  }

  predicate IsPinned(pins: seq<Pin>, d: nat, v: nat) {
    exists g :: 0 <= g < |pins| && pins[g].domain == d && pins[g].vcpu == v
  }

  /** Each virtual CPU of each domain is pinned, no other is, and none twice. */
  lemma {:induction false} EachPinnedOnce(vcpus: seq<nat>, pins: seq<Pin>)
    requires Targets(pins) == AllVcpus(vcpus)
    ensures forall d: nat, v: nat :: IsPinned(pins, d, v) <==> d < |vcpus| && v < vcpus[d]
    ensures forall g, h :: 0 <= g < h < |pins| ==> pins[g].domain != pins[h].domain || pins[g].vcpu != pins[h].vcpu
  {
    AllVcpusExactly(vcpus);
    var t := Targets(pins);
    forall d: nat, v: nat ensures IsPinned(pins, d, v) <==> d < |vcpus| && v < vcpus[d] {
      if g :| 0 <= g < |pins| && pins[g].domain == d && pins[g].vcpu == v { assert t[g] == (d, v); }
      if (d, v) in t {
        var g :| 0 <= g < |t| && t[g] == (d, v);
        assert pins[g].domain == d && pins[g].vcpu == v;
      }
    }
    forall g, h | 0 <= g < h < |pins| ensures pins[g].domain != pins[h].domain || pins[g].vcpu != pins[h].vcpu {
      assert t[g] != t[h];
    }
  }
}
