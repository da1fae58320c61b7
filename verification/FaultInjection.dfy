/** selective_fault_injection (scenarios/common.py): two countdowns, one to the next fault
    and one to the repair of the last, decremented once per round of the scenario. */
module FaultInjection {

  type Host = string

  datatype Options = Options(interFault: nat, duration: nat)

  /** The countdowns and the hosts that are failed. */
  datatype State = State(toRepair: real, toFault: real, failed: set<Host>)

  /** One call: the time since the round began as read before the repair and before the
      fault, and the controller that would be picked. */
  datatype Tick = Tick(first: real, second: real, host: Host)

  function Repaired(s: State, t: Tick): State {
    if s.toRepair > 0.0 then s.(toRepair := s.toRepair - t.first)
    else if s.toRepair == 0.0 || s.failed == {} then s
    else s.(toRepair := 0.0, failed := {})
  }

  function Next(o: Options, s: State, t: Tick): State {
    if o.duration == 0 then s
    else
      var r := Repaired(s, t);
      var toFault := r.toFault - t.second;
      if toFault <= 0.0 then State(o.duration as real, o.interFault as real, r.failed + {t.host})
      else r.(toFault := toFault)
  }

  class FaultClock {
    const options: Options
    var toRepair: real
    var toFault: real
    var failed: set<Host>   // what stateshow reports of the cloud

    constructor (options: Options)
      ensures this.options == options && Value() == Initial(options)
    {
      this.options := options;
      toRepair, toFault, failed := 0.0, options.interFault as real, {};
    }

    ghost function Value(): State
      reads this
    {
      State(toRepair, toFault, failed)
    }

    method SelectiveFaultInjection(tick: Tick)
      modifies this
      ensures Value() == Next(options, old(Value()), tick)
      ensures options.duration == 0 ==> unchanged(this)
      // the next fault is injected exactly when its countdown is used up
      ensures options.duration > 0 && old(toFault) <= tick.second ==>
        toFault == options.interFault as real && toRepair == options.duration as real
      ensures options.duration > 0 && old(toFault) > tick.second ==> toFault == old(toFault) - tick.second
      ensures options.duration > 0 && old(toFault) > tick.second ==>
        toRepair == if old(toRepair) > 0.0 then old(toRepair) - tick.first
                    else if old(failed) != {} then 0.0 else old(toRepair)
      // failed hosts are repaired exactly when the repair countdown is below zero
      ensures options.duration > 0 && old(toFault) <= tick.second ==>
        failed == (if old(toRepair) < 0.0 then {} else old(failed)) + {tick.host}
      ensures options.duration > 0 && old(toFault) > tick.second ==>
        failed == if old(toRepair) < 0.0 then {} else old(failed)
    {
      if options.duration == 0 {
        return;
      }
      if toRepair > 0.0 {
        toRepair := toRepair - tick.first;
      } else if toRepair < 0.0 {
        var broken := failed;
        while broken != {}
          invariant broken <= old(failed)
          invariant failed == broken
          invariant toRepair == if broken == old(failed) then old(toRepair) else 0.0
          invariant toFault == old(toFault)
          decreases broken
        {
          var host :| host in broken;
          broken := broken - {host};
          failed := broken;
          toRepair := 0.0;
        }
      }
      toFault := toFault - tick.second;
      if toFault <= 0.0 {
        failed := failed + {tick.host};
        toFault := options.interFault as real;
        toRepair := options.duration as real;
      }
    }
  }

  function Initial(o: Options): State {
    State(0.0, o.interFault as real, {})
  }

  /** The state after the first n calls. */
  function From(o: Options, s: State, ticks: seq<Tick>, n: nat): State
    requires n <= |ticks|
  {
    if n == 0 then s else Next(o, From(o, s, ticks, n - 1), ticks[n - 1])
  }

  function Run(o: Options, ticks: seq<Tick>, n: nat): State
    requires n <= |ticks|
  {
    From(o, Initial(o), ticks, n)
  }

  predicate Injects(o: Options, s: State, t: Tick) {
    o.duration > 0 && s.toFault - t.second <= 0.0
  }

  /** How far the two readings have drifted apart since the last fault was injected. */
  function Skew(o: Options, ticks: seq<Tick>, n: nat): real
    requires n <= |ticks|
  {
    if n == 0 then 0.0
    else if Injects(o, Run(o, ticks, n - 1), ticks[n - 1]) then 0.0
    else Skew(o, ticks, n - 1) + (ticks[n - 1].second - ticks[n - 1].first)
  }

  /** The repair countdown lands exactly on zero. */
  predicate Lands(s: State, t: Tick) {
    s.toRepair > 0.0 && s.toRepair == t.first
  }

  /** No round is longer than `longest`, readings go forward and drift by `drift` at most
      between faults, and the time between faults leaves room for duration, round and drift. */
  ghost predicate Spaced(o: Options, ticks: seq<Tick>, longest: real, drift: real) {
    && o.duration > 0
    && o.interFault as real >= o.duration as real + longest + drift
    && forall i :: 0 <= i < |ticks| ==> TimelyAt(o, ticks, i, longest, drift)
  }

  ghost predicate TimelyAt(o: Options, ticks: seq<Tick>, i: nat, longest: real, drift: real)
    requires i < |ticks|
  {
    Timely(ticks[i], Skew(o, ticks, i), longest, drift)
  }

  ghost predicate LandsAt(o: Options, ticks: seq<Tick>, i: nat)
    requires i < |ticks|
  {
    Lands(Run(o, ticks, i), ticks[i])
  }

  predicate Timely(t: Tick, skew: real, longest: real, drift: real) {
    0.0 <= t.first <= t.second && t.first <= longest && skew + (t.second - t.first) <= drift
  }

  /** While a host is failed the two countdowns keep their distance, up to the drift. */
  ghost predicate Healthy(o: Options, s: State, skew: real) {
    && (s.toRepair == 0.0 ==> s.failed == {})
    && (s.toRepair > 0.0 ==> s.failed != {})
    && |s.failed| <= 1
    && (s.failed != {} ==> s.toFault - s.toRepair == o.interFault as real - o.duration as real - skew)
  }

  /** One call keeps the clock healthy, unless the countdown lands on zero: then the host
      stays failed with its repair timer spent. */
  lemma {:induction false} HealthyNext(o: Options, s: State, t: Tick, skew: real, longest: real, drift: real)
    requires o.duration > 0 && o.interFault as real >= o.duration as real + longest + drift
    requires Timely(t, skew, longest, drift) && Healthy(o, s, skew)
    ensures Lands(s, t) ==> Next(o, s, t).toRepair == 0.0 && Next(o, s, t).failed == s.failed && s.failed != {}
    ensures !Lands(s, t) ==>
      Healthy(o, Next(o, s, t), if Injects(o, s, t) then 0.0 else skew + (t.second - t.first))
  {
    var d := Next(o, s, t);
    if s.toRepair > 0.0 {
      assert s.toFault - t.second > 0.0;
      assert d == State(s.toRepair - t.first, s.toFault - t.second, s.failed);
    } else if d.toFault == o.interFault as real {
      assert d.failed == {} || d.failed == {t.host};
    }
  }

  ghost predicate HealthyAt(o: Options, ticks: seq<Tick>, n: nat)
    requires n <= |ticks|
  {
    Healthy(o, Run(o, ticks, n), Skew(o, ticks, n))
  }

  lemma {:induction false} HealthyStep(o: Options, ticks: seq<Tick>, n: nat, longest: real, drift: real)
    requires Spaced(o, ticks, longest, drift) && n < |ticks| && HealthyAt(o, ticks, n)
    ensures LandsAt(o, ticks, n) ==>
      Run(o, ticks, n + 1).toRepair == 0.0 && Run(o, ticks, n + 1).failed == Run(o, ticks, n).failed != {}
    ensures !LandsAt(o, ticks, n) ==> HealthyAt(o, ticks, n + 1)
  {
    var s, t, skew := Run(o, ticks, n), ticks[n], Skew(o, ticks, n);
    assert TimelyAt(o, ticks, n, longest, drift);
    HealthyNext(o, s, t, skew, longest, drift);
    assert Run(o, ticks, n + 1) == Next(o, s, t);
    assert Skew(o, ticks, n + 1) == if Injects(o, s, t) then 0.0 else skew + (t.second - t.first);
  }

  lemma {:induction false} StaysHealthy(o: Options, ticks: seq<Tick>, n: nat, longest: real, drift: real)
    requires Spaced(o, ticks, longest, drift) && n <= |ticks|
    requires forall i :: 0 <= i < n ==> !LandsAt(o, ticks, i)
    ensures HealthyAt(o, ticks, n)
  {
    if n > 0 {
      StaysHealthy(o, ticks, n - 1, longest, drift);
      HealthyStep(o, ticks, n - 1, longest, drift);
    }
  }

  lemma {:induction false} FirstLanding(o: Options, ticks: seq<Tick>, n: nat) returns (m: nat)
    requires n < |ticks| && LandsAt(o, ticks, n)
    ensures m <= n && LandsAt(o, ticks, m)
    ensures forall i :: 0 <= i < m ==> !LandsAt(o, ticks, i)
  {
    if i :| 0 <= i < n && LandsAt(o, ticks, i) {
      m := FirstLanding(o, ticks, i);
    } else {
      m := n;
    }
  }

  /** A spent repair timer means that no host is failed. */
  ghost predicate TimerTells(o: Options, ticks: seq<Tick>, n: nat)
    requires n <= |ticks|
  {
    Run(o, ticks, n).toRepair == 0.0 ==> Run(o, ticks, n).failed == {}
  }

  ghost predicate OneAtMost(o: Options, ticks: seq<Tick>, n: nat)
    requires n <= |ticks|
  {
    |Run(o, ticks, n).failed| <= 1
  }

  /** In every spaced run, a spent repair timer means at all times that no host is failed if
      and only if the countdown never lands exactly on zero; and then at most one host is
      failed at any time. */
  lemma {:induction false} TimerTellsExactly(o: Options, ticks: seq<Tick>, longest: real, drift: real)
    requires Spaced(o, ticks, longest, drift)
    ensures (forall n :: 0 <= n <= |ticks| ==> TimerTells(o, ticks, n))
       <==> (forall i :: 0 <= i < |ticks| ==> !LandsAt(o, ticks, i))
    ensures (forall i :: 0 <= i < |ticks| ==> !LandsAt(o, ticks, i)) ==>
      forall n :: 0 <= n <= |ticks| ==> OneAtMost(o, ticks, n)
  {
    if i :| 0 <= i < |ticks| && LandsAt(o, ticks, i) {
      var m := FirstLanding(o, ticks, i);
      StaysHealthy(o, ticks, m, longest, drift);
      HealthyStep(o, ticks, m, longest, drift);
      assert !TimerTells(o, ticks, m + 1);
    } else {
      forall n | 0 <= n <= |ticks| ensures TimerTells(o, ticks, n) && OneAtMost(o, ticks, n) {
        StaysHealthy(o, ticks, n, longest, drift);
      }
    }
  }

  /** A fault that is injected while a host is still failed with its repair timer spent, as
      a landing leaves it, hits that same host. */
  ghost predicate PicksForgotten(o: Options, ticks: seq<Tick>, i: nat)
    requires i < |ticks|
  {
    var s := Run(o, ticks, i);
    Injects(o, s, ticks[i]) && s.toRepair == 0.0 && s.failed != {} ==> ticks[i].host in s.failed
  }

  /** Healthy, or with one host failed and its repair forgotten. */
  ghost predicate Bearable(o: Options, ticks: seq<Tick>, n: nat)
    requires n <= |ticks|
  {
    HealthyAt(o, ticks, n) || (Run(o, ticks, n).toRepair == 0.0 && |Run(o, ticks, n).failed| == 1)
  }

  lemma {:induction false} OneStays(hosts: set<Host>, host: Host)
    requires |hosts| == 1
    ensures |hosts + {host}| <= 1 <==> host in hosts
  {
    if host in hosts { assert hosts + {host} == hosts; }
  }

  lemma {:induction false} BearableStep(o: Options, ticks: seq<Tick>, n: nat, longest: real, drift: real)
    requires Spaced(o, ticks, longest, drift) && n < |ticks| && Bearable(o, ticks, n)
    ensures PicksForgotten(o, ticks, n) ==> Bearable(o, ticks, n + 1)
    ensures OneAtMost(o, ticks, n + 1) <==> PicksForgotten(o, ticks, n)
  {
    if HealthyAt(o, ticks, n) {
      HealthyStep(o, ticks, n, longest, drift);
    } else {
      var s, t := Run(o, ticks, n), ticks[n];
      OneStays(s.failed, t.host);
      assert Run(o, ticks, n + 1) == Next(o, s, t);
    }
  }

  lemma {:induction false} StaysBearable(o: Options, ticks: seq<Tick>, n: nat, longest: real, drift: real)
    requires Spaced(o, ticks, longest, drift) && n <= |ticks|
    requires forall i :: 0 <= i < n ==> PicksForgotten(o, ticks, i)
    ensures Bearable(o, ticks, n)
  {
    if n > 0 {
      StaysBearable(o, ticks, n - 1, longest, drift);
      BearableStep(o, ticks, n - 1, longest, drift);
    }
  }

  lemma {:induction false} FirstMiss(o: Options, ticks: seq<Tick>, n: nat) returns (m: nat)
    requires n < |ticks| && !PicksForgotten(o, ticks, n)
    ensures m <= n && !PicksForgotten(o, ticks, m)
    ensures forall i :: 0 <= i < m ==> PicksForgotten(o, ticks, i)
  {
    if i :| 0 <= i < n && !PicksForgotten(o, ticks, i) {
      m := FirstMiss(o, ticks, i);
    } else {
      m := n;
    }
  }

  /** In every spaced run at most one host is failed at any time if and only if no fault
      hits another host while one is forgotten. */
  lemma {:induction false} OneFailedExactly(o: Options, ticks: seq<Tick>, longest: real, drift: real)
    requires Spaced(o, ticks, longest, drift)
    ensures (forall n :: 0 <= n <= |ticks| ==> OneAtMost(o, ticks, n))
       <==> (forall i :: 0 <= i < |ticks| ==> PicksForgotten(o, ticks, i))
  {
    if i :| 0 <= i < |ticks| && !PicksForgotten(o, ticks, i) {
      var m := FirstMiss(o, ticks, i);
      StaysBearable(o, ticks, m, longest, drift);
      BearableStep(o, ticks, m, longest, drift);
      assert !OneAtMost(o, ticks, m + 1);
    } else {
      forall n | 0 <= n <= |ticks| ensures OneAtMost(o, ticks, n) {
        StaysBearable(o, ticks, n, longest, drift);
      }
    }
  }

  // ---------------------------------------------------------------- faults come and go

  /** The time that the calls m .. n - 1 take off the countdown to the next fault. */
  function Elapsed(ticks: seq<Tick>, m: nat, n: nat): real
    requires m <= n <= |ticks|
  {
    if m == n then 0.0 else Elapsed(ticks, m, n - 1) + ticks[n - 1].second
  }

  /** The calls after the m-th use up the countdown for the first time with the n-th. */
  ghost predicate FirstReaches(ticks: seq<Tick>, m: nat, n: nat, time: real)
    requires m <= n < |ticks|
  {
    Elapsed(ticks, m, n + 1) >= time && forall j :: m < j <= n ==> Elapsed(ticks, m, j) < time
  }

  lemma {:induction false} CountsDown(o: Options, ticks: seq<Tick>, m: nat, n: nat, end: nat)
    requires o.duration > 0 && m <= n <= end < |ticks| && FirstReaches(ticks, m, end, Run(o, ticks, m).toFault)
    ensures Run(o, ticks, n).toFault == Run(o, ticks, m).toFault - Elapsed(ticks, m, n)
    ensures n < end ==> !Injects(o, Run(o, ticks, n), ticks[n])
  {
    if n > m {
      CountsDown(o, ticks, m, n - 1, end);
      assert Run(o, ticks, n) == Next(o, Run(o, ticks, n - 1), ticks[n - 1]);
    }
    if n < end { assert Elapsed(ticks, m, n + 1) < Run(o, ticks, m).toFault; }
  }

  /** From any point of a run, the call that uses up the countdown to the next fault fails
      its host and winds up both countdowns, and no call before it injects anything. */
  lemma {:induction false} NextFault(o: Options, ticks: seq<Tick>, m: nat, n: nat)
    requires o.duration > 0 && m <= n < |ticks| && FirstReaches(ticks, m, n, Run(o, ticks, m).toFault)
    ensures var s := Run(o, ticks, n + 1);
      ticks[n].host in s.failed && s.toRepair == o.duration as real && s.toFault == o.interFault as real
    ensures forall i :: m <= i <= n ==> Run(o, ticks, i).failed <= Run(o, ticks, m).failed
  {
    CountsDown(o, ticks, m, n, n);
    assert Run(o, ticks, n + 1) == Next(o, Run(o, ticks, n), ticks[n]);
    forall i | m <= i <= n ensures Run(o, ticks, i).failed <= Run(o, ticks, m).failed {
      NoneFailsBefore(o, ticks, m, i, n);
    }
  }

  lemma {:induction false} NoneFailsBefore(o: Options, ticks: seq<Tick>, m: nat, n: nat, end: nat)
    requires o.duration > 0 && m <= n <= end < |ticks| && FirstReaches(ticks, m, end, Run(o, ticks, m).toFault)
    ensures Run(o, ticks, n).failed <= Run(o, ticks, m).failed
  {
    if n > m {
      NoneFailsBefore(o, ticks, m, n - 1, end);
      CountsDown(o, ticks, m, n - 1, end);
      assert Run(o, ticks, n) == Next(o, Run(o, ticks, n - 1), ticks[n - 1]);
    }
  }

  /** From the start, the first call with which the readings add up to the time between
      faults fails exactly its host, and no host is failed before it. */
  lemma {:induction false} FirstFault(o: Options, ticks: seq<Tick>, n: nat)
    requires o.duration > 0 && n < |ticks| && FirstReaches(ticks, 0, n, o.interFault as real)
    ensures Run(o, ticks, n + 1) == State(o.duration as real, o.interFault as real, {ticks[n].host})
    ensures forall i :: 0 <= i <= n ==> Run(o, ticks, i).failed == {}
  {
    assert Run(o, ticks, 0) == Initial(o);
    NextFault(o, ticks, 0, n);
    assert Run(o, ticks, n).failed == {};
    assert Run(o, ticks, n + 1) == Next(o, Run(o, ticks, n), ticks[n]);
  }

  /** A host whose repair countdown has gone below zero is repaired by the next call, which
      leaves at most the host that it fails itself. */
  lemma {:induction false} OverdueIsRepaired(o: Options, ticks: seq<Tick>, n: nat)
    requires o.duration > 0 && n < |ticks| && Run(o, ticks, n).toRepair < 0.0
    ensures Run(o, ticks, n + 1).failed == if Run(o, ticks, n).toFault <= ticks[n].second then {ticks[n].host} else {}
  {
    assert Run(o, ticks, n + 1) == Next(o, Run(o, ticks, n), ticks[n]);
  }

  /** In a spaced run whose countdowns never land on zero each fault finds no host failed. */
  lemma {:induction false} FaultsFindAllRepaired(o: Options, ticks: seq<Tick>, n: nat, longest: real, drift: real)
    requires Spaced(o, ticks, longest, drift) && n < |ticks|
    requires forall i :: 0 <= i <= n ==> !LandsAt(o, ticks, i)
    requires Run(o, ticks, n).toFault <= ticks[n].second
    ensures Run(o, ticks, n + 1) == State(o.duration as real, o.interFault as real, {ticks[n].host})
  {
    StaysHealthy(o, ticks, n, longest, drift);
    assert TimelyAt(o, ticks, n, longest, drift);
    assert Run(o, ticks, n + 1) == Next(o, Run(o, ticks, n), ticks[n]);
  }

  /** After such a landing no call repairs the host before the next fault is injected. */
  lemma {:induction false} LandedIsForgotten(o: Options, s: State, ticks: seq<Tick>, n: nat)
    requires n <= |ticks| && s.toRepair == 0.0 && o.duration > 0
    requires forall i :: 0 <= i < n ==> !Injects(o, From(o, s, ticks, i), ticks[i])
    ensures From(o, s, ticks, n).failed == s.failed && From(o, s, ticks, n).toRepair == 0.0
  {
    if n > 0 { LandedIsForgotten(o, s, ticks, n - 1); }
  }
}
