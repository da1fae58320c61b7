/** The adaptive batch size of capacity_phase (scenarios/instance_provision_capacity.py). */
module BatchController {
  import opened Division

  const SINGLE_VM_LIMIT := 5

  /** What one deployed batch left behind.  `stop` gathers the ends that do not depend on
      the controller: slow deployment, lost VMs, failure ratio, batch count, user request. */
  datatype Batch = Batch(failureRatio: real, failedVms: int, stop: bool)

  datatype Control = Control(size: nat, original: nat, successes: nat, failures: nat, single: nat, ended: bool)

  function Start(size: nat): Control {
    Control(size, size, 0, 0, 1, false)
  }

  /** The change in the failure ratio counts as positive whenever the number of failed VMs
      changed along with it. */
  predicate Failing(previous: Batch, batch: Batch) {
    var delta := batch.failureRatio - previous.failureRatio;
    delta > 0.0 || (delta < 0.0 && batch.failedVms != previous.failedVms)
  }

  /** The ratio rose, or it fell while the number of failed VMs changed. */
  predicate Worse(previous: Batch, batch: Batch) {
    || batch.failureRatio > previous.failureRatio
    || (batch.failureRatio < previous.failureRatio && batch.failedVms != previous.failedVms)
  }

  /** The ratio stayed, or it fell while as many VMs failed as before. */
  predicate NoWorse(previous: Batch, batch: Batch) {
    || batch.failureRatio == previous.failureRatio
    || (batch.failureRatio < previous.failureRatio && batch.failedVms == previous.failedVms)
  }

  function Adjust(c: Control, failing: bool, h: int, f: nat): Control
    requires f >= 1
  {
    if failing then
      var d := c.(successes := 0, failures := c.failures + 1);
      var e :=
        if c.size > 1 then
          if d.failures >= h then d.(size := c.size / f) else d
        else
          d.(single := c.single + 1, ended := c.ended || c.single + 1 > SINGLE_VM_LIMIT);
      if e.size == 0 then e.(ended := true) else e
    else
      var d := c.(failures := 0, successes := c.successes + 1, single := if c.size == 1 then 0 else c.single);
      if c.size < c.original && d.successes >= h then
        d.(size := if c.size * f > c.original then c.original else c.size * f)
      else d
  }

  /** One turn of the loop; the first batch has no predecessor to compare with. */
  function Turn(c: Control, batches: seq<Batch>, i: nat, h: int, f: nat): Control
    requires i < |batches| && f >= 1
  {
    var d := c.(ended := c.ended || batches[i].stop);
    if i >= 1 then Adjust(d, Failing(batches[i - 1], batches[i]), h, f) else d
  }

  /** The controller after the first n batches of a run that ends when it says so. */
  function Run(size: nat, batches: seq<Batch>, n: nat, h: int, f: nat): Control
    requires n <= |batches| && f >= 1
  {
    if n == 0 then Start(size)
    else
      var c := Run(size, batches, n - 1, h, f);
      if c.ended then c else Turn(c, batches, n - 1, h, f)
  }

  /** The variables that the loop carries from one batch to the next. */
  class State {
    var size: nat
    const original: nat
    var successes: nat
    var failures: nat
    var single: nat
    var ended: bool

    constructor (size: nat)
      ensures Value() == Start(size)
    {
      this.size, original := size, size;
      successes, failures, single, ended := 0, 0, 1, false;
    }

    ghost function Value(): Control
      reads this
    {
      Control(size, original, successes, failures, single, ended)
    }

    method Compare(previous: Batch, batch: Batch, h: int, f: nat)
      requires f >= 1
      modifies this
      ensures Value() == Adjust(old(Value()), Failing(previous, batch), h, f)
      ensures Worse(previous, batch) ==> failures == old(failures) + 1 && successes == 0
      ensures Worse(previous, batch) && old(size) > 1 ==>
        && size == (if failures >= h then old(size) / f else old(size))
        && single == old(single) && (ended <==> old(ended) || size == 0)
      ensures Worse(previous, batch) && old(size) <= 1 ==>
        size == old(size) && single == old(single) + 1 && (ended <==> old(ended) || single > 5 || size == 0)
      ensures NoWorse(previous, batch) ==> failures == 0 && successes == old(successes) + 1 && ended == old(ended)
      ensures NoWorse(previous, batch) ==> single == if old(size) == 1 then 0 else old(single)
      ensures NoWorse(previous, batch) ==>
        size == if old(size) >= original || successes < h then old(size)
                else if old(size) * f > original then original else old(size) * f
    {
      var delta := batch.failureRatio - previous.failureRatio;
      if batch.failedVms - previous.failedVms != 0 && delta < 0.0 {
        delta := -delta;
      }
      if delta > 0.0 {
        Shrink(h, f);
      } else {
        Grow(h, f);
      }
    }

    method Shrink(h: int, f: nat)
      requires f >= 1
      modifies this
      ensures Value() == Adjust(old(Value()), true, h, f)
    {
      successes, failures := 0, failures + 1;
      if size > 1 {
        if failures >= h {
          size := size / f;
        }
      } else {
        single := single + 1;
        if single > SINGLE_VM_LIMIT {
          ended := true;
        }
      }
      if size == 0 {
        ended := true;
      }
    }

    method Grow(h: int, f: nat)
      requires f >= 1
      modifies this
      ensures Value() == Adjust(old(Value()), false, h, f)
    {
      failures, successes := 0, successes + 1;
      if size == 1 {
        single := 0;
      }
      if size < original && successes >= h {
        size := size * f;
        if size > original {
          size := original;
        }
      }
    }
  }

  /** The loop itself, over the batches that the remaining time allows. */
  method CapacityPhase(initial: nat, batches: seq<Batch>, h: int, f: nat)
    returns (size: nat, deployed: nat, ended: bool)
    requires f >= 1
    ensures deployed <= |batches| && (ended || deployed == |batches|)
    ensures var c := Run(initial, batches, |batches|, h, f); size == c.size && ended == c.ended
    ensures deployed > 0 ==> !Run(initial, batches, deployed - 1, h, f).ended
    ensures forall i :: 0 <= i < deployed - 1 ==> !batches[i].stop
    ensures deployed > 0 && batches[deployed - 1].stop ==> ended
    ensures deployed <= 1 ==> size == initial && (ended ==> deployed == 1 && batches[0].stop)
  {
    var c := new State(initial);
    deployed := 0;
    while deployed < |batches| && !c.ended
      invariant deployed <= |batches| && fresh(c)
      invariant c.Value() == Run(initial, batches, deployed, h, f)
      invariant deployed > 0 ==> !Run(initial, batches, deployed - 1, h, f).ended
      invariant forall i :: 0 <= i < deployed - 1 ==> !batches[i].stop
      invariant deployed > 0 && batches[deployed - 1].stop ==> c.ended
      invariant deployed == 0 ==> !c.ended && c.size == initial
      invariant deployed == 1 ==> (c.ended ==> batches[0].stop) && c.size == initial
    {
      if batches[deployed].stop {
        c.ended := true;
      }
      if deployed >= 1 {
        c.Compare(batches[deployed - 1], batches[deployed], h, f);
      }
      deployed := deployed + 1;
    }
    size, ended := c.size, c.ended;
    EndedStays(initial, batches, deployed, |batches|, h, f);
  }

  lemma {:induction false} EndedStays(size: nat, batches: seq<Batch>, m: nat, n: nat, h: int, f: nat)
    requires m <= n <= |batches| && f >= 1
    requires Run(size, batches, m, h, f).ended || m == n
    ensures Run(size, batches, n, h, f) == Run(size, batches, m, h, f)
  {
    if m < n { EndedStays(size, batches, m, n - 1, h, f); }
  }

  // ---------------------------------------------------------------- every run

  ghost predicate Invariant(c: Control) {
    && c.size <= c.original && (c.size == 0 ==> c.ended)
    && c.single <= 1 + c.failures
    && (c.size > 1 ==> c.single <= 1)
    && (!c.ended ==> c.single <= SINGLE_VM_LIMIT)
  }

  /** In every run the size stays between 0 and the initial one and is 0 only once the
      experiment has ended; and the controller ends it only after failing batches in a row:
      five at size one, or as many as the hysteresis asks. */
  lemma {:induction false} RunSafe(size: nat, batches: seq<Batch>, n: nat, h: int, f: nat)
    requires size >= 1 && n <= |batches| && f >= 1
    ensures var c := Run(size, batches, n, h, f);
      && Invariant(c) && c.original == size
      && (c.ended && (forall i :: 0 <= i < n ==> !batches[i].stop) ==>
            c.failures >= 5 || (c.size == 0 && c.failures >= h))
  {
    if n > 0 {
      RunSafe(size, batches, n - 1, h, f);
      var c := Run(size, batches, n - 1, h, f);
      if !c.ended && n >= 2 {
        AdjustSafe(c.(ended := batches[n - 1].stop), Failing(batches[n - 2], batches[n - 1]), h, f);
      }
    }
  }

  lemma {:induction false} AdjustSafe(c: Control, failing: bool, h: int, f: nat)
    requires Invariant(c) && c.size >= 1 && c.single <= SINGLE_VM_LIMIT && f >= 1
    ensures Invariant(Adjust(c, failing, h, f))
    ensures var d := Adjust(c, failing, h, f);
      d.original == c.original &&
      (d.ended && !c.ended ==> d.failures >= 5 || (d.size == 0 && d.failures >= h))
  {
    DivideBound(c.size, f);
    MultiplyGrows(c.size, f);
  }

  lemma {:induction false} DivideBound(n: nat, f: nat)
    requires f >= 1
    ensures n / f <= n
  {
    assert n == (n / f) * f + n % f;
    MultiplyGrows(n / f, f);
  }

  lemma {:induction false} MultiplyGrows(n: nat, f: nat)
    requires f >= 1
    ensures n * f >= n
  {
    assert n * f == n + n * (f - 1);
  }

  // ---------------------------------------------------------------- logarithms

  function Pow(f: nat, n: nat): nat {
    if n == 0 then 1 else f * Pow(f, n - 1)
  }

  lemma {:induction false} Quotient(f: nat, n: nat)
    requires f >= 2
    ensures n == f * (n / f) + n % f && n % f < f
    ensures n >= f ==> 1 <= n / f < n
    ensures n < f ==> n / f == 0
  {
    if n >= f { Doubles(f, n / f); }
  }

  function FloorLog(f: nat, n: nat): nat
    requires f >= 2
  {
    Quotient(f, n);
    if n < f then 0 else 1 + FloorLog(f, n / f)
  }

  /** The leading digit of n in base f. */
  function TopDigit(f: nat, n: nat): nat
    requires f >= 2
  {
    Quotient(f, n);
    if n < f then n else TopDigit(f, n / f)
  }

  lemma {:induction false} FloorLogIsLog(f: nat, n: nat)
    requires f >= 2 && n >= 1
    ensures Pow(f, FloorLog(f, n)) <= n < Pow(f, FloorLog(f, n) + 1)
  {
    if n >= f {
      Quotient(f, n);
      FloorLogIsLog(f, n / f);
      BetweenPowers(f, n, n / f, n % f, FloorLog(f, n / f));
    } else {
      assert Pow(f, 1) == f * Pow(f, 0);
    }
  }

  lemma {:induction false} BetweenPowers(f: nat, n: nat, q: nat, r: nat, k: nat)
    requires n == f * q + r && r < f && Pow(f, k) <= q < Pow(f, k + 1)
    ensures Pow(f, k + 1) <= n < Pow(f, k + 1 + 1)
  {
    ScaleOrder(f, Pow(f, k), q);
    ScaleOrder(f, q + 1, Pow(f, k + 1));
  }

  lemma {:induction false} ScaleOrder(f: nat, a: nat, b: nat)
    requires a <= b
    ensures f * a <= f * b
  {
    assert f * b == f * a + f * (b - a);
  }

  /** The least number of multiplications that lifts the size to the target. */
  function CeilLog(f: nat, size: nat, target: nat): nat
    requires f >= 2 && size >= 1
    decreases target - size
  {
    if size >= target then 0
    else
      Doubles(f, size);
      1 + CeilLog(f, size * f, target)
  }

  lemma {:induction false} Doubles(f: nat, size: nat)
    requires f >= 2 && size >= 1
    ensures size * f >= size + size
  {
    assert size * f == size + size + size * (f - 2);
  }

  lemma {:induction false} CeilLogIsLeast(f: nat, size: nat, target: nat, m: nat)
    requires f >= 2 && size >= 1
    ensures size * Pow(f, m) >= target <==> m >= CeilLog(f, size, target)
    decreases m
  {
    if m == 0 {
      assert size * Pow(f, 0) == size;
    } else {
      Doubles(f, size);
      CeilLogIsLeast(f, size * f, target, m - 1);
      Regroup(size, f, Pow(f, m - 1));
      if size >= target {
        PowPositive(f, m);
        MultiplyGrows(size, Pow(f, m));
      }
    }
  }

  lemma {:induction false} Regroup(a: nat, f: nat, p: nat)
    ensures a * (f * p) == (a * f) * p
  {
  }

  lemma {:induction false} PowPositive(f: nat, m: nat)
    requires f >= 1
    ensures Pow(f, m) >= 1
  {
    if m > 0 {
      PowPositive(f, m - 1);
      MultiplyGrows(Pow(f, m - 1), f);
    }
  }

  // ---------------------------------------------------------------- streaks

  /** k batches in a row with the same verdict, none of which ends the run otherwise. */
  function Streak(c: Control, failing: bool, k: nat, h: int, f: nat): Control
    requires f >= 1
    decreases k
  {
    if k == 0 || c.ended then c else Streak(Adjust(c, failing, h, f), failing, k - 1, h, f)
  }

  /** How many failing batches in a row it takes to end the experiment. */
  function FailuresToEnd(c: Control, h: int, f: nat): int
    requires f >= 2
  {
    var wait := if h - 1 > c.failures then h - 1 - c.failures else 0;
    if c.size == 1 then SINGLE_VM_LIMIT + 1 - c.single
    else if TopDigit(f, c.size) == 1 then wait + FloorLog(f, c.size) + SINGLE_VM_LIMIT + 1 - c.single
    else wait + FloorLog(f, c.size) + 1
  }

  /** Exactly that many: one fewer leaves the experiment running. */
  lemma {:induction false} FailuresEnd(c: Control, k: nat, h: int, f: nat)
    requires f >= 2 && c.size >= 1 && !c.ended && c.single <= SINGLE_VM_LIMIT
    ensures Streak(c, true, k, h, f).ended <==> k >= FailuresToEnd(c, h, f)
    decreases k
  {
    TopDigitPositive(f, c.size);
    if k > 0 {
      var d := Adjust(c, true, h, f);
      if d.ended {
        assert k == 1 || Streak(d, true, k - 1, h, f) == d;
        assert Streak(c, true, k, h, f) == d;
      } else {
        if d.size != c.size { ShrinkDigits(f, c.size); }
        FailuresEnd(d, k - 1, h, f);
      }
    }
  }

  lemma {:induction false} TopDigitPositive(f: nat, n: nat)
    requires f >= 2 && n >= 1
    ensures 1 <= TopDigit(f, n)
  {
    if n >= f {
      Quotient(f, n);
      TopDigitPositive(f, n / f);
    }
  }

  lemma {:induction false} ShrinkDigits(f: nat, n: nat)
    requires f >= 2 && n / f >= 1
    ensures FloorLog(f, n) == 1 + FloorLog(f, n / f) && TopDigit(f, n) == TopDigit(f, n / f)
  {
    Quotient(f, n);
  }

  /** Hysteresis plus the logarithm of the size plus five always suffice. */
  lemma {:induction false} FailuresBound(c: Control, k: nat, h: nat, f: nat)
    requires f >= 2 && c.size >= 1 && !c.ended && c.single <= SINGLE_VM_LIMIT && h >= 1
    requires k >= h + FloorLog(f, c.size) + 5
    ensures Streak(c, true, k, h, f).ended
  {
    FailuresEnd(c, k, h, f);
  }

  /** ... and are needed from any power of the factor with both counters clear. */
  lemma {:induction false} FailuresBoundTight(c: Control, m: nat, h: nat, f: nat)
    requires f >= 2 && c.size == Pow(f, m) && m >= 1 && !c.ended && c.single == 0 && c.failures == 0 && h >= 1
    ensures c.size >= 1 && FloorLog(f, c.size) == m
    ensures !Streak(c, true, h + m + 4, h, f).ended
  {
    PowDigits(f, m);
    PowPositive(f, m);
    FailuresEnd(c, h + m + 4, h, f);
  }

  lemma {:induction false} PowDigits(f: nat, m: nat)
    requires f >= 2
    ensures FloorLog(f, Pow(f, m)) == m && TopDigit(f, Pow(f, m)) == 1
    ensures m >= 1 ==> Pow(f, m) > 1
  {
    if m > 0 {
      PowDigits(f, m - 1);
      PowPositive(f, m - 1);
      ExactQuotient(f, Pow(f, m - 1));
    }
  }

  lemma {:induction false} ExactQuotient(f: nat, p: nat)
    requires f >= 2 && p >= 1
    ensures f * p >= f && f * p > 1 && (f * p) / f == p
  {
    ScaleOrder(f, 1, p);
    DivisionUnique(f * p, f, p, 0);
  }

  /** How many batches in a row that do not fail restore the initial size. */
  function SuccessesToRestore(c: Control, h: int, f: nat): nat
    requires f >= 2 && c.size >= 1
  {
    if c.size >= c.original then 0
    else (if h - 1 > c.successes then h - 1 - c.successes else 0) + CeilLog(f, c.size, c.original)
  }

  lemma {:induction false} SuccessesRestore(c: Control, k: nat, h: int, f: nat)
    requires f >= 2 && 1 <= c.size <= c.original && !c.ended
    ensures Streak(c, false, k, h, f).size == c.original <==> k >= SuccessesToRestore(c, h, f)
    decreases k
  {
    if k > 0 {
      var d := Adjust(c, false, h, f);
      Doubles(f, c.size);
      SuccessesRestore(d, k - 1, h, f);
      assert Streak(c, false, k, h, f) == Streak(d, false, k - 1, h, f);
      if c.size < c.original {
        assert CeilLog(f, c.size, c.original) == 1 + CeilLog(f, c.size * f, c.original);
      }
    }
  }

  // ---------------------------------------------------------------- streaks inside a run

  lemma {:induction false} StreakLast(c: Control, failing: bool, k: nat, h: int, f: nat)
    requires f >= 1 && k >= 1
    ensures var d := Streak(c, failing, k - 1, h, f);
      Streak(c, failing, k, h, f) == if d.ended then d else Adjust(d, failing, h, f)
    decreases k
  {
    if k > 1 && !c.ended { StreakLast(Adjust(c, failing, h, f), failing, k - 1, h, f); }
  }

  /** Batches m .. m + k - 1 of a run all got the same verdict. */
  ghost predicate SameVerdict(batches: seq<Batch>, m: nat, k: nat, failing: bool) {
    && 1 <= m && m + k <= |batches|
    && forall i :: m <= i < m + k ==> Failing(batches[i - 1], batches[i]) == failing
  }

  lemma {:induction false} RunFollowsStreak(size: nat, batches: seq<Batch>, m: nat, k: nat, failing: bool, h: int, f: nat)
    requires f >= 1 && SameVerdict(batches, m, k, failing)
    ensures var d := Run(size, batches, m + k, h, f);
      d.ended || d == Streak(Run(size, batches, m, h, f), failing, k, h, f)
    decreases k
  {
    if k > 0 {
      RunFollowsStreak(size, batches, m, k - 1, failing, h, f);
      StreakLast(Run(size, batches, m, h, f), failing, k, h, f);
    }
  }

  /** Batches m .. m + k - 1 of a run have ever higher failure ratios. */
  ghost predicate Rising(batches: seq<Batch>, m: nat, k: nat) {
    && 1 <= m && m + k <= |batches|
    && forall i :: m <= i < m + k ==> batches[i].failureRatio > batches[i - 1].failureRatio
  }

  /** Their ratios stay, or fall with the number of failed VMs unchanged. */
  ghost predicate Settled(batches: seq<Batch>, m: nat, k: nat) {
    && 1 <= m && m + k <= |batches|
    && forall i :: m <= i < m + k ==>
         || batches[i].failureRatio == batches[i - 1].failureRatio
         || (batches[i].failureRatio < batches[i - 1].failureRatio && batches[i].failedVms == batches[i - 1].failedVms)
  }

  /** In any run, enough batches in a row with rising failure ratios end the experiment, and
      enough settled ones restore the initial size unless something else ended it. */
  lemma {:induction false} StreaksDecideRun(size: nat, batches: seq<Batch>, m: nat, k: nat, h: nat, f: nat)
    requires f >= 2 && size >= 1 && h >= 1 && m <= |batches| && !Run(size, batches, m, h, f).ended
    ensures Run(size, batches, m, h, f).size >= 1
    ensures var c := Run(size, batches, m, h, f);
      Rising(batches, m, k) && k >= h + FloorLog(f, c.size) + 5 ==> Run(size, batches, m + k, h, f).ended
    ensures var c := Run(size, batches, m, h, f);
      Settled(batches, m, k) && k >= h - 1 + CeilLog(f, c.size, size) ==>
        Run(size, batches, m + k, h, f).ended || Run(size, batches, m + k, h, f).size == size
  {
    var c := Run(size, batches, m, h, f);
    RunSafe(size, batches, m, h, f);
    if Rising(batches, m, k) && k >= h + FloorLog(f, c.size) + 5 {
      RunFollowsStreak(size, batches, m, k, true, h, f);
      FailuresBound(c, k, h, f);
    }
    if Settled(batches, m, k) && k >= h - 1 + CeilLog(f, c.size, size) {
      RunFollowsStreak(size, batches, m, k, false, h, f);
      SuccessesRestore(c, k, h, f);
    }
  }

  lemma {:induction false} RunIsStreak(size: nat, batches: seq<Batch>, m: nat, k: nat, failing: bool, h: int, f: nat)
    requires f >= 1 && SameVerdict(batches, m, k, failing) && forall i :: m <= i < m + k ==> !batches[i].stop
    ensures Run(size, batches, m + k, h, f) == Streak(Run(size, batches, m, h, f), failing, k, h, f)
    decreases k
  {
    if k > 0 {
      RunIsStreak(size, batches, m, k - 1, failing, h, f);
      StreakLast(Run(size, batches, m, h, f), failing, k, h, f);
    }
  }

  /** An experiment that starts at a power of the factor and whose failure ratio rises from
      batch to batch ends with exactly this batch: the first one, five at size one, and
      before them as many as the hysteresis and the divisions take. */
  lemma {:induction false} RisingEndsExactly(e: nat, batches: seq<Batch>, n: nat, h: nat, f: nat)
    requires f >= 2 && h >= 1 && 1 <= n <= |batches| && Rising(batches, 1, n - 1)
    requires forall i :: 0 <= i < n ==> !batches[i].stop
    ensures Run(Pow(f, e), batches, n, h, f).ended <==> n >= 6 + if e == 0 then 0 else h - 1 + e
  {
    PowPositive(f, e);
    PowDigits(f, e);
    RunIsStreak(Pow(f, e), batches, 1, n - 1, true, h, f);
    var c := Start(Pow(f, e));
    assert Run(Pow(f, e), batches, 0, h, f) == c && Run(Pow(f, e), batches, 1, h, f) == c;
    FailuresEnd(c, n - 1, h, f);
  }
}
