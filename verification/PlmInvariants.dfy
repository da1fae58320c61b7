/** The invariants of the manager's store together, as every call keeps them. */
module PlmInvariants {
  import opened PlmStore
  import opened PlmRuns
  import opened PlmAccounting
  import opened PlmPools
  import opened PlmOwners

  /** Lists, volume counts and owners are right. */
  ghost predicate Sound(s: Store) {
    Consistent(s) && PoolsCounted(s) && OwnersRight(s)
  }

  ghost predicate Keeps(s: Store, c: Call) {
    KeepsConsistent(s, c) && KeepsCounts(s, c) && KeepsOwners(s, c)
  }

  lemma {:induction false} StepSoundExactly(s: Store, c: Call)
    ensures Sound(s) ==> (Sound(Step(s, c).store) <==> Keeps(s, c))
  {
    if Sound(s) {
      StepConsistentExactly(s, c);
      StepCountedExactly(s, c);
      StepRightExactly(s, c);
    }
  }

  /** Every counter of every node registered in t is off by what it was off in s, plus what
      the call leaks. */
  ghost predicate Accounts(s: Store, c: Call, t: Store) {
    forall host, k :: host in t.nodes ==> AccountsFor(s, c, t, host, k)
  }

  ghost predicate AccountsFor(s: Store, c: Call, t: Store, host: Id, k: Kind) {
    Discrepancy(t, host, k) == Discrepancy(s, host, k) + Leak(s, c, host, k)
  }

  lemma {:induction false} StepAccounts(s: Store, c: Call)
    ensures Accounts(s, c, Step(s, c).store)
  {
    var t := Step(s, c).store;
    forall host, k | host in t.nodes ensures AccountsFor(s, c, t, host, k) {
      StepLaw(s, c, host, k);
    }
  }
}
