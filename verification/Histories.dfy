/** What a flag says about the events that set and cleared it. */
module Histories {

  predicate NoneBetween(clears: nat -> bool, k: nat, n: nat) {
    forall j: nat :: k < j < n ==> !clears(j)
  }

  /** A latch holds exactly when it was set and not cleared since. */
  lemma {:induction false} LatchedSince(holds: nat -> bool, sets: nat -> bool, clears: nat -> bool, n: nat)
    requires !holds(0) && forall k: nat :: k < n ==> (holds(k + 1) <==> sets(k) || (holds(k) && !clears(k)))
    ensures holds(n) <==> exists k: nat :: k < n && sets(k) && NoneBetween(clears, k, n)
  {
    if n > 0 {
      var m := n - 1;
      LatchedSince(holds, sets, clears, m);
      if sets(m) {
        assert NoneBetween(clears, m, n);
      } else if holds(n) {
        var k: nat :| k < m && sets(k) && NoneBetween(clears, k, m);
        assert NoneBetween(clears, k, n);
      } else {
        forall k: nat | k < m && sets(k)
          ensures !NoneBetween(clears, k, n)
        {
          assert holds(m) || !NoneBetween(clears, k, m);
        }
      }
    }
  }

  predicate HoldsThroughout(holds: nat -> bool, k: nat, n: nat) {
    forall i: nat :: k < i <= n ==> holds(i)
  }

  /** Something false at first holds exactly when its last rise has not been undone. */
  lemma {:induction false} LastRise(holds: nat -> bool, rise: nat -> bool, n: nat)
    requires !holds(0) && forall k: nat :: k < n ==> (rise(k) <==> !holds(k) && holds(k + 1))
    ensures holds(n) <==> exists k: nat :: k < n && rise(k) && HoldsThroughout(holds, k, n)
  {
    if n > 0 && holds(n) {
      var m := n - 1;
      LastRise(holds, rise, m);
      if holds(m) {
        var k: nat :| k < m && rise(k) && HoldsThroughout(holds, k, m);
        assert HoldsThroughout(holds, k, n);
      } else {
        assert rise(m) && HoldsThroughout(holds, m, n);
      }
    }
  }
}
