/** Loops whose turns may fail: the first failure ends the loop. */
module Turns {
  import opened Options

  // The state after n turns.
  function Run<S>(s: S, turn: (S, nat) -> Option<S>, n: nat): Option<S> {
    if n == 0 then Some(s)
    else
      var before :- Run(s, turn, n - 1);
      turn(before, n - 1)
  }

  lemma {:induction false} StoppedStays<S>(s: S, turn: (S, nat) -> Option<S>, k: nat, n: nat)
    requires k <= n && Run(s, turn, k).None?
    ensures Run(s, turn, n).None?
    decreases n
  {
    if k < n { StoppedStays(s, turn, k, n - 1); }
  }

  ghost predicate KeptBy<S>(turn: (S, nat) -> Option<S>, inv: (S, nat) -> bool, s: S, k: nat) {
    inv(s, k) && turn(s, k).Some? ==> inv(turn(s, k).value, k + 1)
  }

  // What every turn keeps holds at the end.
  lemma {:induction false} RunKeeps<S(!new)>(s: S, turn: (S, nat) -> Option<S>, n: nat, inv: (S, nat) -> bool)
    requires inv(s, 0)
    requires forall s1: S, k: nat :: k < n ==> KeptBy(turn, inv, s1, k)
    ensures Run(s, turn, n).Some? ==> inv(Run(s, turn, n).value, n)
    decreases n
  {
    if n > 0 {
      RunKeeps(s, turn, n - 1, inv);
      if Run(s, turn, n - 1).Some? {
        assert KeptBy(turn, inv, Run(s, turn, n - 1).value, n - 1);
      }
    }
  }

  ghost predicate ReturnsWhen<S>(
    turn: (S, nat) -> Option<S>, inv: (S, nat) -> bool, ok: nat -> bool, s: S, k: nat)
  {
    KeptBy(turn, inv, s, k) && (inv(s, k) ==> (turn(s, k).Some? <==> ok(k)))
  }

  // A loop returns exactly when each turn does, if that depends on what the turns keep.
  lemma {:induction false} RunReturnsIff<S(!new)>(
    s: S, turn: (S, nat) -> Option<S>, n: nat, inv: (S, nat) -> bool, ok: nat -> bool)
    requires inv(s, 0)
    requires forall s1: S, k: nat :: k < n ==> ReturnsWhen(turn, inv, ok, s1, k)
    ensures Run(s, turn, n).Some? <==> forall k: nat :: k < n ==> ok(k)
    decreases n
  {
    if n > 0 {
      RunReturnsIff(s, turn, n - 1, inv, ok);
      if Run(s, turn, n - 1).Some? {
        forall s1: S, k: nat | k < n
          ensures KeptBy(turn, inv, s1, k)
        {
          assert ReturnsWhen(turn, inv, ok, s1, k);
        }
        RunKeeps(s, turn, n - 1, inv);
        assert ReturnsWhen(turn, inv, ok, Run(s, turn, n - 1).value, n - 1);
      }
    }
  }
}
