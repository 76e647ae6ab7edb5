// Schedules of a transition system: sequences of atomic steps, each enabled where
// it happens. A protocol is given by its partial step function.
module Transitions {
  import opened Prelude

  predicate Runs<S, A>(next: (S, A) -> Option<S>, s: S, run: seq<A>)
    decreases |run|
  {
    run == [] || (next(s, run[0]).Some? && Runs(next, next(s, run[0]).value, run[1..]))
  }

  /** The state a schedule leads to. */
  function Exec<S, A>(next: (S, A) -> Option<S>, s: S, run: seq<A>): S
    requires Runs(next, s, run)
    decreases |run|
  {
    if run == [] then s else Exec(next, next(s, run[0]).value, run[1..])
  }

  lemma OneStep<S, A>(next: (S, A) -> Option<S>, s: S, a: A, rest: seq<A>)
    requires next(s, a).Some?
    ensures Runs(next, s, [a] + rest) <==> Runs(next, next(s, a).value, rest)
    ensures Runs(next, s, [a] + rest) ==> Exec(next, s, [a] + rest) == Exec(next, next(s, a).value, rest)
  {
    assert ([a] + rest)[1..] == rest;
  }

  lemma FinalStep<S, A>(next: (S, A) -> Option<S>, s: S, a: A)
    requires next(s, a).Some?
    ensures Runs(next, s, [a] + []) && Exec(next, s, [a] + []) == next(s, a).value
  {
    OneStep(next, s, a, []);
  }

  lemma {:induction false} RunsConcat<S, A>(next: (S, A) -> Option<S>, s: S, a: seq<A>, b: seq<A>)
    requires Runs(next, s, a)
    ensures Runs(next, s, a + b) <==> Runs(next, Exec(next, s, a), b)
    ensures Runs(next, s, a + b) ==> Exec(next, s, a + b) == Exec(next, Exec(next, s, a), b)
    decreases |a|
  {
    if a == [] {
      assert a + b == b;
    } else {
      assert (a + b)[1..] == a[1..] + b;
      RunsConcat(next, next(s, a[0]).value, a[1..], b);
    }
  }

  /** Every prefix of a schedule is one. */
  lemma {:induction false} RunsPrefix<S, A>(next: (S, A) -> Option<S>, s: S, a: seq<A>, b: seq<A>)
    requires Runs(next, s, a + b)
    ensures Runs(next, s, a)
    decreases |a|
  {
    if a != [] {
      assert (a + b)[1..] == a[1..] + b;
      RunsPrefix(next, next(s, a[0]).value, a[1..], b);
    }
  }

  /** A schedule is a shorter one and a last step. */
  lemma RunsLast<S, A>(next: (S, A) -> Option<S>, s: S, run: seq<A>)
    requires Runs(next, s, run) && run != []
    ensures Runs(next, s, run[..|run| - 1])
    ensures var s' := Exec(next, s, run[..|run| - 1]); next(s', run[|run| - 1]) == Some(Exec(next, s, run))
  {
    var init, last := run[..|run| - 1], run[|run| - 1];
    assert run == init + [last];
    RunsPrefix(next, s, init, [last]);
    RunsConcat(next, s, init, [last]);
    assert [last][1..] == [];
  }

  /** The state after the first k steps. */
  function After<S, A>(next: (S, A) -> Option<S>, s: S, run: seq<A>, k: nat): S
    requires Runs(next, s, run) && k <= |run|
  {
    assert run == run[..k] + run[k..];
    RunsPrefix(next, s, run[..k], run[k..]);
    Exec(next, s, run[..k])
  }

  lemma AfterStep<S, A>(next: (S, A) -> Option<S>, s: S, run: seq<A>, k: nat)
    requires Runs(next, s, run) && k < |run|
    ensures next(After(next, s, run, k), run[k]) == Some(After(next, s, run, k + 1))
  {
    assert run == run[..k + 1] + run[k + 1..];
    RunsPrefix(next, s, run[..k + 1], run[k + 1..]);
    RunsLast(next, s, run[..k + 1]);
    assert run[..k + 1][..k] == run[..k];
  }

  /** What every step keeps, every schedule keeps. */
  lemma {:induction false} RunsKeep<S, A>(next: (S, A) -> Option<S>, inv: S -> bool, s: S, run: seq<A>)
    requires Runs(next, s, run) && inv(s)
    requires forall s', a :: inv(s') && next(s', a).Some? ==> inv(next(s', a).value)
    ensures inv(Exec(next, s, run))
    decreases |run|
  {
    if run != [] {
      RunsKeep(next, inv, next(s, run[0]).value, run[1..]);
    }
  }
}
