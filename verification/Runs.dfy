/**
  Interleaving systems and their runs.

  A concurrent program is a `System`: a predicate on initial states and a relation between
  a state and the state after one atomic action of one thread.  A run is any finite sequence
  of such actions, so a statement about every reachable state is a statement about every
  schedule.
 */
module Runs {

  datatype Option<+T> = None | Some(value: T)

  datatype System<!S> = System(init: S -> bool, next: (S, S) -> bool)

  ghost predicate IsRun<S>(sys: System<S>, run: seq<S>) {
    && run != []
    && sys.init(run[0])
    && forall i :: 0 < i < |run| ==> sys.next(run[i - 1], run[i])
  }

  ghost predicate Reachable<S(!new)>(sys: System<S>, s: S) {
    exists run: seq<S> :: IsRun(sys, run) && run[|run| - 1] == s
  }

  lemma InitialIsReachable<S(!new)>(sys: System<S>, s: S)
    requires sys.init(s)
    ensures Reachable(sys, s)
  {
    assert IsRun(sys, [s]) && [s][|[s]| - 1] == s;
  }

  lemma ReachableNext<S(!new)>(sys: System<S>, s: S, s': S)
    requires Reachable(sys, s) && sys.next(s, s')
    ensures Reachable(sys, s')
  {
    var run :| IsRun(sys, run) && run[|run| - 1] == s;
    var longer := run + [s'];
    assert IsRun(sys, longer) && longer[|longer| - 1] == s';
  }

  /** `inv` holds initially and every action keeps it. */
  ghost predicate Inductive<S(!new)>(sys: System<S>, inv: S -> bool) {
    && (forall s :: sys.init(s) ==> inv(s))
    && (forall s, s' :: inv(s) && sys.next(s, s') ==> inv(s'))
  }

  lemma {:induction false} InvariantAlongRun<S(!new)>(sys: System<S>, inv: S -> bool, run: seq<S>, k: nat)
    requires IsRun(sys, run) && Inductive(sys, inv) && k < |run|
    ensures inv(run[k])
  {
    if k > 0 {
      InvariantAlongRun(sys, inv, run, k - 1);
    }
  }

  lemma InvariantIfReachable<S(!new)>(sys: System<S>, inv: S -> bool, s: S)
    requires Reachable(sys, s) && Inductive(sys, inv)
    ensures inv(s)
  {
    var run :| IsRun(sys, run) && run[|run| - 1] == s;
    InvariantAlongRun(sys, inv, run, |run| - 1);
  }

  /** When every action lowers `measure`, a run is no longer than the measure of its first state. */
  lemma {:induction false} RunIsBounded<S(!new)>(sys: System<S>, inv: S -> bool, measure: S -> nat, run: seq<S>, k: nat)
    requires IsRun(sys, run) && Inductive(sys, inv) && k < |run|
    requires forall s, s' :: inv(s) && sys.next(s, s') ==> measure(s') < measure(s)
    ensures k + measure(run[k]) <= measure(run[0])
  {
    if k > 0 {
      RunIsBounded(sys, inv, measure, run, k - 1);
      InvariantAlongRun(sys, inv, run, k - 1);
    }
  }
}
