/** Runs of a step system.  A step system is a partial function from states and actions to states, and
a run is a list of actions that are possible one after the other. */
module Runs {
  import opened Media

  /** The state after the actions `run`, if each of them was possible. */
  function Exec<S, A>(next: (S, A) -> Option<S>, start: S, run: seq<A>): Option<S> {
    if run == [] then Some(start) else
    match Exec(next, start, run[..|run| - 1])
    case None => None
    case Some(s) => next(s, run[|run| - 1])
  }

  ghost predicate Reaches<S, A(!new)>(next: (S, A) -> Option<S>, start: S, s: S) {
    exists run :: Exec(next, start, run) == Some(s)
  }

  lemma ReachesStart<S, A(!new)>(next: (S, A) -> Option<S>, start: S)
    ensures Reaches(next, start, start)
  {
    assert Exec(next, start, []) == Some(start);
  }

  /** Continue a run by one action. */
  lemma GoOn<S, A(!new)>(next: (S, A) -> Option<S>, start: S, s: S, a: A) returns (s': S)
    requires Reaches(next, start, s) && next(s, a).Some?
    ensures next(s, a) == Some(s') && Reaches(next, start, s')
  {
    var run :| Exec(next, start, run) == Some(s);
    assert (run + [a])[..|run|] == run;
    s' := next(s, a).value;
    assert Exec(next, start, run + [a]) == Some(s');
  }

  /** What holds at the start and is kept by every step holds in every state that a run reaches. */
  lemma {:induction false} HoldsAfter<S(!new), A(!new)>(next: (S, A) -> Option<S>, start: S, inv: S -> bool, run: seq<A>)
    requires inv(start)
    requires forall s, a :: inv(s) && next(s, a).Some? ==> inv(next(s, a).value)
    ensures Exec(next, start, run).Some? ==> inv(Exec(next, start, run).value)
  {
    if run != [] {
      HoldsAfter(next, start, inv, run[..|run| - 1]);
    }
  }

  lemma HoldsWhereReached<S(!new), A(!new)>(next: (S, A) -> Option<S>, start: S, inv: S -> bool, s: S)
    requires inv(start)
    requires forall s, a :: inv(s) && next(s, a).Some? ==> inv(next(s, a).value)
    requires Reaches(next, start, s)
    ensures inv(s)
  {
    var run :| Exec(next, start, run) == Some(s);
    HoldsAfter(next, start, inv, run);
  }
}
