/**
 Runs of a state machine: which events can happen in a state, and the state each one leads to.
 */
module Runs {
  datatype Machine<!S, !E> = Machine(possible: (S, E) -> bool, after: (S, E) -> S)

  /** The events so far, from a given state on. */
  datatype Run<!S, !E> = Run(m: Machine<S, E>, start: S, trace: seq<E>)

  /** The state before event `n`. */
  function At<S, E>(l: Run<S, E>, n: nat): S
    requires n <= |l.trace|
  {
    if n == 0 then l.start else l.m.after(At(l, n - 1), l.trace[n - 1])
  }

  function Now<S, E>(l: Run<S, E>): S { At(l, |l.trace|) }

  /** Each event was possible when it happened. */
  ghost predicate Lawful<S, E>(l: Run<S, E>) { forall n :: 0 <= n < |l.trace| ==> l.m.possible(At(l, n), l.trace[n]) }

  function Add<S, E>(l: Run<S, E>, e: E): Run<S, E> { l.(trace := l.trace + [e]) }

  lemma {:induction false} AtAdd<S, E>(l: Run<S, E>, e: E, n: nat)
    requires n <= |l.trace|
    ensures At(Add(l, e), n) == At(l, n)
  {
    if n > 0 { AtAdd(l, e, n - 1); }
  }

  lemma {:induction false} AddIsLawful<S, E>(l: Run<S, E>, e: E)
    requires Lawful(l) && l.m.possible(Now(l), e)
    ensures Lawful(Add(l, e)) && Now(Add(l, e)) == l.m.after(Now(l), e)
  {
    var l' := Add(l, e);
    forall n | 0 <= n < |l'.trace|
      ensures l'.m.possible(At(l', n), l'.trace[n])
    {
      AtAdd(l, e, n);
    }
    AtAdd(l, e, |l.trace|);
  }
}
