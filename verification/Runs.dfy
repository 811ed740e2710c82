/** Runs of a step function over a list of events, and how they compose. */
module Runs {

  /** The state after all events, taken from the first on. */
  function Fold<S, E>(step: (S, E) -> S, s: S, events: seq<E>): S
    decreases |events|
  {
    if events == [] then s else Fold(step, step(s, events[0]), events[1..])
  }

  /** A run over two lists is the run over the second from where the first ends. */
  lemma {:induction false} FoldConcat<S, E>(step: (S, E) -> S, s: S, a: seq<E>, b: seq<E>)
    ensures Fold(step, s, a + b) == Fold(step, Fold(step, s, a), b)
    decreases |a|
  {
    if a == [] {
      assert a + b == b;
    } else {
      assert (a + b)[1..] == a[1..] + b;
      FoldConcat(step, step(s, a[0]), a[1..], b);
    }
  }

  /** One event more at the end of a prefix is one step more. */
  lemma FoldNext<S, E>(step: (S, E) -> S, s: S, events: seq<E>, n: nat)
    requires n < |events|
    ensures Fold(step, s, events[..n + 1]) == step(Fold(step, s, events[..n]), events[n])
  {
    assert events[..n + 1] == events[..n] + [events[n]];
    FoldConcat(step, s, events[..n], [events[n]]);
    assert [events[n]][1..] == [];
  }
}
