/** Runs of a discrete transition system: the components' timers, clicks and
    pointer events are folded over a state one event at a time. */
module Transitions {

  /** The state reached from `s` after the events `es`, in order. */
  function Run<S, E>(step: (S, E) -> S, s: S, es: seq<E>): S
    decreases |es|
  {
    if |es| == 0 then s else Run(step, step(s, es[0]), es[1..])
  }

  /** Running `a` then `b` is running `a + b`. */
  lemma {:induction false} RunAppend<S, E>(step: (S, E) -> S, s: S, a: seq<E>, b: seq<E>)
    ensures Run(step, s, a + b) == Run(step, Run(step, s, a), b)
    decreases |a|
  {
    if |a| > 0 {
      assert (a + b)[0] == a[0];
      assert (a + b)[1..] == a[1..] + b;
      RunAppend(step, step(s, a[0]), a[1..], b);
    } else {
      assert a + b == b;
    }
  }

  /** A property every single step preserves holds after any run. */
  lemma {:induction false} RunPreserves<S, E>(step: (S, E) -> S, inv: S -> bool, s: S, es: seq<E>)
    requires inv(s)
    requires forall t, e :: inv(t) ==> inv(step(t, e))
    ensures inv(Run(step, s, es))
    decreases |es|
  {
    if |es| > 0 {
      RunPreserves(step, inv, step(s, es[0]), es[1..]);
    }
  }
}
