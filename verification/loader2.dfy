/** Loader2: a full-screen panel that shows four words one after another. Every 500 ms
    the interval timer's updater moves to the next word; on the last word it keeps the
    index, clears the timer and sets `isExiting`, which slides the panel away and stops
    rendering the word. */
module Loader2 {
  import Transitions

  const Words: seq<string> := ["First word", "Second word", "Third word", "Fourth word"]

  const TickMs: nat := 500

  datatype State = State(wordIndex: int, isExiting: bool)

  const Init: State := State(0, false)

  /** The `setCurrentWordIndex` updater together with its side effect on `isExiting`. */
  function Tick(s: State): State {
    if s.wordIndex == |Words| - 1 then s.(isExiting := true)
    else s.(wordIndex := s.wordIndex + 1)
  }

  function Ticks(s: State, n: nat): State {
    Transitions.Run((t: State, _: ()) => Tick(t), s, seq(n, _ => ()))
  }

  /** The index always names a word, and the panel exits only from the last word. */
  predicate Valid(s: State) {
    0 <= s.wordIndex < |Words| && (s.isExiting ==> s.wordIndex == |Words| - 1)
  }

  /** The word on screen; defined because the index is always in range. */
  function CurrentWord(s: State): string
    requires Valid(s)
  {
    Words[s.wordIndex]
  }

  predicate ContentRendered(s: State) {
    !s.isExiting
  }

  /** A tick before the last word advances by one and leaves the exit flag alone; a tick
      on the last word keeps the word and starts the exit; either way the index stays in
      range. */
  lemma TickBehaviour(s: State)
    requires Valid(s)
    ensures Valid(Tick(s))
    ensures s.wordIndex < |Words| - 1 ==>
      Tick(s).wordIndex == s.wordIndex + 1 && Tick(s).isExiting == s.isExiting
    ensures s.wordIndex == |Words| - 1 ==>
      Tick(s).wordIndex == s.wordIndex && Tick(s).isExiting
  {
  }

  /** After `n` ticks from the start the `min(n, 3)`-th word is current, and the panel is
      exiting (its word hidden) exactly when `n >= 4`, i.e. one tick after the last word
      appeared. */
  lemma {:induction false} TicksFromStart(n: nat)
    ensures Valid(Ticks(Init, n))
    ensures Ticks(Init, n).wordIndex == (if n < |Words| then n else |Words| - 1)
    ensures Ticks(Init, n).isExiting <==> n >= |Words|
    ensures ContentRendered(Ticks(Init, n)) <==> n < |Words|
  {
    var step := (t: State, _: ()) => Tick(t);
    if n > 0 {
      TicksFromStart(n - 1);
      assert seq(n, _ => ()) == seq(n - 1, _ => ()) + [()];
      Transitions.RunAppend(step, Init, seq(n - 1, _ => ()), [()]);
    }
  }
}
