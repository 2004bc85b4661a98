/** Portfolio18: full-screen project sections, each with a sticky background image.
    `isInView[i]` says whether a third of section `i` is on screen; `isLeavingView`
    whether any of the last section is. Section `i` shows its image (opacity 1, with no
    transition) when it is in view and the next one is not, or when it is the last
    section and `isLeavingView` holds. */
module Portfolio18 {

  /** `isInView[k]`, where an index past the end reads `undefined`, which is falsy. */
  function InViewAt(inView: seq<bool>, k: int): bool {
    0 <= k < |inView| && inView[k]
  }

  /** `shouldBeVisible` of section `i`. */
  predicate ShouldBeVisible(inView: seq<bool>, isLeavingView: bool, i: nat)
    requires i < |inView|
  {
    var isLastItem := i == |inView| - 1;
    inView[i] && (!InViewAt(inView, i + 1) || (isLastItem && isLeavingView))
  }

  /** The animated opacity. */
  function Opacity(inView: seq<bool>, isLeavingView: bool, i: nat): int
    requires i < |inView|
  {
    if ShouldBeVisible(inView, isLeavingView, i) then 1 else 0
  }

  /** Section `i` ends a run of consecutive in-view sections. */
  predicate EndsRun(inView: seq<bool>, i: nat)
    requires i < |inView|
  {
    inView[i] && (i + 1 == |inView| || !inView[i + 1])
  }

  /** A section shows its image exactly when it ends a run of in-view sections;
      `isLeavingView` never changes the outcome; for the last section the rule reduces
      to being in view; opacity is 1 exactly for the visible sections. */
  lemma VisibleIffEndsRun(inView: seq<bool>, isLeavingView: bool, i: nat)
    requires i < |inView|
    ensures ShouldBeVisible(inView, isLeavingView, i) <==> EndsRun(inView, i)
    ensures ShouldBeVisible(inView, isLeavingView, i) == ShouldBeVisible(inView, !isLeavingView, i)
    ensures i == |inView| - 1 ==> (ShouldBeVisible(inView, isLeavingView, i) <==> inView[i])
    ensures Opacity(inView, isLeavingView, i) == 1 <==> ShouldBeVisible(inView, isLeavingView, i)
    ensures Opacity(inView, isLeavingView, i) == 0 <==> !ShouldBeVisible(inView, isLeavingView, i)
  {
  }

  /** Two neighbouring sections are never both visible. */
  lemma NoAdjacentVisible(inView: seq<bool>, isLeavingView: bool, i: nat)
    requires i + 1 < |inView|
    ensures !(ShouldBeVisible(inView, isLeavingView, i) && ShouldBeVisible(inView, isLeavingView, i + 1))
  {
  }

  function Repeat(b: bool, n: nat): (r: seq<bool>)
    ensures |r| == n && forall k :: 0 <= k < n ==> r[k] == b
  {
    seq(n, _ => b)
  }

  /** While scrolling, the sections in view form one block: `a` sections above it,
      `b > 0` in view, `c` below. Then exactly one image is shown, that of the last
      section of the block. */
  lemma OneBlockShowsItsLast(a: nat, b: nat, c: nat, isLeavingView: bool, i: nat)
    requires b > 0
    requires i < a + b + c
    ensures var inView := Repeat(false, a) + Repeat(true, b) + Repeat(false, c);
      ShouldBeVisible(inView, isLeavingView, i) <==> i == a + b - 1
  {
    var inView := Repeat(false, a) + Repeat(true, b) + Repeat(false, c);
    assert forall k :: 0 <= k < |inView| ==> (inView[k] <==> a <= k < a + b);
    VisibleIffEndsRun(inView, isLeavingView, i);
  }

  /** With no section in view no image is shown. */
  lemma NothingInViewNothingShown(n: nat, isLeavingView: bool, i: nat)
    requires i < n
    ensures !ShouldBeVisible(Repeat(false, n), isLeavingView, i)
  {
  }
}
