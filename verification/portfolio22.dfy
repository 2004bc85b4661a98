/** Portfolio22: a list of project links beside a stack of sticky images. Hovering a
    link records its index; every image stays visible while nothing is hovered, and
    once a link is hovered only its image is visible and the other links fade. The
    first image sits on layer `z-0`, all others on `-z-10`.

    The list's `onMouseLeave` is `handleMouseLeave`, which as written only returns a
    closure that would reset the index and never calls it, so leaving the list changes
    nothing. Both that behaviour and the evidently intended reset are modelled. */
module Portfolio22 {
  import opened Wrappers
  import HoverIndex
  import Transitions

  type Hovered = HoverIndex.Hovered

  /** The events as written: leaving the list is a no-op. */
  function OnEventAsWritten(h: Hovered, e: HoverIndex.Event): Hovered {
    match e
    case EnterItem(i) => Some(i)
    case LeaveList => h
  }

  /** The evidently intended handler, which resets like Portfolio20's. */
  function OnEvent(h: Hovered, e: HoverIndex.Event): Hovered {
    HoverIndex.OnEvent(h, e)
  }

  function RunAsWritten(h: Hovered, es: seq<HoverIndex.Event>): Hovered {
    Transitions.Run(OnEventAsWritten, h, es)
  }

  function Run(h: Hovered, es: seq<HoverIndex.Event>): Hovered {
    Transitions.Run(OnEvent, h, es)
  }

  /** The image's "opacity-100" condition `hoveredIndex === index || hoveredIndex === null`. */
  predicate ImageVisible(h: Hovered, i: nat) {
    h.None? || h == Some(i)
  }

  datatype Layer = ZBase | ZBehind

  function ImageLayer(i: nat): Layer {
    if i == 0 then ZBase else ZBehind
  }

  /** An image is visible exactly when its link's text is not faded; with nothing
      hovered all images are visible, with link `j` hovered only image `j` is; only the
      first image is on the base layer. */
  lemma VisibilityMatchesText(h: Hovered, i: nat)
    ensures ImageVisible(h, i) <==> !HoverIndex.Dimmed(h, i)
    ensures h.None? ==> ImageVisible(h, i)
    ensures h.Some? ==> (ImageVisible(h, i) <==> i == h.value)
    ensures ImageLayer(i) == ZBase <==> i == 0
  {
  }

  /** As written, once a link has been hovered the index is never cleared again: from
      then on exactly one image is visible, whatever events follow. */
  lemma {:induction false} NeverResets(h: Hovered, es: seq<HoverIndex.Event>)
    requires h.Some?
    ensures RunAsWritten(h, es).Some?
    ensures forall i: nat :: ImageVisible(RunAsWritten(h, es), i) <==> i == RunAsWritten(h, es).value
  {
    Transitions.RunPreserves(OnEventAsWritten, (x: Hovered) => x.Some?, h, es);
  }

  /** Hover the second link and leave the list: as written the first image stays
      hidden and the first link stays faded; with the reset both come back. */
  lemma LeaveCounterexample()
    ensures RunAsWritten(None, [HoverIndex.EnterItem(1), HoverIndex.LeaveList]) == Some(1)
    ensures !ImageVisible(RunAsWritten(None, [HoverIndex.EnterItem(1), HoverIndex.LeaveList]), 0)
    ensures Run(None, [HoverIndex.EnterItem(1), HoverIndex.LeaveList]) == None
    ensures ImageVisible(Run(None, [HoverIndex.EnterItem(1), HoverIndex.LeaveList]), 0)
  {
  }

  /** With the reset, leaving the list after any history shows every image again and
      fades no text. */
  lemma {:induction false} LeaveRestoresAllImages(h: Hovered, es: seq<HoverIndex.Event>)
    ensures forall i: nat ::
      ImageVisible(Run(h, es + [HoverIndex.LeaveList]), i)
      && !HoverIndex.Dimmed(Run(h, es + [HoverIndex.LeaveList]), i)
  {
    Transitions.RunAppend(OnEvent, h, es, [HoverIndex.LeaveList]);
  }
}
