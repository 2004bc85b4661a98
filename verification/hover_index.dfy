/** The hovered-item state of the hover lists in Portfolio20 and cta37 (Portfolio22's
    variant is in its own module): entering an item records its index, leaving the
    list clears it, the other items' text fades, and only the hovered item's floating
    image is shown. Also the two-digit index label printed in front of each item. */
module HoverIndex {
  import opened Wrappers
  import opened Decimal
  import Transitions

  /** `hoveredIndex`, `null` being `None`. */
  type Hovered = Option<nat>

  datatype Event = EnterItem(index: nat) | LeaveList

  /** The item's `onMouseEnter` and the list's `handleMouseLeave`. */
  function OnEvent(h: Hovered, e: Event): Hovered {
    match e
    case EnterItem(i) => Some(i)
    case LeaveList => None
  }

  function Run(h: Hovered, es: seq<Event>): Hovered {
    Transitions.Run(OnEvent, h, es)
  }

  /** The "lg:text-black/20" condition `hoveredIndex !== index && hoveredIndex !== null`. */
  predicate Dimmed(h: Hovered, i: nat) {
    h.Some? && h.value != i
  }

  /** The "lg:text-black" condition `hoveredIndex === index || hoveredIndex === null`. */
  predicate FullColour(h: Hovered, i: nat) {
    h == Some(i) || h.None?
  }

  /** The floating image's "opacity-100" condition `hoveredIndex === index`. */
  predicate FloatingImageShown(h: Hovered, i: nat) {
    h == Some(i)
  }

  /** Exactly one of the two colour classes applies to every item: an item is dimmed
      iff another item is hovered. */
  lemma ColourClassesExclusive(h: Hovered, i: nat)
    ensures Dimmed(h, i) <==> !FullColour(h, i)
    ensures Dimmed(h, i) <==> exists j: nat :: h == Some(j) && j != i
  {
    if Dimmed(h, i) {
      assert h == Some(h.value) && h.value != i;
    }
  }

  /** After entering item `i`, its image is the only one shown and every other item is
      dimmed; after leaving the list, no image is shown and nothing is dimmed. */
  lemma {:induction false} HoverThenLeave(h: Hovered, es: seq<Event>, i: nat)
    ensures var after := Run(h, es + [EnterItem(i)]);
      && after == Some(i)
      && (forall j: nat :: FloatingImageShown(after, j) <==> j == i)
      && (forall j: nat :: Dimmed(after, j) <==> j != i)
    ensures var after := Run(h, es + [LeaveList]);
      && after == None
      && (forall j: nat :: !FloatingImageShown(after, j) && !Dimmed(after, j))
  {
    Transitions.RunAppend(OnEvent, h, es, [EnterItem(i)]);
    Transitions.RunAppend(OnEvent, h, es, [LeaveList]);
  }

  // ---------------------------------------------------------------- index label

  /** The label as written, `${index < 10 && "0"}${index + 1}`: the prefix is the
      string "0" for the first ten indices and the text of `false` after them. */
  function IndexLabelAsWritten(i: nat): string {
    (if i < 10 then "0" else "false") + Show(i + 1)
  }

  /** The evidently intended label: the item number padded to two digits. */
  function IndexLabel(i: nat): string {
    if i + 1 < 10 then "0" + Show(i + 1) else Show(i + 1)
  }

  /** The written label is right for the first nine items, but prints "010" for the
      tenth and "false11" for the eleventh. */
  lemma IndexLabelAsWrittenDefects()
    ensures forall i: nat :: i < 9 ==> IndexLabelAsWritten(i) == IndexLabel(i)
    ensures IndexLabelAsWritten(9) == "010" && IndexLabel(9) == "10"
    ensures IndexLabelAsWritten(10) == "false11" && IndexLabel(10) == "11"
  {
  }

  /** The intended label is all digits, reads back as the item number, and has exactly
      two digits for the first 99 items; so different items get different labels. */
  lemma IndexLabelReadsBack(i: nat)
    ensures AllDigits(IndexLabel(i))
    ensures Value(IndexLabel(i)) == i + 1
    ensures i < 99 ==> |IndexLabel(i)| == 2
  {
    ValueOfShow(i + 1);
    if i + 1 < 10 {
      LeadingZeroValue(Show(i + 1));
    }
  }

  lemma IndexLabelInjective(i: nat, j: nat)
    ensures IndexLabel(i) == IndexLabel(j) ==> i == j
  {
    IndexLabelReadsBack(i);
    IndexLabelReadsBack(j);
  }
}
