/** MultiForm36: a product survey of six steps, an introduction without fields and five
    one-field questions. `handleNext` leaves the introduction without validating, moves
    past a question whose field validates, and on the last question submits the whole
    form instead of advancing. A row of numbered circles shows the progress; the third
    question is a multi-select whose buttons toggle values in the `areas` list.

    Validation is the oracle `trigger(fields)`, as in MultiForm18. */
module Multiform36 {
  import opened Wrappers
  import opened Decimal
  import Transitions

  datatype Field = Quality | Like | Areas | AboutUs | Email

  const SchemaFields: seq<Field> := [Quality, Like, Areas, AboutUs, Email]

  /** The `steps` table; the introduction's `fields` is `null`. */
  const Steps: seq<Option<seq<Field>>> :=
    [None, Some([Quality]), Some([Like]), Some([Areas]), Some([AboutUs]), Some([Email])]

  const TotalSteps: nat := |Steps|

  type Validator = seq<Field> -> bool

  predicate ValidStep(step: int) { 0 <= step < TotalSteps }

  predicate IsFirstStep(step: int) { step == 0 }

  predicate IsLastStep(step: int) { step == TotalSteps - 1 }

  /** `currentFields ?? []`. */
  function FieldsOrEmpty(fields: Option<seq<Field>>): seq<Field> {
    match fields
    case None => []
    case Some(fs) => fs
  }

  datatype Outcome = Outcome(step: int, submitted: bool)

  /** `handleNext`. */
  function HandleNext(step: int, trigger: Validator): Outcome
    requires ValidStep(step)
  {
    if IsFirstStep(step) then Outcome(step + 1, false)
    else if trigger(FieldsOrEmpty(Steps[step])) then
      if IsLastStep(step) then Outcome(step, trigger(SchemaFields))
      else Outcome(step + 1, false)
    else Outcome(step, false)
  }

  /** `handlePrev`. */
  function HandlePrev(step: int): int {
    if !IsFirstStep(step) then step - 1 else step
  }

  /** The form's `onSubmit`: `handleNext` before the last step, `handleSubmit` on it. */
  function OnSubmit(step: int, trigger: Validator): Outcome
    requires ValidStep(step)
  {
    if !IsLastStep(step) then HandleNext(step, trigger)
    else Outcome(step, trigger(SchemaFields))
  }

  /** A single call of `handleNext` (the Enter key with the focus outside the form, or
      the introduction's "Get started" button), a form submission by mouse, one press of
      Enter inside the form (on a text field or on the "Next" button), or "Back". */
  datatype Event = Next(trigger: Validator) | Submit(trigger: Validator) | EnterInForm(trigger: Validator) | Back

  /** One press of Enter inside the form as the component handles it: the document's
      `keydown` listener calls `handleNext`, and the same key submits the form, whose
      `onSubmit` handler runs too. Both handlers belong to the same render, so both see
      the same `step`, and each queues its own `prev => prev + 1`. */
  function EnterAsWritten(step: int, trigger: Validator): (r: int)
    requires ValidStep(step)
    ensures r - step == 2 * (HandleNext(step, trigger).step - step)
  {
    step + (HandleNext(step, trigger).step - step) + (OnSubmit(step, trigger).step - step)
  }

  /** The events as the component handles them. The introduction has no field and no
      "Next" button, so an Enter there reaches the listener alone. A step outside the
      table has no entry in `steps`: rendering it throws, and no further event is
      handled. */
  function ApplyAsWritten(step: int, e: Event): int {
    if !ValidStep(step) then step
    else
      match e
      case EnterInForm(trigger) =>
        if IsFirstStep(step) then HandleNext(step, trigger).step else EnterAsWritten(step, trigger)
      case Next(trigger) => HandleNext(step, trigger).step
      case Submit(trigger) => OnSubmit(step, trigger).step
      case Back => HandlePrev(step)
  }

  function RunAsWritten(step: int, es: seq<Event>): int {
    Transitions.Run(ApplyAsWritten, step, es)
  }

  /** The events with one press of Enter handled once, the single step forward that the
      "Press Enter" hint next to the buttons promises. */
  function Apply(step: int, e: Event): int {
    if !ValidStep(step) then step
    else
      match e
      case Next(trigger) => HandleNext(step, trigger).step
      case EnterInForm(trigger) => HandleNext(step, trigger).step
      case Submit(trigger) => OnSubmit(step, trigger).step
      case Back => HandlePrev(step)
  }

  function Run(step: int, es: seq<Event>): int {
    Transitions.Run(Apply, step, es)
  }

  /** Six steps; only the introduction has no fields; the five questions ask the five
      schema fields in order, one each. */
  lemma StepTable()
    ensures TotalSteps == 6
    ensures forall i :: 0 <= i < TotalSteps ==> (Steps[i].None? <==> i == 0)
    ensures forall i :: 1 <= i < TotalSteps ==> Steps[i] == Some([SchemaFields[i - 1]])
  {
  }

  /** The form's submission runs `handleNext` on every step but the last; on the last
      it submits iff the whole form validates, and the step stays. */
  lemma OnSubmitRouting(step: int, trigger: Validator)
    requires ValidStep(step)
    ensures !IsLastStep(step) ==> OnSubmit(step, trigger) == HandleNext(step, trigger)
    ensures IsLastStep(step) ==> OnSubmit(step, trigger) == Outcome(step, trigger(SchemaFields))
  {
  }

  /** Leaving the introduction never consults validation. */
  lemma IntroSkipsValidation(trigger: Validator)
    ensures HandleNext(0, trigger) == Outcome(1, false)
    ensures OnSubmit(0, trigger) == HandleNext(0, trigger)
  {
  }

  /** On a question, `handleNext` advances by exactly one iff the question's field
      validates and it is not the last one; on the last one it submits (whole-form
      validation deciding whether `onSubmit` runs) and stays; a failed validation
      changes nothing. */
  lemma NextRouting(step: int, trigger: Validator)
    requires ValidStep(step) && !IsFirstStep(step)
    ensures var r := HandleNext(step, trigger);
      && ValidStep(r.step)
      && (r.step == step + 1 <==> !IsLastStep(step) && trigger(FieldsOrEmpty(Steps[step])))
      && (r.step != step + 1 ==> r.step == step)
      && (r.submitted <==> IsLastStep(step) && trigger(FieldsOrEmpty(Steps[step])) && trigger(SchemaFields))
  {
  }

  /** Going back moves one step back except on the introduction. */
  lemma PrevRouting(step: int)
    requires ValidStep(step)
    ensures ValidStep(HandlePrev(step))
    ensures HandlePrev(step) == step <==> IsFirstStep(step)
    ensures HandlePrev(step) < step <==> step > 0
  {
  }

  /** Whatever happens, the step stays within the six steps. */
  lemma {:induction false} StepAlwaysInRange(es: seq<Event>)
    ensures ValidStep(Run(0, es))
  {
    forall t, e | ValidStep(t)
      ensures ValidStep(Apply(t, e))
    {
      match e
      case Next(trigger) =>
        if !IsFirstStep(t) { NextRouting(t, trigger); }
      case EnterInForm(trigger) =>
        if !IsFirstStep(t) { NextRouting(t, trigger); }
      case Submit(trigger) =>
        if !IsFirstStep(t) && !IsLastStep(t) { NextRouting(t, trigger); }
      case Back =>
    }
    Transitions.RunPreserves(Apply, ValidStep, 0, es);
  }

  /** As written, one Enter inside the form on a question moves two steps where
      `handleNext` moves one, when the question's field validates and it is not the
      last; a failed validation, and the last question, leave the step alone. On the
      introduction, Enter moves one step, as `handleNext` does. */
  lemma EnterAsWrittenSkips(step: int, trigger: Validator)
    requires ValidStep(step)
    ensures IsFirstStep(step) ==> ApplyAsWritten(step, EnterInForm(trigger)) == 1
    ensures !IsFirstStep(step) ==> ApplyAsWritten(step, EnterInForm(trigger)) == EnterAsWritten(step, trigger)
    ensures !IsFirstStep(step) ==>
      (EnterAsWritten(step, trigger) == step + 2 <==> !IsLastStep(step) && trigger(FieldsOrEmpty(Steps[step])))
    ensures !IsFirstStep(step) && EnterAsWritten(step, trigger) != step + 2 ==> EnterAsWritten(step, trigger) == step
  {
    if !IsFirstStep(step) { NextRouting(step, trigger); }
  }

  /** One event, then the rest. */
  lemma RunAsWrittenCons(step: int, e: Event, rest: seq<Event>)
    ensures RunAsWritten(step, [e] + rest) == RunAsWritten(ApplyAsWritten(step, e), rest)
  {
    assert ([e] + rest)[0] == e;
    assert ([e] + rest)[1..] == rest;
  }

  /** As written, the step leaves the table: Enter with the "Next" button focused on the
      fourth question, once its answer validates, makes the step 6, and `steps[6]` does
      not exist. A run the page offers gets there from the introduction: "Get started",
      "Next" on a valid first answer, then Enter on the second question and on the
      fourth. */
  lemma EnterAsWrittenLeavesTable(trigger: Validator)
    requires trigger([AboutUs])
    ensures RunAsWritten(4, [EnterInForm(trigger)]) == TotalSteps
    ensures !ValidStep(RunAsWritten(4, [EnterInForm(trigger)]))
    ensures trigger([Quality]) && trigger([Like]) ==>
      RunAsWritten(0, [Next(trigger), Next(trigger), EnterInForm(trigger), EnterInForm(trigger)]) == TotalSteps
  {
    NextRouting(4, trigger);
    assert Steps[4] == Some([AboutUs]);
    assert ApplyAsWritten(4, EnterInForm(trigger)) == 6;
    RunAsWrittenCons(4, EnterInForm(trigger), []);
    assert [EnterInForm(trigger)] + [] == [EnterInForm(trigger)];
    if trigger([Quality]) && trigger([Like]) {
      NextRouting(1, trigger);
      NextRouting(2, trigger);
      assert Steps[1] == Some([Quality]) && Steps[2] == Some([Like]);
      var n, en := Next(trigger), EnterInForm(trigger);
      assert ApplyAsWritten(0, n) == 1 && ApplyAsWritten(1, n) == 2 && ApplyAsWritten(2, en) == 4;
      RunAsWrittenCons(0, n, [n, en, en]);
      RunAsWrittenCons(1, n, [en, en]);
      RunAsWrittenCons(2, en, [en]);
      assert [n, n, en, en] == [n] + [n, en, en];
      assert [n, en, en] == [n] + [en, en];
      assert [en, en] == [en] + [en];
    }
  }

  /** As written, whatever happens the step never goes below the introduction nor past
      one beyond the table, the value at which rendering throws. */
  lemma {:induction false} StepAsWrittenBounds(es: seq<Event>)
    ensures 0 <= RunAsWritten(0, es) <= TotalSteps
  {
    var inv := (t: int) => 0 <= t <= TotalSteps;
    forall t, e | inv(t)
      ensures inv(ApplyAsWritten(t, e))
    {
      if ValidStep(t) {
        match e
        case EnterInForm(trigger) =>
          if !IsFirstStep(t) {
            NextRouting(t, trigger);
            assert t <= 4 ==> EnterAsWritten(t, trigger) <= t + 2;
          }
        case Next(trigger) =>
          if !IsFirstStep(t) { NextRouting(t, trigger); }
        case Submit(trigger) =>
          if !IsFirstStep(t) && !IsLastStep(t) { NextRouting(t, trigger); }
        case Back =>
      }
    }
    Transitions.RunPreserves(ApplyAsWritten, inv, 0, es);
  }

  // ---------------------------------------------------------------- progress circles

  datatype Mark = Check | Number(n: nat)

  datatype Circle = Circle(filled: bool, mark: Mark)

  /** The bar is rendered only after the introduction. */
  predicate ProgressShown(step: int) { step > 0 }

  /** The `count` circles of `ProgressBar` at `step`: circle `i` is filled from step
      `i + 1` on and shows a check once the step has moved past it. */
  function Circles(step: int, count: nat): (cs: seq<Circle>)
    ensures |cs| == count
  {
    seq(count, i requires 0 <= i < count => Circle(step >= i + 1, if step > i + 1 then Check else Number(i + 1)))
  }

  function ProgressCircles(step: int): seq<Circle> {
    Circles(step, TotalSteps - 1)
  }

  function CountFilled(cs: seq<Circle>): nat {
    if |cs| == 0 then 0 else CountFilled(cs[..|cs| - 1]) + (if cs[|cs| - 1].filled then 1 else 0)
  }

  function CountChecks(cs: seq<Circle>): nat {
    if |cs| == 0 then 0 else CountChecks(cs[..|cs| - 1]) + (if cs[|cs| - 1].mark == Check then 1 else 0)
  }

  function Clamp(x: int, hi: nat): nat {
    if x < 0 then 0 else if x > hi then hi else x
  }

  lemma {:induction false} CircleCounts(step: int, count: nat)
    ensures CountFilled(Circles(step, count)) == Clamp(step, count)
    ensures CountChecks(Circles(step, count)) == Clamp(step - 1, count)
    decreases count
  {
    if count > 0 {
      var cs := Circles(step, count);
      assert cs[..count - 1] == Circles(step, count - 1);
      CircleCounts(step, count - 1);
    }
  }

  /** On question `step` (1..5): exactly `step` circles are filled and `step - 1` show a
      check; the current question's circle is filled and shows its number; no circle
      past it is filled. */
  lemma ProgressCirclesTrackStep(step: int)
    requires ValidStep(step) && ProgressShown(step)
    ensures |ProgressCircles(step)| == TotalSteps - 1
    ensures CountFilled(ProgressCircles(step)) == step
    ensures CountChecks(ProgressCircles(step)) == step - 1
    ensures ProgressCircles(step)[step - 1] == Circle(true, Number(step))
    ensures forall i :: step <= i < TotalSteps - 1 ==> !ProgressCircles(step)[i].filled
  {
    CircleCounts(step, TotalSteps - 1);
  }

  // ---------------------------------------------------------------- multi-select

  /** `selectedValues.filter(val => val !== v)`. */
  function Remove(xs: seq<string>, v: string): (r: seq<string>)
    ensures v !in r
    ensures forall x :: x != v ==> multiset(r)[x] == multiset(xs)[x]
    ensures v !in xs ==> r == xs
  {
    if |xs| == 0 then []
    else
      assert xs == [xs[0]] + xs[1..];
      (if xs[0] == v then [] else [xs[0]]) + Remove(xs[1..], v)
  }

  /** The click on the button of value `v`: drop every occurrence when selected
      (`indexOf(v) !== -1`), otherwise append it. */
  function Toggle(selected: seq<string>, v: string): seq<string> {
    if v in selected then Remove(selected, v) else selected + [v]
  }

  /** A toggle flips the membership of its own value and leaves the count of every
      other value unchanged. */
  lemma ToggleFlipsOnlyItsValue(selected: seq<string>, v: string)
    ensures v in Toggle(selected, v) <==> v !in selected
    ensures forall x :: x != v ==> multiset(Toggle(selected, v))[x] == multiset(selected)[x]
  {
  }

  /** Toggling an unselected value twice restores the list; toggling a selected one
      twice leaves a single copy of it, moved to the end. */
  lemma ToggleTwice(selected: seq<string>, v: string)
    ensures v !in selected ==> Toggle(Toggle(selected, v), v) == selected
    ensures v in selected ==> Toggle(Toggle(selected, v), v) == Remove(selected, v) + [v]
  {
    if v !in selected {
      assert v in selected + [v];
      RemoveAppend(selected, v);
    }
  }

  lemma {:induction false} RemoveAppend(xs: seq<string>, v: string)
    requires v !in xs
    ensures Remove(xs + [v], v) == xs
    decreases |xs|
  {
    if |xs| == 0 {
      assert Remove([v], v) == [] + Remove([], v);
    } else {
      assert (xs + [v])[0] == xs[0];
      assert (xs + [v])[1..] == xs[1..] + [v];
      RemoveAppend(xs[1..], v);
      assert xs == [xs[0]] + xs[1..];
    }
  }

  // ---------------------------------------------------------------- quality scale

  /** The ten rating buttons' values, `(index + 1).toString()`. */
  const QualityValues: seq<string> := seq(10, i requires 0 <= i < 10 => Show(i + 1))

  /** The buttons read "1" to "10", each value reads back as its rating, and no two
      buttons share a value. */
  lemma QualityScale()
    ensures |QualityValues| == 10
    ensures QualityValues[0] == "1" && QualityValues[9] == "10"
    ensures forall i :: 0 <= i < 10 ==> Value(QualityValues[i]) == i + 1
    ensures forall i, j :: 0 <= i < j < 10 ==> QualityValues[i] != QualityValues[j]
  {
    forall i | 0 <= i < 10
      ensures Value(QualityValues[i]) == i + 1
    {
      ValueOfShow(i + 1);
    }
    forall i, j | 0 <= i < j < 10
      ensures QualityValues[i] != QualityValues[j]
    {
      ShowInjective(i + 1, j + 1);
    }
  }
}
