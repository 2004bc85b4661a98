/** MultiForm18: a four-step form over a ten-field schema. The step index selects which
    fields are shown and validated; "Next" validates the current step's fields and moves
    on, "Back" moves back, and on the last step the submit button submits the whole form
    instead of advancing.

    The validation library is an oracle: `trigger(fields)` says whether `form.trigger`
    resolves true for those fields with the current values; `handleSubmit` validates the
    whole schema, so it calls `onSubmit` exactly when `trigger(SchemaFields)` holds. */
module Multiform18 {
  import opened Decimal
  import Transitions

  datatype Field =
    | Name | Email | ServiceType | Budget | AboutProject
    | CompanyName | Employees | Website | Country | Date

  /** The fields of the schema, in declaration order. */
  const SchemaFields: seq<Field> :=
    [Name, Email, ServiceType, Budget, AboutProject, CompanyName, Employees, Website, Country, Date]

  /** The `steps` table: the fields each step shows and validates. */
  const Steps: seq<seq<Field>> :=
    [[Name, Email], [ServiceType, Budget, AboutProject], [CompanyName, Employees, Website], [Country, Date]]

  const TotalSteps: nat := |Steps|

  type Validator = seq<Field> -> bool

  predicate ValidStep(step: int) { 0 <= step < TotalSteps }

  predicate IsFirstStep(step: int) { step == 0 }

  predicate IsLastStep(step: int) { step == TotalSteps - 1 }

  /** `handleNext`: advance when the current step's fields validate. */
  function HandleNext(step: int, trigger: Validator): int
    requires ValidStep(step)
  {
    if trigger(Steps[step]) then step + 1 else step
  }

  /** `handlePrev`: go back unless on the first step. */
  function HandlePrev(step: int): int {
    if !IsFirstStep(step) then step - 1 else step
  }

  /** The new step and whether `onSubmit` ran. */
  datatype Outcome = Outcome(step: int, submitted: bool)

  /** The form's `onSubmit` handler: `handleNext` before the last step, a submission of
      the whole form on it. */
  function OnSubmit(step: int, trigger: Validator): Outcome
    requires ValidStep(step)
  {
    if !IsLastStep(step) then Outcome(HandleNext(step, trigger), false)
    else Outcome(step, trigger(SchemaFields))
  }

  /** The secondary button's click handler. */
  function OnSecondaryClick(step: int): int {
    if !IsFirstStep(step) then HandlePrev(step) else step
  }

  function SecondaryLabel(step: int): string {
    if IsFirstStep(step) then "Cancel" else "Back"
  }

  function PrimaryLabel(step: int): string {
    if IsLastStep(step) then "Get started" else "Next"
  }

  /** `ProgressBar`: the width of the bar in percent and the caption. */
  function ProgressPercent(step: int): real {
    (step as real / TotalSteps as real) * 100.0
  }

  function ProgressLabel(step: nat): string {
    "Step " + Show(step + 1) + "/" + Show(TotalSteps)
  }

  datatype Event = Submit(trigger: Validator) | SecondaryClick

  function Apply(step: int, e: Event): int {
    match e
    case SecondaryClick => OnSecondaryClick(step)
    case Submit(trigger) => if ValidStep(step) then OnSubmit(step, trigger).step else step
  }

  function Run(step: int, es: seq<Event>): int {
    Transitions.Run(Apply, step, es)
  }

  /** The step each field is asked on, read off the step components. */
  function StepOf(f: Field): nat {
    match f
    case Name | Email => 0
    case ServiceType | Budget | AboutProject => 1
    case CompanyName | Employees | Website => 2
    case Country | Date => 3
  }

  /** The four steps' field lists, concatenated, are the ten schema fields in order, and
      every field belongs to exactly one step: the one its form field is rendered on. */
  lemma StepsPartitionSchema()
    ensures Steps[0] + Steps[1] + Steps[2] + Steps[3] == SchemaFields
    ensures forall f: Field :: StepOf(f) < TotalSteps && f in Steps[StepOf(f)]
    ensures forall f: Field, i :: 0 <= i < TotalSteps ==> (f in Steps[i] <==> i == StepOf(f))
  {
  }

  /** Submitting either validates and advances by one (before the last step), or stays
      put; the form is submitted only from the last step and only when the whole form
      validates; the step stays within the table. */
  lemma SubmitRouting(step: int, trigger: Validator)
    requires ValidStep(step)
    ensures var r := OnSubmit(step, trigger);
      && ValidStep(r.step)
      && (r.step == step + 1 <==> !IsLastStep(step) && trigger(Steps[step]))
      && (r.step != step + 1 ==> r.step == step)
      && (r.submitted <==> IsLastStep(step) && trigger(SchemaFields))
  {
  }

  /** Back moves exactly one step back when its label reads "Back", and does nothing
      when it reads "Cancel"; the primary button reads "Get started" exactly where
      submitting submits instead of advancing. */
  lemma ButtonsMatchBehaviour(step: int, trigger: Validator)
    requires ValidStep(step)
    ensures SecondaryLabel(step) == "Back" <==> OnSecondaryClick(step) == step - 1
    ensures SecondaryLabel(step) == "Cancel" <==> OnSecondaryClick(step) == step
    ensures PrimaryLabel(step) == "Get started" ==> OnSubmit(step, trigger).step == step
    ensures PrimaryLabel(step) == "Next" ==> !OnSubmit(step, trigger).submitted
    ensures ValidStep(OnSecondaryClick(step))
  {
  }

  /** Whatever the user does and whatever validation says, the step index stays within
      the four steps: it never passes the last step. */
  lemma {:induction false} StepAlwaysInRange(es: seq<Event>)
    ensures ValidStep(Run(0, es))
  {
    forall t, e | ValidStep(t)
      ensures ValidStep(Apply(t, e))
    {
      if e.Submit? { SubmitRouting(t, e.trigger); }
    }
    Transitions.RunPreserves(Apply, ValidStep, 0, es);
  }

  /** The bar fills a quarter per completed step: 0 % on the first step, 75 % on the
      last, so never 100 %; the caption counts steps from one. */
  lemma ProgressBarShape(step: int)
    requires ValidStep(step)
    ensures ProgressPercent(step) == 25.0 * step as real
    ensures ProgressPercent(step) == 0.0 <==> IsFirstStep(step)
    ensures IsLastStep(step) ==> ProgressPercent(step) == 75.0
    ensures ProgressPercent(step) < 100.0
    ensures ProgressLabel(step) == "Step " + [DigitChar(step + 1)] + "/4"
  {
  }

  /** Advancing one step widens the bar by exactly a quarter. */
  lemma ProgressIncreasesWithStep(step: int, trigger: Validator)
    requires ValidStep(step)
    ensures var next := OnSubmit(step, trigger).step;
      next != step ==> ProgressPercent(next) == ProgressPercent(step) + 25.0
  {
  }
}
