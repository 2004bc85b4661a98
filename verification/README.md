# cms-template: the behaviour behind the Relume components and the block generator

A Dafny model of the logic in the cms-template repository, a PayloadCMS site built from
Relume components. The logic in those components, the hero dispatcher and the block
generator script is modelled as follows.

- **Loaders.** `Loader4` and `Loader5` are percentage loaders. Progress is a counter that
  a repeating timer raises by one up to 100, with the delay from `getInterval`. Then
  comes the exit: `Loader5` has two phases, content first, then the panel. `Loader2`
  steps through four words and exits after the last. Timers are discrete events (`Tick`,
  `ExitClock(ms)`).
- **Multi-step forms.** In `MultiForm18` and `MultiForm36`, the step index moves through
  a `steps` table. "Next" advances only when validation passes, and the last step submits
  instead of advancing. `MultiForm36` also has an introduction step that skips
  validation, progress circles, and a multi-select toggle. Its document-wide Enter
  listener calls `handleNext`. A press of Enter inside the form also submits the form,
  so `handleNext` runs twice on the same step. Validation (`form.trigger`,
  `handleSubmit`) is an oracle `seq<Field> -> bool`.
- **Directional hover** (`Portfolio20` and `cta37`, which carry identical code).
  `getDirection` normalises the pointer angle and buckets it into four sectors. The
  inverse translations cancel the image variants' offsets. The `hoveredIndex` state
  decides which items fade, and a two-digit index label is printed in front of each
  item. The angle is a `real` input in degrees: `Math.atan2` is not modelled.
- **Visibility predicates.** `Portfolio22` shows every image until a link is hovered.
  Its leave handler never resets. `Portfolio18` applies the `shouldBeVisible` rule over
  the sections' in-view flags.
- **`RenderHero`.** A hero block's `type` is looked up in the `heroes` table. A missing
  block, a missing type, or "none" render nothing. The lookup is a property read on a
  plain object, so it finds the table's own key and also the names inherited from
  `Object.prototype` (`constructor`, `toString`, `__proto__`, …). Any other type renders
  nothing.
- **The block generator** (`scripts/generate-blocks.mjs`), covering:
  - the category and slug of a block name;
  - the parsing of the pasted answer: two fenced blocks, plus further `.tsx` client
    blocks found by a global regular expression;
  - the marker regular expressions used by `String.prototype.replace` to register a
    block in `RenderBlocks.tsx` and in the pages collection;
  - `processBlockWithAI` for one block name, over a file system given as a map from
    paths to contents.

  The regular expressions are modelled as predicates over positions, describing which
  match they produce. The searches are proved to find the leftmost match, and the
  replacement template follows ECMAScript's GetSubstitution.

Modules: `Wrappers`, `Text` (JavaScript white space, `trim`, `indexOf`), `Decimal`
(`Number#toString`), `Transitions` (runs of event sequences), `LoaderTiming`, `Loader4`,
`Loader5`, `Loader2`, `Multiform18`, `Multiform36`, `PointerDirection`, `HoverIndex`,
`Portfolio22`, `Portfolio18`, `RenderHero`, `BlockGenerator`, `TsxBlocks`, `Markers`,
`BlockRegistry`.

## Model

| member | source | states |
|---|---|---|
| LoaderTiming.Interval | relume/Loader/Loader4/component.tsx:25-33 | no contract; characterised by `LoaderTiming.IntervalShape`, `LoaderTiming.IntervalMonotone` and `LoaderTiming.IntervalBounded` |
| LoaderTiming.TickStepsByOne | relume/Loader/Loader4/component.tsx:41-42 | a tick raises progress by exactly one below 100 and never past 100; it raises it iff progress is below 100 |
| LoaderTiming.IntervalShape | relume/Loader/Loader4/component.tsx:25-33 | the interval is `baseSpeed` up to 70, the quadratic ramp from 70 on (the branches agree at 70), and `maxSlowdown` at 100 |
| LoaderTiming.DefaultIntervals | relume/Loader/Loader4/component.tsx:11-32 | with the default speeds: 40 ms for every progress up to 70, 60 ms at 85, 120 ms at 100 |
| LoaderTiming.IntervalMonotone | relume/Loader/Loader4/component.tsx:25-33 | when `maxSlowdown >= baseSpeed` the interval never decreases as progress grows |
| LoaderTiming.IntervalBounded | relume/Loader/Loader5/component.tsx:26-34 | up to 100 the interval stays within `[baseSpeed, maxSlowdown]` |
| Loader4.Step | relume/Loader/Loader4/component.tsx:35-51 | no contract; characterised by `Loader4.StepPreservesValid` and `Loader4.RunTicks` |
| Loader4.StepPreservesValid | relume/Loader/Loader4/component.tsx:35-51 | one tick or exit-timer event keeps progress in 0..100 and keeps the exit flag tied to 100 and the full delay; progress never drops, exit is never undone, and 100 is terminal |
| Loader4.ExitOnlyAfterDelay | relume/Loader/Loader4/component.tsx:46-58 | after any events, `isExiting` implies progress 100 and `exitDelay` ms waited, and below 100 the bar is rendered |
| Loader4.RunTicks | relume/Loader/Loader4/component.tsx:35-44 | `n` ticks add `n` to the progress, capped at 100, and change nothing else |
| Loader4.LoadsThenExits | relume/Loader/Loader4/component.tsx:35-51 | from the start, 99 ticks give 99 and 100 ticks give 100 without exiting; `exitDelay` more ms start the exit |
| Loader5.Step | relume/Loader/Loader5/component.tsx:36-53 | no contract; characterised by `Loader5.StepPreservesValid` and `Loader5.RunTicks` |
| Loader5.StepPreservesValid | relume/Loader/Loader5/component.tsx:36-53 | one event keeps progress in range and the content-exit flag equal to "progress is 100"; the panel exits only after the content and the delay; no flag is undone |
| Loader5.TwoPhaseExit | relume/Loader/Loader5/component.tsx:47-53 | after any events, neither flag is set below 100, `isContentExiting` holds iff progress is 100, and `isExiting` implies `isContentExiting` and the full delay |
| Loader5.RunTicks | relume/Loader/Loader5/component.tsx:36-53 | `n` ticks cap the progress at 100 and raise the content-exit flag exactly when the cap is reached |
| Loader5.LoadsThenExits | relume/Loader/Loader5/component.tsx:36-53 | the content starts exiting on the 100th tick, not before, and the panel `exitDelay` ms later |
| Loader5.DefaultConfig | relume/Loader/Loader5/component.tsx:11-15 | defaults 40 / 120 / 400 ms, threshold 70, maximum 100 |
| Loader2.Tick | relume/Loader/Loader2/component.tsx:11-19 | no contract; characterised by `Loader2.TickBehaviour` |
| Loader2.TickBehaviour | relume/Loader/Loader2/component.tsx:11-19 | a tick before the last word advances the index by one and keeps the exit flag; on the last word it keeps the index and sets the exit flag; the index stays in range |
| Loader2.TicksFromStart | relume/Loader/Loader2/component.tsx:6-34 | after `n` ticks the word shown is number `min(n, 3)`, and the panel is exiting (the word hidden) iff `n >= 4` |
| Multiform18.StepsPartitionSchema | relume/MultistepForms/Multiform18/component.tsx:94-99 | the four steps' field lists, concatenated, are the ten schema fields; each field is in exactly one step |
| Multiform18.HandleNext | relume/MultistepForms/Multiform18/component.tsx:105-110 | no contract; characterised by `Multiform18.SubmitRouting` |
| Multiform18.OnSubmit | relume/MultistepForms/Multiform18/component.tsx:126-133 | no contract; characterised by `Multiform18.SubmitRouting` |
| Multiform18.SubmitRouting | relume/MultistepForms/Multiform18/component.tsx:105-133 | submit advances by one iff it is not the last step and the step's fields validate, otherwise it stays; the form is submitted iff on the last step with the whole form valid |
| Multiform18.ButtonsMatchBehaviour | relume/MultistepForms/Multiform18/component.tsx:185-208 | "Back" moves one step back and "Cancel" does nothing; where "Get started" shows, submitting never advances, and where "Next" shows it never submits |
| Multiform18.StepAlwaysInRange | relume/MultistepForms/Multiform18/component.tsx:100-133 | after any clicks and validation results the step stays within the four steps |
| Multiform18.ProgressPercent | relume/MultistepForms/Multiform18/component.tsx:168 | no contract; characterised by `Multiform18.ProgressBarShape` and `Multiform18.ProgressIncreasesWithStep` |
| Multiform18.ProgressBarShape | relume/MultistepForms/Multiform18/component.tsx:162-183 | the width is 25 % per step: 0 only on the first, 75 on the last, never 100; the caption is "Step k/4" |
| Multiform18.ProgressIncreasesWithStep | relume/MultistepForms/Multiform18/component.tsx:105-110 | a step that advances widens the bar by exactly 25 % |
| Multiform36.StepTable | relume/MultistepForms/Multiform36/component.tsx:60-67 | six steps; only the introduction has no fields; question `i` asks the `i`th schema field |
| Multiform36.IntroSkipsValidation | relume/MultistepForms/Multiform36/component.tsx:73-78 | from the introduction, next and submit both advance to step 1 whatever validation says |
| Multiform36.NextRouting | relume/MultistepForms/Multiform36/component.tsx:79-88 | on a question, `handleNext` advances iff the field validates and it is not the last; on the last it submits (if the whole form validates) and stays |
| Multiform36.PrevRouting | relume/MultistepForms/Multiform36/component.tsx:91-95 | `handlePrev` moves one back except on the introduction, where it stays |
| Multiform36.HandleNext | relume/MultistepForms/Multiform36/component.tsx:73-89 | no contract; characterised by `Multiform36.IntroSkipsValidation` and `Multiform36.NextRouting` |
| Multiform36.OnSubmit | relume/MultistepForms/Multiform36/component.tsx:115-122 | no contract; characterised by `Multiform36.OnSubmitRouting` |
| Multiform36.OnSubmitRouting | relume/MultistepForms/Multiform36/component.tsx:115-122 | before the last step the submission is exactly `handleNext`; on the last it submits iff the whole form validates and the step stays |
| Multiform36.HandlePrev | relume/MultistepForms/Multiform36/component.tsx:91-95 | no contract; characterised by `Multiform36.PrevRouting` |
| Multiform36.EnterAsWritten | relume/MultistepForms/Multiform36/component.tsx:97-122 | one Enter inside the form moves the step twice as far as one `handleNext`: the listener's call and the submission's call both start from the same rendered step |
| Multiform36.EnterAsWrittenSkips | relume/MultistepForms/Multiform36/component.tsx:97-122 | as written, one Enter on a question moves two steps on iff its field validates and it is not the last, otherwise the step stays; on the introduction, which has no field and no "Next" button, it moves one step |
| Multiform36.EnterAsWrittenLeavesTable | relume/MultistepForms/Multiform36/component.tsx:68-122 | as written, Enter on the fourth question with a valid answer makes the step 6, outside the six entries of `steps`; from the introduction, "Get started", "Next" on a valid first answer and Enter on the second and fourth questions also end at 6 |
| Multiform36.StepAsWrittenBounds | relume/MultistepForms/Multiform36/component.tsx:73-122 | as written, the step never drops below 0 and never passes 6, one beyond the table |
| Multiform36.StepAlwaysInRange | relume/MultistepForms/Multiform36/component.tsx:73-122 | with one press of Enter handled once, the step stays within the six steps after any next, Enter, submit and back events |
| Multiform36.CircleCounts | relume/MultistepForms/Multiform36/component.tsx:149-160 | of the circles at a step, the filled ones are the step number (clamped) and the checked ones one fewer |
| Multiform36.ProgressCirclesTrackStep | relume/MultistepForms/Multiform36/component.tsx:124-163 | on question `k` five circles show, `k` filled, `k - 1` checked, the current one filled with its number, none after it filled |
| Multiform36.Circles | relume/MultistepForms/Multiform36/component.tsx:149-160 | one circle per question; characterised by `Multiform36.CircleCounts` |
| Multiform36.Toggle | relume/MultistepForms/Multiform36/component.tsx:329-343 | no contract; characterised by `Multiform36.ToggleFlipsOnlyItsValue` and `Multiform36.ToggleTwice` |
| Multiform36.Remove | relume/MultistepForms/Multiform36/component.tsx:338-342 | the filter drops every copy of the value and keeps every other value's count; an absent value leaves the list alone |
| Multiform36.ToggleFlipsOnlyItsValue | relume/MultistepForms/Multiform36/component.tsx:329-343 | a toggle flips the membership of its value and keeps the count of every other value |
| Multiform36.ToggleTwice | relume/MultistepForms/Multiform36/component.tsx:329-343 | toggling an unselected value twice restores the list; a selected one ends up once, at the end |
| Multiform36.QualityScale | relume/MultistepForms/Multiform36/component.tsx:239-241 | the ten rating values are "1".."10", read back as their rating, and are pairwise distinct |
| PointerDirection.GetDirection | relume/Portfolio/Portfolio20/component.tsx:26-51 | no contract; characterised by `PointerDirection.GetDirectionMatchesQuadrant` and `PointerDirection.Boundaries` |
| PointerDirection.NormalizeRange | relume/Portfolio/Portfolio20/component.tsx:38-40 | every `atan2` angle is moved into [0, 360) by at most one whole turn |
| PointerDirection.ClassifyMatchesSectors | relume/Portfolio/Portfolio20/component.tsx:42-50 | on [0, 360) an angle lies in a sector iff that sector's direction is returned (the sectors partition the circle) |
| PointerDirection.GetDirectionMatchesQuadrant | relume/Portfolio/Portfolio20/component.tsx:26-51 | the if-chain equals counting quarter turns from -45 degrees, for every angle |
| PointerDirection.Boundaries | relume/CTA/cta37/component.tsx:41-49 | 45 is bottom, 135 left, 225 top, 315 right; 0, 90, ±180 and -90 give right, bottom, left and top |
| PointerDirection.InverseX | relume/CTA/cta37/component.tsx:83-86 | no contract; characterised by `PointerDirection.AtMostOneInverse` and `PointerDirection.InverseCancelsVariant` |
| PointerDirection.InverseY | relume/CTA/cta37/component.tsx:83-86 | no contract; characterised by `PointerDirection.AtMostOneInverse` and `PointerDirection.InverseCancelsVariant` |
| PointerDirection.ImageVariant | relume/Portfolio/Portfolio20/component.tsx:81-122 | no contract; characterised by `PointerDirection.InverseCancelsVariant` |
| PointerDirection.AtMostOneInverse | relume/CTA/cta37/component.tsx:83-86 | at most one inverse translation is non-zero; it is -50 for top and left, +50 for bottom and right, none before entering |
| PointerDirection.InverseCancelsVariant | relume/Portfolio/Portfolio20/component.tsx:81-122 | for each direction the inverse translation negates the variant's offset on its axis and is zero on the other, so the image stays on the cursor |
| HoverIndex.OnEvent | relume/CTA/cta37/component.tsx:106-124 | no contract; characterised by `HoverIndex.HoverThenLeave` |
| HoverIndex.ColourClassesExclusive | relume/Portfolio/Portfolio20/component.tsx:145-155 | exactly one colour class applies; an item is dimmed iff another item is hovered |
| HoverIndex.HoverThenLeave | relume/CTA/cta37/component.tsx:106-124 | after entering item `i` only its image shows and every other item is dimmed; after leaving, nothing shows and nothing is dimmed |
| HoverIndex.IndexLabelAsWritten | relume/Portfolio/Portfolio20/component.tsx:155 | no contract; characterised by `HoverIndex.IndexLabelAsWrittenDefects` |
| HoverIndex.IndexLabelAsWrittenDefects | relume/Portfolio/Portfolio20/component.tsx:155 | the label as written is right for items 1..9 but prints "010" for the tenth and "false11" for the eleventh |
| HoverIndex.IndexLabelReadsBack | relume/Portfolio/Portfolio20/component.tsx:155 | the corrected label is digits only, reads back as the item number, and has two digits for the first 99 items |
| HoverIndex.IndexLabelInjective | relume/Portfolio/Portfolio22/component.tsx:76 | distinct items get distinct corrected labels |
| Portfolio22.VisibilityMatchesText | relume/Portfolio/Portfolio22/component.tsx:46-51 | an image is visible iff its link is not dimmed; all are visible with nothing hovered, only the hovered one otherwise; only image 0 is on `z-0` |
| Portfolio22.OnEventAsWritten | relume/Portfolio/Portfolio22/component.tsx:31-40 | no contract; characterised by `Portfolio22.NeverResets` and `Portfolio22.LeaveCounterexample` |
| Portfolio22.NeverResets | relume/Portfolio/Portfolio22/component.tsx:31-40 | as written, once a link is hovered the index is never cleared and exactly one image stays visible whatever follows |
| Portfolio22.LeaveCounterexample | relume/Portfolio/Portfolio22/component.tsx:31-33 | hovering link 2 and leaving keeps image 1 hidden as written, and shows it with the reset |
| Portfolio22.LeaveRestoresAllImages | relume/Portfolio/Portfolio22/component.tsx:31-33 | with the reset, leaving the list after any history shows every image and dims nothing |
| Portfolio18.ShouldBeVisible | relume/Portfolio/Portfolio18/component.tsx:54-57 | no contract; characterised by `Portfolio18.VisibleIffEndsRun` and `Portfolio18.NoAdjacentVisible` |
| Portfolio18.VisibleIffEndsRun | relume/Portfolio/Portfolio18/component.tsx:54-57 | a section is visible iff it ends a run of in-view sections; `isLeavingView` never matters; the last is visible iff in view; opacity is 1 iff visible |
| Portfolio18.NoAdjacentVisible | relume/Portfolio/Portfolio18/component.tsx:54-57 | two neighbouring sections are never both visible |
| Portfolio18.OneBlockShowsItsLast | relume/Portfolio/Portfolio18/component.tsx:54-71 | with one block of sections in view, exactly the last of the block is visible |
| Portfolio18.NothingInViewNothingShown | relume/Portfolio/Portfolio18/component.tsx:54-57 | with no section in view, no section is visible |
| RenderHero.Lookup | src/heros/RenderHero.tsx:6-15 | the lookup yields a value iff the type is an own key or an inherited `Object.prototype` name; an own key yields its component; an inherited name only when it is no own key |
| RenderHero.Render | src/heros/RenderHero.tsx:10-20 | something renders iff the block and its type exist, the type is not "none" and the lookup finds it; the props are passed unchanged, to the table's component for an own key and to the inherited value otherwise |
| RenderHero.SelectableTypes | src/heros/config.ts:49-61 | no selectable type is an inherited name, and of "none", "postHero" and "heroheader1" only "postHero" renders |
| RenderHero.TableIsTheOnlySource | src/heros/RenderHero.tsx:11-19 | a type in the table renders its component with the props, an inherited name renders the inherited value, and any other type, a missing type or a missing block render nothing |
| Decimal.ValueOfShow | relume/MultistepForms/Multiform36/component.tsx:240 | the decimal text of `n` reads back as `n` |
| Decimal.ShowInjective | relume/MultistepForms/Multiform36/component.tsx:240 | distinct numbers print differently |
| Text.TrimOfPadded | scripts/generate-blocks.mjs:444-445 | `trim` of white space, a trimmed core and white space is that core |
| Text.TrimIdempotent | scripts/generate-blocks.mjs:431 | trimming twice is trimming once |
| Text.FindFromSome | scripts/generate-blocks.mjs:416-417 | what `indexOf` finds is the leftmost occurrence at or after the start |
| Text.FindFromNone | scripts/generate-blocks.mjs:416-417 | when `indexOf` finds nothing, the pattern occurs nowhere at or after the start |
| Text.Contains | scripts/generate-blocks.mjs:425 | `includes` holds iff the pattern occurs somewhere |
| BlockGenerator.ExtractCategory | scripts/generate-blocks.mjs:43-46 | the result is letters only; for a name starting with a letter it is the longest letter prefix, else "Layout" |
| BlockGenerator.CategoryOfName | scripts/generate-blocks.mjs:43-46 | a word of letters followed by a non-letter is the category |
| BlockGenerator.Slug | scripts/generate-blocks.mjs:537 | the slug has the name's length, no upper-case letter, letters where the name has letters, and the name's other characters unchanged |
| BlockGenerator.SlugIdempotent | scripts/generate-blocks.mjs:537 | the slug of a slug is itself |
| BlockGenerator.FindFencedMeans | scripts/generate-blocks.mjs:416-417 | the match starts at the leftmost opening tag and ends at the first fence after it; there is none iff the tag or a later fence is missing |
| BlockGenerator.ExtractFenced | scripts/generate-blocks.mjs:444-445 | the extracted content exists iff the block matches, and is trimmed |
| BlockGenerator.ExtractFencedOfBlock | scripts/generate-blocks.mjs:416-445 | a fenced block after text without its tag reads back as its trimmed body, whatever follows |
| BlockGenerator.ParseAnswer | scripts/generate-blocks.mjs:391-399 | an answer in the requested output format parses back to its trimmed config and component |
| BlockGenerator.ParseResponse | scripts/generate-blocks.mjs:412-445 | parsing succeeds iff both blocks are present; the config and component are the trimmed bodies; the client files come from the global match |
| TsxBlocks.PosUnique | scripts/generate-blocks.mjs:420 | the `.tsx` pattern matches a position in at most one way |
| TsxBlocks.MatchBounds | scripts/generate-blocks.mjs:420 | the opening, the name, the body and the fence of a match lie in the text in order |
| TsxBlocks.FindNameEnd | scripts/generate-blocks.mjs:420 | the lazy name search stops at the first `.tsx"` with no line break before it, or reports that there is none |
| TsxBlocks.MatchAt | scripts/generate-blocks.mjs:420 | trying the pattern at a position finds the match there, or none exists there |
| TsxBlocks.FirstMatchFrom | scripts/generate-blocks.mjs:427-428 | the search finds the leftmost match at or after its start, or none exists |
| TsxBlocks.Scan | scripts/generate-blocks.mjs:420 | the global match returns each leftmost match after the previous one's end, and nothing follows the last |
| TsxBlocks.ScanUnique | scripts/generate-blocks.mjs:420 | the global match of a text is unique |
| TsxBlocks.ScanOrdered | scripts/generate-blocks.mjs:420 | the matches come in order and do not overlap |
| TsxBlocks.MatchShape | scripts/generate-blocks.mjs:420 | a matched text is the opening, the name (ending in `.tsx`), the closing quote, the body and the fence |
| TsxBlocks.NameMatchInOwnText | scripts/generate-blocks.mjs:427 | in a match's own text, the name pattern first matches inside the opening and captures the same name |
| TsxBlocks.NameReadBack | scripts/generate-blocks.mjs:427-430 | the name the `.map` reads back from a match's text is the captured name |
| TsxBlocks.BodyReadBack | scripts/generate-blocks.mjs:428-431 | the content the `.map` reads back from a match's text is the captured body |
| TsxBlocks.MentionsOwnName | scripts/generate-blocks.mjs:425 | every name ends in `.tsx`, and a match named `Component.tsx` mentions `filename="Component.tsx"` and is filtered out |
| TsxBlocks.ClientFile | scripts/generate-blocks.mjs:423-435 | a match yields a file iff its text does not mention `filename="Component.tsx"` and its trimmed body is not empty; a file has a `.tsx` name other than `Component.tsx` and trimmed, non-empty content |
| TsxBlocks.ClientFiles | scripts/generate-blocks.mjs:423-435 | the files are at most as many as the matches and each is writable (a `.tsx` name other than `Component.tsx`, trimmed non-empty content); characterised further by `TsxBlocks.InteractiveFiles` |
| TsxBlocks.ClientFileOf | scripts/generate-blocks.mjs:424-434 | filtering, reading back name and content with two more searches, and filtering again gives that file |
| TsxBlocks.InteractiveFiles | scripts/generate-blocks.mjs:420-435 | the files come from the global match of the text, in order, through the chain |
| Markers.MarkerEndMeans | scripts/generate-blocks.mjs:478 | reading the marker pattern greedily finds exactly the matches the pattern has at a position |
| Markers.FindMarkerLeftmost | scripts/generate-blocks.mjs:478 | the search returns the leftmost match, and nothing iff no position matches |
| Markers.Substitute | scripts/generate-blocks.mjs:477-478 | no contract; characterised by `Markers.SubstituteLiteral` and `Markers.InsertTemplate` |
| Markers.SubstituteLiteral | scripts/generate-blocks.mjs:477-478 | a template prefix without `$` is copied unchanged |
| Markers.InsertTemplate | scripts/generate-blocks.mjs:497 | the templates `text$1` and `text$&` expand to the text followed by the match |
| Markers.ReplaceFirst | scripts/generate-blocks.mjs:478 | no contract; characterised by `Markers.ReplaceInserts`, `Markers.InsertsInsideComment` and `Markers.InsertsBeforeComment` |
| Markers.ReplaceHit | scripts/generate-blocks.mjs:478 | without a match the content is unchanged; with one, the text before and after it is kept |
| Markers.ReplaceInserts | scripts/generate-blocks.mjs:482 | the registration's replacement inserts its text just before the first match and changes nothing else |
| Markers.SlashesMissOpening | scripts/generate-blocks.mjs:478 | as written, the pattern never matches at a `/*` |
| Markers.ScriptComments | scripts/generate-blocks.mjs:478-501 | the four markers stand for `/* PLOP_IMPORTS */`, `/* PLOP_EXPORTS */`, `/* PLOP_IMPORT_BLOCK_CONFIG */` and `/* PLOP_BLOCKS */`, and no word starts with `*` |
| Markers.SlashesFindInside | scripts/generate-blocks.mjs:478-501 | as written, on the marker comment (a padded word between single spaces too) nothing matches at its `/` or `*`, and the match from the character after them ends at the comment's end |
| Markers.CommentOpenFindsComment | scripts/generate-blocks.mjs:478-501 | with `\/\*`, the pattern matches the marker comment from its `/` to its end |
| Markers.FirstInsideComment | scripts/generate-blocks.mjs:478-501 | as written, with no match before the marker comment, the search finds the match starting two characters into the comment |
| Markers.CommentOpenMatches | scripts/generate-blocks.mjs:501 | with `\/\*` every match starts at `/*`, and an unpadded match is exactly the comment |
| Markers.FirstAtComment | scripts/generate-blocks.mjs:478-501 | with `\/\*` and no match before the marker comment, the search finds exactly the comment |
| Markers.InsertsInsideComment | scripts/generate-blocks.mjs:477-501 | as written, each of the four registrations (padded markers included) puts its text after the `/*` of the marker comment, inside the comment |
| Markers.InsertsBeforeComment | scripts/generate-blocks.mjs:477-501 | with `\/\*` the text lands in front of the marker comment, for padded markers too |
| BlockRegistry.RegisterInRenderBlocks | scripts/generate-blocks.mjs:472-486 | with names free of `$`, the component import goes before the first imports marker, then the entry before the first exports marker |
| BlockRegistry.RegisterInPagesCollection | scripts/generate-blocks.mjs:491-505 | with names free of `$`, the config import goes before the first config marker, then the entry before the first blocks marker |
| BlockRegistry.RegisterWithoutMarkers | scripts/generate-blocks.mjs:496-501 | a file without the markers is written back unchanged |
| BlockRegistry.NamesWithoutDollar | scripts/generate-blocks.mjs:536-537 | the category never holds `$`, and the slug holds one iff the name does |
| BlockRegistry.PathsApart | scripts/generate-blocks.mjs:544-562 | the prompt and answer files are distinct and neither is a registry; no file of the block directory is a registry or the prompt file |
| BlockRegistry.WriteClientFiles | scripts/generate-blocks.mjs:459-464 | a path a client file went to holds the last such file's content; other paths are unchanged |
| BlockRegistry.ClientFilesApart | scripts/generate-blocks.mjs:451-461 | no client file overwrites `config.ts` or `Component.tsx` |
| BlockRegistry.WriteBlock | scripts/generate-blocks.mjs:450-464 | no contract; characterised by `BlockRegistry.GenerateWrites` and `BlockRegistry.ClientFilesApart` |
| BlockRegistry.Register | scripts/generate-blocks.mjs:578-579 | no contract; characterised by `BlockRegistry.GenerateRegisters` |
| BlockRegistry.GenerateKeeps | scripts/generate-blocks.mjs:544-579 | generating a block changes no path besides the prompt, the block's files and the two registries |
| BlockRegistry.GenerateWrites | scripts/generate-blocks.mjs:447-465 | after generating, `config.ts`, `Component.tsx` and each client file hold what was written last to them, and the prompt file holds the prompt |
| BlockRegistry.GenerateRegisters | scripts/generate-blocks.mjs:578-579 | after generating, both registries hold their registered content |
| BlockRegistry.ProcessBlock | scripts/generate-blocks.mjs:527-583 | each outcome holds iff its condition does (component missing, answer missing, answer unparsable, a registry missing); the early returns write exactly the prompt and the raw answer and keep the registries; success writes the block, registers it and touches nothing else; a crash leaves the pages collection alone |

## Left out

- Rendering, Tailwind classes, images and buttons: only the state and conditions that
  select them are modelled.
- Timers, effects and re-render scheduling. A tick or time passing on a timer is one
  event, and the completion effect runs right after the render it causes.
- `Math.atan2` and `getBoundingClientRect`: the angle is an input in degrees.
- zod and react-hook-form: validation is an oracle. It answers at once: the `await` in
  `handleNext` is not modelled as a delay, and both calls made by one Enter see the
  same answer.
- Multiform36.StepAlwaysInRange: holds for the corrected handling of Enter (`Apply`),
  where one press moves one step. The component as written (`ApplyAsWritten`) can reach
  step 6, as `Multiform36.EnterAsWrittenLeavesTable` shows. Which presses of Enter
  submit the form depends on the browser and on the focused element: a text field, the
  "Next" button, or the untyped "Get started" button, which may submit as well as call
  `handleNext` from its click. The model covers the text-field and "Next" cases as
  `EnterInForm` and leaves the "Get started" case to `Next`.
- The floating-point widths of the progress bars are `real`s; JavaScript's rounding is
  not modelled.
- LoaderTiming.Interval: computes the delay with exact `real`s. `getInterval` computes in
  IEEE doubles, and `setInterval` truncates its delay to a whole number of
  milliseconds, so at progress 71 the model's delay of about 40.09 ms is a 40 ms timer. Only the timer
  delays are affected, never the progress values or the exit conditions.
- In the block generator:
  - logging, the git clone, the listing of available blocks, the clean-up,
    `waitForInput`, and the type regeneration and summary of `main`;
  - `createAIPrompt`, whose text is the `prompt` input;
  - reading the Relume component and the answer file, which are inputs. The component
    is `None` when it is missing or cannot be read, since `readRelumeComponent` catches
    the error. The answer is `None` only when the file does not exist;
  - `main`'s loop over block names, and its exit when `processBlockWithAI` throws (the
    `Crashed` outcome).
- BlockRegistry.ProcessBlock: an answer file that exists but cannot be read is not
  modelled. The script reads it without a `try` (scripts/generate-blocks.mjs:568), so
  the error ends the whole run through `main`'s `catch` after the prompt is written. It
  is not the `ResponseNotFound` outcome.
- Paths are strings joined with `/`. `path.join` normalisation (`..`, repeated or
  trailing slashes, a client file name containing `/`) is not modelled, so a client file
  whose name escapes the block directory is not covered.
- BlockGenerator.Slug: lower-cases ASCII letters only (`Text.ToLowerAscii`). JavaScript's
  `toLowerCase` also maps other letters, so the slug matches the script only on ASCII names.
- `Text.IsJsWhitespace`: the white space of `\s` and `trim` is given by code point;
  strings are sequences of code points, not UTF-16 units.
- Each regular expression is modelled by the match it produces. The model does not run
  a backtracking engine. Each lazy group stops at the first place where the rest can
  match, and each greedy run (`\/*`, `\s*`) cannot give back characters that would let
  the match succeed otherwise. Both follow because the next literal character of the
  pattern can never be part of the run (`Markers.WellFormed`).
- `BlockRegistry.RegisterInRenderBlocks`, `BlockRegistry.RegisterInPagesCollection`:
  the "insert before the marker" property is stated only for names without `$`. A `$`
  in the block name would be expanded by `replace`; `Markers.Substitute` models that
  expansion, but no property is stated for it.
- `BlockRegistry.ProcessBlock` takes the marker lead as a parameter. `Slashes` is the
  script as written and `CommentOpen` the corrected pattern.
- `BlockRegistry.ProcessBlock`: the `Crashed` outcome states what happened to the
  pages collection and to `RenderBlocks.tsx`. The block's files are written by then, as
  in the script, but that is not restated.
- RenderHero.Render: what React does with a value inherited from `Object.prototype`
  (a built-in function, or an object for `__proto__`) is not modelled. The model
  records only that such a value is passed on to be rendered.
- `Portfolio22`'s index label is the same expression as `Portfolio20`'s (`HoverIndex`).
- Portfolio21 and Portfolio23 (scroll keyframes), `generate-hero.mjs`, the CMS
  configuration files and the purely presentational components are not part of this
  model.

## Findings

| source | as written | input that shows it | evidently intended | confidence | as-written member | corrected member |
|---|---|---|---|---|---|---|
| scripts/generate-blocks.mjs:478 | `/(\/* PLOP_IMPORTS \*\/)/`: `\/*` is "any number of slashes", so the match of `/* PLOP_IMPORTS */` starts after the `/*`, and the import is inserted there (likewise lines 482, 497 and 501, whose `\s*` also matches the single spaces of `/* PLOP_BLOCKS */`) | `RenderBlocks.tsx` holding `/* PLOP_IMPORTS */`: the result holds `/*import { … }\n PLOP_IMPORTS */`, i.e. the import is commented out | `\/\*`: the import goes in front of the marker comment | high, not executed | Markers.InsertsInsideComment | Markers.InsertsBeforeComment |
| relume/Portfolio/Portfolio20/component.tsx:155 | `${index < 10 && "0"}${index + 1}` | index 9 prints "010" and index 10 prints "false11" | pad the number to two digits | high, not executed | HoverIndex.IndexLabelAsWrittenDefects | HoverIndex.IndexLabelReadsBack |
| relume/Portfolio/Portfolio22/component.tsx:31 | `handleMouseLeave = () => () => {…}` returns the reset and never runs it | hover link 2 and leave the list: image 1 stays hidden | leaving the list resets `hoveredIndex` to `null` | high, not executed | Portfolio22.LeaveCounterexample | Portfolio22.LeaveRestoresAllImages |
| relume/MultistepForms/Multiform36/component.tsx:97-122 | one press of Enter runs `handleNext` from the document's `keydown` listener and again from the form's `onSubmit`; both belong to the same render, and each queues `prev => prev + 1` | Enter with the "Next" button focused on the fourth question, its answer valid: the step becomes 6, and `steps[6].component` (line 68) throws | one press of Enter moves one step | medium, not executed | Multiform36.EnterAsWrittenLeavesTable | Multiform36.StepAlwaysInRange |
