# Course progress and exercise grading, modelled in Dafny

This project models the two pieces of domain logic in the course-learning
front end: the exercise widget, which grades a submitted answer and guards
submission with a small state machine, and the dashboard's progress tracker,
which keeps the list of completed lesson-item ids in step with the remote
`user_progress` row.

- `wrappers.dfy` (module `Wrappers`): the `Option` datatype.
- `jstext.dfy` (module `JsText`): models of the JavaScript built-ins the
  widget reads text with. `String.prototype.trim` strips ECMAScript white
  space and line terminators. `parseFloat` reads decimal text as an exact
  `real`, and NaN is `None`.
- `exercise.dfy` (module `Exercises`): grading (`Evaluate`), the inserted
  attempt record (`MakeAttempt`), the `canSubmit` rule, the button and input
  disabling conditions, and the class `ExerciseInstance`. Its fields are
  `selectedAnswer`, `numericAnswer`, `isSubmitted`, `isCorrect` and
  `isSubmitting`, plus `inFlight`, the attempt whose insert is being awaited.
  `handleSubmit` has an `await` in the middle, so it is split into
  `BeginSubmit` (up to the insert) and `CompleteSubmit(insertOk)` (the reply,
  then the `finally`). `PressSubmit` is a button press: both halves, run only
  when the button is enabled. The phases are Unanswered, Submitting and
  Answered(correct). `Valid()` is the invariant every method keeps.
- `progress.dfy` (module `Progress`): the pure list toggle (`Toggled`, built
  on the `filter` model `RemoveAll`), the percentage (`PercentOf`), and how a
  load reply is read (`AfterLoad`, `Normalised`). The class
  `ProgressTracker` holds `completedItems`. Its methods are
  `ToggleItemCompletion`, `OnAttemptSubmitted` (the add-only callback) and
  `LoadUserProgress`. `SubmitFromLesson` wires one exercise card to the
  tracker the way the lesson tab does.

The signed-in user, the loaded course and the outcome of each remote call are
parameters: `hasUser`, `hasCourse`, `insertOk`, `upsertOk` and a `LoadReply`.
An error reply and a thrown exception lead to the same state, so a single
`false` stands for both.

Three behaviours of the code that a reader might not expect, and that the
model keeps:
- Completed items form a list, not a set. A toggle appends a missing id and
  removes every copy of a present one. So toggling twice gives back the
  original list only when the id was absent at first. When it was present,
  the result is equal to the original as a set, and the id has moved to the
  end (`ToggleTwiceReorders`).
- The tolerance fallback is `tolerance || 1e-3`, so an explicit zero counts
  as no tolerance.
- For the "not found" reply the code does not reset anything to empty. It
  goes on to read the row, and since there is none, the list stays as it
  was.

## Model

| member | source | states |
|---|---|---|
| `Progress.RemoveAll` | src/pages/Dashboard.tsx:193 | the filtered list holds no copy of the id, holds every other id of the input and nothing else, and is no longer than the input |
| `Progress.RemoveAllAppend` | src/pages/Dashboard.tsx:193 | filtering distributes over concatenation, so the kept elements stay in their original order |
| `Progress.RemoveAllAbsent` | src/pages/Dashboard.tsx:193 | filtering out an id that is not in the list returns the list unchanged |
| `Progress.RemoveAllMultiset` | src/pages/Dashboard.tsx:193 | exactly the copies of the id are removed; every other id keeps its multiplicity |
| `Progress.Toggled` | src/pages/Dashboard.tsx:191-194 | the id is in the new list iff it was not in the old one; other ids keep their membership; an absent id is appended at the end |
| `Progress.ToggledAsSet` | src/pages/Dashboard.tsx:191-194 | as a set of ids, a toggle takes the symmetric difference with the id |
| `Progress.ToggleTwiceAbsent` | src/pages/Dashboard.tsx:191-194 | toggling an absent id twice returns exactly the original list |
| `Progress.ToggleTwicePresent` | src/pages/Dashboard.tsx:191-194 | toggling a present id twice returns the original membership, with the id last |
| `Progress.ToggleTwiceReorders` | src/pages/Dashboard.tsx:191-194 | counterexample to list identity: toggling "a" twice in ["a","b"] gives ["b","a"] |
| `Progress.ToggledDistinct` | src/pages/Dashboard.tsx:191-194 | toggling a duplicate-free list keeps it duplicate-free |
| `Progress.PercentOf` | src/pages/Dashboard.tsx:238-241 | 0 without lesson items; otherwise the integer r with 2rt <= 200c + t < 2(r+1)t, i.e. Math.round of 100c/t |
| `Progress.PercentIsRoundedRatio` | src/pages/Dashboard.tsx:240 | the percentage lies within half a point of the exact ratio 100·c/t over the reals, with ties rounded up |
| `Progress.PercentBounded` | src/pages/Dashboard.tsx:238-241 | with completed <= total the percentage is at most 100, and exactly 100 when all items are completed |
| `Progress.Normalised` | src/pages/Dashboard.tsx:178-180 | an array is kept as it is; any non-array value becomes the empty list |
| `Progress.Replaces` | src/pages/Dashboard.tsx:171-176 | a reply replaces the list only when it has a row and no error other than not-found; a row holding an array (even an empty one) with no error always replaces it |
| `Progress.AfterLoad` | src/pages/Dashboard.tsx:171-182 | the list is replaced by the normalised row value exactly when there is no error (or the not-found code) and the row value is truthy; otherwise it is unchanged |
| `Progress.AfterLoadCases` | src/pages/Dashboard.tsx:171-182 | after a load the list is the old list, the empty list, or an array read from the row |
| `Progress.NotFoundIsNoError` | src/pages/Dashboard.tsx:171 | a reply carrying the not-found code PGRST116 has the same effect as a reply without error |
| `Progress.OtherErrorKeeps` | src/pages/Dashboard.tsx:171-185 | any other error code, and a thrown exception, leave the list unchanged |
| `Progress.AfterAttempt` | src/pages/Dashboard.tsx:287-292 | the attempt callback's rule adds the item (appending it when missing), keeps every old id, and changes nothing when the item was already completed |
| `Progress.AttemptIsIdempotent` | src/pages/Dashboard.tsx:287-292 | repeating the callback's rule is a no-op, and the list grows by at most one id |
| `Progress.ProgressTracker.constructor` | src/pages/Dashboard.tsx:69 | progress starts with no completed items |
| `Progress.ProgressTracker.ProgressPercentage` | src/pages/Dashboard.tsx:238-241 | the dashboard's percentage is `PercentOf` the number of completed ids and lesson items: 0 without lesson items, and at most 100 while no more items are completed than exist |
| `Progress.ProgressTracker.ToggleItemCompletion` | src/pages/Dashboard.tsx:188-219 | without user or course: nothing sent, nothing changed; otherwise the toggled list is sent, and it becomes the state only when the upsert succeeds |
| `Progress.ProgressTracker.OnAttemptSubmitted` | src/pages/Dashboard.tsx:287-292 | the toggle is called iff the item is not yet completed; an upsert is sent iff the toggle is called with a user and a course; the state only gains the item, and only on success |
| `Progress.ProgressTracker.LoadUserProgress` | src/pages/Dashboard.tsx:160-186 | without a user or without a course no query is made and nothing changes; otherwise the state becomes `AfterLoad` of the reply |
| `Progress.SubmitFromLesson` | src/pages/Dashboard.tsx:284-293 | a recorded attempt (right or wrong) on an item not yet completed makes exactly one toggle call, which appends the item if the upsert succeeds; an already completed item gets none, and so does a press while the card is still submitting; the typed answers are unchanged, and a recorded attempt leaves the card answered with `isCorrect` the grade of its answer, while an answered card keeps its grade |
| `Progress.SubmitTwiceFromLesson` | src/components/ExerciseComponent.tsx:176 | once a first press on a card has recorded an attempt, the card is answered and a second press makes no toggle call |
| `Exercises.EffectiveTolerance` | src/components/ExerciseComponent.tsx:55 | the tolerance in force is the given one when it is present and non-zero, and 0.001 when it is absent or zero |
| `Exercises.WithinTolerance` | src/components/ExerciseComponent.tsx:57 | the absolute-difference test holds iff both numbers are present (not NaN) and the user's value lies in the closed interval [expected − tol, expected + tol] |
| `Exercises.ZeroToleranceIsDefault` | src/components/ExerciseComponent.tsx:55 | an explicit zero tolerance is indistinguishable from an absent one |
| `Exercises.Evaluate` | src/components/ExerciseComponent.tsx:49-58 | multiple choice: correct iff the selection equals the answer exactly; numeric: correct iff both texts parse and the user's value lies in the closed interval [expected − tol, expected + tol] |
| `Exercises.UnparsableIsIncorrect` | src/components/ExerciseComponent.tsx:54-57 | a numeric answer without any digit (empty, "abc") is never correct |
| `Exercises.CanonicalAnswerIsCorrect` | src/components/ExerciseComponent.tsx:54-57 | entering the canonical answer text is correct when it parses and the tolerance is not negative |
| `Exercises.NegativeToleranceRejectsAll` | src/components/ExerciseComponent.tsx:55-57 | a negative tolerance is truthy and used as is, so no numeric answer can be correct |
| `Exercises.McqExample` | src/components/ExerciseComponent.tsx:51-52 | with answer "B", "B" is correct and "b" is not: no case folding |
| `Exercises.ToleranceBoundaryExample` | src/components/ExerciseComponent.tsx:54-57 | grading the texts: with tolerance 0.01 and answer "3.14", the text "3.15" is correct (inclusive bound) and "3.16" is not |
| `Exercises.DefaultToleranceExample` | src/components/ExerciseComponent.tsx:54-57 | grading the texts: with answer "10" and no tolerance, "10.0009" is correct and "10.002" is not; with an explicit zero tolerance, "10.0005" is still correct |
| `Exercises.ExampleReadings` | src/components/ExerciseComponent.tsx:54-56 | `parseFloat` reads each example text ("3.14", "10.0009", …) as the number it denotes |
| `Exercises.MakeAttempt` | src/components/ExerciseComponent.tsx:48-68 | the attempt carries the user and exercise ids, the raw selection or the parsed number as its value, and `is_correct` equal to the grade |
| `Exercises.AttemptIsConsistent` | src/components/ExerciseComponent.tsx:48-68 | grading the stored value again gives the stored `is_correct` |
| `Exercises.HasAnswer` | src/components/ExerciseComponent.tsx:102 | `canSubmit`: for multiple choice iff an option is selected; for a numeric exercise iff the text has a character that is not white space |
| `Exercises.ExerciseInstance.Phase` | src/components/ExerciseComponent.tsx:32-34 | the three flags read as exactly one phase: Unanswered, Submitting, or Answered carrying the stored correctness |
| `Exercises.ExerciseInstance.SubmitButtonEnabled` | src/components/ExerciseComponent.tsx:176 | the button is enabled only while the instance is neither answered nor submitting |
| `Exercises.ExerciseInstance.InputsDisabled` | src/components/ExerciseComponent.tsx:120-146 | the radio group and the numeric input are disabled exactly in the Answered phase, and then the submit button is disabled too |
| `Exercises.ExerciseInstance.constructor` | src/components/ExerciseComponent.tsx:30-34 | a fresh widget is Unanswered with empty answers and no insert in flight |
| `Exercises.ExerciseInstance.SelectOption` | src/components/ExerciseComponent.tsx:120-123 | picking an option sets the selection, except once answered (radio group disabled); nothing else changes |
| `Exercises.ExerciseInstance.EditNumeric` | src/components/ExerciseComponent.tsx:143-146 | typing sets the numeric text, except once answered (input disabled); nothing else changes |
| `Exercises.ExerciseInstance.BeginSubmit` | src/components/ExerciseComponent.tsx:36-68 | without a user nothing changes and nothing is inserted; otherwise the graded attempt is sent and the instance is Submitting |
| `Exercises.ExerciseInstance.CompleteSubmit` | src/components/ExerciseComponent.tsx:70-99 | on success the instance is Answered with the computed correctness and the callback runs once; on failure the answered flags are unchanged and no callback runs; submitting always ends |
| `Exercises.ExerciseInstance.PressSubmit` | src/components/ExerciseComponent.tsx:174-177 | a press while disabled changes nothing: while an earlier insert is awaited nothing is sent and no field changes, and once answered the answer stays; an enabled press with a user sends the graded attempt, then either answers the instance or returns it to Unanswered for a retry |
| `JsText.TrimStart` | src/components/ExerciseComponent.tsx:102 | the result is a suffix of the text that does not start with white space; everything dropped is white space |
| `JsText.TrimEnd` | src/components/ExerciseComponent.tsx:102 | the result is a prefix of the text that does not end with white space; everything dropped is white space |
| `JsText.Trim` | src/components/ExerciseComponent.tsx:102 | `trim` returns a text no longer than the input that neither starts nor ends with white space, and is empty iff every character is white space |
| `JsText.ParseNatText` | src/components/ExerciseComponent.tsx:54-56 | `parseFloat` reads every natural number's decimal text back as that number |
| `JsText.ParseFloat` | src/components/ExerciseComponent.tsx:47-56 | `parseFloat` of a text with no decimal digit (the empty answer, "abc") is NaN |
| `JsText.ParseDecimal` | src/components/ExerciseComponent.tsx:47-56 | `parseFloat` reads digits '.' digits as the whole part plus the fraction digits' value over the matching power of ten |
| `JsText.ParseSkipsSpace` | src/components/ExerciseComponent.tsx:54-56 | leading white space does not change the parsed value |

## Left out

- `src/components/MarkdownRenderer.tsx`: a styling wrapper around foreign markdown and math-rendering libraries, with no logic of its own.
- All rendering: tabs, cards, icons, badges, the syllabus separator and the toasts. Console logging is left out too. These outputs are fire-and-forget and do not change state.
- `loadCourseData` and every query: the remote store is reduced to the outcome of each call (`insertOk`, `upsertOk`, `LoadReply`). The number of lesson items is a parameter of the percentage.
- The auth provider: it is reduced to `hasUser` and a `userId`. The loaded course is reduced to `hasCourse`.
- Asynchronous interleaving: the model runs each handler to completion. It does not capture the stale-list race under rapid toggles, or the fact that `loadUserProgress` runs before the course is set, so its guard fires on first load. Only the widget's insert is split into two steps, to expose the Submitting phase.
- Exercises.ExerciseInstance.BeginSubmit: requires that no submission is in flight and the instance is not answered. Only the submit button calls `handleSubmit`, and it is disabled in both of those states. `PressSubmit`, the button press, takes every state and does nothing in those two.
- Exercises.ExerciseInstance.SelectOption: requires the picked value to be one of the exercise's options, because the radio group offers nothing else.
- JsText.ParseFloat: reads decimal text only (optional sign, digits, point, digits, with the rest ignored). It does not model exponents (`1e3`), `Infinity` or negative zero, and does not round to the nearest double.
- IEEE-754 arithmetic: numbers are exact reals. So a grade on the tolerance bound can differ from the program's: with answer "1.0", tolerance 0.1 and text "1.1", the double difference is 0.10000000000000009 and the program rejects, while the model accepts (likewise "3.14" against "3.13" with tolerance 0.01).
- Progress.PercentOf: the percentage is exact integer rounding of 100c/t, with halves rounded up; the program rounds the double `(c/t)*100`, so for 29 of 200 items it shows `Math.round(14.499999999999998)` = 14 where `PercentOf(29, 200)` is 15.
- Exercises.ExerciseInstance.CompleteSubmit: counts the `onAttemptSubmitted` callback on success as if the optional prop were always passed, which it is at the widget's only use on the dashboard.
- Exercises.EffectiveTolerance: a NaN tolerance, which is also falsy, cannot be represented (the tolerance is an `Option<real>`).
- Stored values: `completed_items` array elements are taken to be strings, since the source casts them unchecked. The exercise's `answer` is taken to be a string.
