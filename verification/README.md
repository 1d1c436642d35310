# Milestones tracker — a Dafny model

This project models the `Milestones` class of the hobby tracker. The class tracks one goal and an ordered list of steps toward it, plus an `isActive` flag. It has guarded transitions:

- `setGoal` and `setSteps` validate their text (not blank, at most 200 UTF-16 code units once trimmed, not already used) and store it as given;
- `generateSteps` cleans the step generator's reply, decodes it and replaces every step;
- `completeStep` completes the first step with a given description and closes the milestone once every step is complete;
- `closeMilestones` is a one-way switch from active to inactive.

The tracker is an immutable record, `Milestones.Milestone`. Every operation is a pure function from the current record to an `Outcome`. An `Outcome` is either `Returned(state, value)` or `Threw(state, error)`. A thrown error therefore still carries the tracker as the call left it. That matters for one path: `completeStep` marks its step complete before the closing call throws.

Files:

- `options.dfy`: the `Option` type.
- `js_text.dfy`: the JavaScript string primitives the class relies on. These are the whitespace class shared by `trim()` and `\s` (ECMAScript WhiteSpace and LineTerminator), `trim()`, and `length` counted in UTF-16 code units.
- `response_cleanup.dfy`: the clean-up applied to the generator's reply. Each `replace(/…/g, …)` is a single left-to-right scan that resumes after the text it replaced.
- `cleanup_examples.dfy`: worked replies. They show that the clean-up is one pass per pattern, and that a reply in the requested compact array format passes through unchanged.
- `milestones.dfy`: the state, the errors (one per distinct message) and the operations.
- `milestone_properties.dfy`: properties that relate several calls. These cover invariants kept by every call and `isActive` only ever falling. They also cover fixed runs: completing a step twice, closing twice, closing automatically when the last step completes, regeneration replacing the steps, the 200-code-unit boundary, and a goal with one manual step that is completed.

Modelling choices:

- Each `new Date()` is a `Timestamp` (a natural number) passed in as `now`.
- `JSON.parse` is a parameter `decode: string -> Option<JsonValue>`. `None` means the parse threw. `JsonArray(elements)` is an array and `JsonOther` is any other value.
- The generator's reply is an arbitrary `string` parameter.
- The accessors `getGoal`, `getSteps` and `getIsActive` are the record's fields `goal`, `steps` and `isActive`.

The model follows the code:

- The goal and step text are stored untrimmed. Only the emptiness and length checks look at the trimmed text, and the duplicate check compares the raw text exactly.
- Closing does not lock the tracker. An inactive tracker still accepts `setSteps` and `generateSteps`, and `completeStep` still marks steps on it.
- Generated descriptions are not validated at all.

## Model

| member | source | states |
|---|---|---|
| JsText.IsWhitespace | milestones.ts:44-47 | the characters `trim()` strips and `\s` matches: ECMAScript WhiteSpace and LineTerminator; none is a comma and each is a single UTF-16 code unit |
| JsText.Trim | milestones.ts:44-47 | `trim()` yields a slice of its input that starts and ends with non-whitespace, everything cut off is whitespace, and it is empty exactly when the input is all whitespace |
| JsText.CodeUnits | milestones.ts:47 | `length` is exactly the character count plus one for every character outside the Basic Multilingual Plane, so it lies between the count and twice it and equals the count for Basic Multilingual Plane text |
| Milestones.FindStep | milestones.ts:172-175 | `find` yields nothing exactly when no step has that exact description, otherwise the first step that has it |
| Milestones.ValidateItem | milestones.ts:43-54 | the item passes exactly when it is not blank, its trimmed length is at most 200 and it is neither the goal nor a step description; otherwise "Cannot be empty" for blank text (whitespace-only included), then "too long", then "Already exists", each exactly under its condition |
| Milestones.SetGoal | milestones.ts:64-69 | succeeds exactly on acceptable text, storing and returning the untrimmed input and leaving steps and `isActive` alone, even when steps exist; on failure nothing changes and the error is the validation error |
| Milestones.SetSteps | milestones.ts:150-164 | "Goal must exist" whenever the goal is empty, before any validation; otherwise succeeds exactly on acceptable text, appending one incomplete, undated step at the end with earlier steps unchanged, and returns the whole list; a failure changes nothing |
| Milestones.NewSteps | milestones.ts:129-133 | one incomplete, undated step per description, same order and count |
| Milestones.GenerateSteps | milestones.ts:79-140 | "Goal must exist" with an empty goal; "could not parse" when decoding the cleaned reply fails; "did not contain valid steps" when the decoded value is not an array or is an empty one; succeeds exactly when the decoded value is a non-empty array, then replaces the steps by one fresh step per string in order with goal and `isActive` kept; every failure leaves the tracker unchanged |
| Milestones.CloseMilestones | milestones.ts:194-199 | afterwards the tracker is always inactive with goal and steps unchanged; it throws "already not active" exactly when it was inactive already |
| Milestones.CompleteStep | milestones.ts:171-188 | "Step not found" with no change when no step has the description; "already complete" with no change when the first match is complete; otherwise exactly that step becomes complete and dated, with everything else kept; the tracker ends active only if it was and some step is still incomplete; it throws "already not active" (after marking) exactly when it was inactive and now every step is complete |
| ResponseCleanup.ReplaceNewlines | milestones.ts:112 | no line feed remains, each line feed became a space, every other character is kept in place |
| ResponseCleanup.CollapseWhitespace | milestones.ts:113 | no two neighbouring whitespace characters and only plain spaces remain, and the non-whitespace characters are exactly those of the input |
| ResponseCleanup.CollapseWhitespaceSplits | milestones.ts:113 | cutting the text just after a non-whitespace character cuts no whitespace run, so each side collapses on its own |
| ResponseCleanup.CollapseWhitespaceSeparates | milestones.ts:113 | a whitespace run between two pieces of text becomes exactly one space, never none, so neighbouring words stay apart |
| ResponseCleanup.CollapseWhitespaceKeepsSpaced | milestones.ts:113 | text already single-spaced with plain spaces is left unchanged |
| ResponseCleanup.CollapseCommaBefore | milestones.ts:114-115 | the comma passes never lengthen the text and keep whether it starts with whitespace |
| ResponseCleanup.CollapseCommaKeepsSingleSpacing | milestones.ts:114-115 | the comma passes never create two neighbouring whitespace characters |
| ResponseCleanup.CollapseCommaKeepsPlainSpaces | milestones.ts:114-115 | the comma passes introduce no whitespace other than plain spaces |
| ResponseCleanup.CollapseCommaKeepsErasure | milestones.ts:114-115 | the comma passes remove only commas and whitespace |
| ResponseCleanup.CollapseCommaWithoutMatch | milestones.ts:114-115 | text on which `,\s*]` (or `,\s*,`) matches nowhere passes through its pass unchanged |
| ResponseCleanup.CollapseCommaShortensMatch | milestones.ts:114-115 | text on which the pattern matches somewhere comes out of its pass strictly shorter |
| ResponseCleanup.CollapseCommaChangesOnMatch | milestones.ts:114-115 | a comma pass changes the text exactly when its pattern matches in it |
| ResponseCleanup.CleanResponse | milestones.ts:109-116 | the clean-up (trim, the four replacements in order, trim) never lengthens the reply |
| ResponseCleanup.CleanResponseIsSingleSpaced | milestones.ts:109-116 | the cleaned reply has no line feed, only plain spaces as whitespace, no two neighbouring whitespace characters and no whitespace at either end |
| ResponseCleanup.CleanResponseKeepsText | milestones.ts:109-116 | apart from whitespace and commas the cleaned reply is the raw reply, character for character |
| ResponseCleanup.CleanResponseKeepsWellFormed | milestones.ts:109-116 | a reply already trimmed and single-spaced with plain spaces, on which neither comma pattern matches, is returned unchanged |
| CleanupExamples.CompactArraySurvivesCleanup | milestones.ts:101-102 | a reply in the requested format passes through the clean-up unchanged. The format is a compact array `["…","…"]` whose items are single-spaced with plain spaces. Items may contain commas, provided no comma is followed (after optional whitespace) by `]` or `,` |
| CleanupExamples.CommaGapCollapses | milestones.ts:115 | in `head, ,tail` with comma-free head and tail, the double-comma pass leaves `head,tail` |
| CleanupExamples.CleanupRewritesItemText | milestones.ts:109-116 | the reply `["a, ,b"]` cleans to `["a,b"]`: the clean-up also rewrites text inside a string item |
| CleanupExamples.CleanupKeepsCommaBeforeBracket | milestones.ts:114-115 | the reply `, , ]` cleans to `, ]`: a comma before the bracket survives |
| CleanupExamples.CleanupIsNotIdempotent | milestones.ts:115 | `,,,` cleans to `,,` and `,,` to `,`, so cleaning twice differs from cleaning once |
| MilestoneProperties.ApplyKeepsConsistent | milestones.ts:129-188 | every call, returning or throwing, keeps "completion date present iff complete" and "steps only exist with a goal" |
| MilestoneProperties.ApplyNeverReopens | milestones.ts:194-199 | no call turns an inactive tracker active |
| MilestoneProperties.RunKeepsConsistent | milestones.ts:34-199 | over any sequence of calls both invariants hold and `isActive` only goes from true to false |
| MilestoneProperties.NewTracker | milestones.ts:34-36 | a new tracker has no goal, no steps and is active: it is consistent, refuses steps and generation with "Goal must exist", finds no step to complete, accepts exactly the non-blank text within the limit as goal and closes once |
| MilestoneProperties.ReachableConsistent | milestones.ts:34-36 | every tracker reachable from a new one satisfies both invariants |
| MilestoneProperties.ValidatedCallsKeepDistinct | milestones.ts:51-53 | all calls but generation keep step descriptions pairwise distinct and distinct from the goal |
| MilestoneProperties.GenerationSkipsValidation | milestones.ts:129-133 | a decoded array repeating the goal is stored, breaking that distinctness |
| MilestoneProperties.GenerationReplacesSteps | milestones.ts:129-135 | a successful generation ends with the same result whatever steps existed before |
| MilestoneProperties.FailedGenerationKeepsSteps | milestones.ts:119-127 | an undecodable reply throws "could not parse", a non-array or an empty array throws "did not contain valid steps", and both keep the previous steps |
| MilestoneProperties.CompleteTwice | milestones.ts:176-181 | completing a description whose first match is incomplete, then completing it again, throws "already complete" |
| MilestoneProperties.CompletingLastStepCloses | milestones.ts:183-185 | on an active tracker the call returns and leaves the tracker inactive exactly when every other step was already complete |
| MilestoneProperties.CompletingOnInactiveMarksThenThrows | milestones.ts:180-185 | on an inactive tracker, completing the last incomplete step throws "already not active" with that step already marked |
| MilestoneProperties.CloseTwice | milestones.ts:194-199 | closing returns exactly when active, and a second close always throws |
| MilestoneProperties.InactiveStillAcceptsSteps | milestones.ts:150-164 | an inactive tracker with a goal still appends an acceptable step and stays inactive |
| MilestoneProperties.LengthBoundary | milestones-tests.ts:42-67 | 200 code units of unused text are accepted as goal; 201 are "too long" for goal and step |
| MilestoneProperties.AstralLengthBoundary | milestones.ts:47-48 | for unused text made of characters outside the Basic Multilingual Plane, 100 characters pass and 101 are "too long", since each counts two code units |
| MilestoneProperties.GoalStoredUntrimmed | milestones.ts:64-68 | text padded with spaces around 200 code units is accepted and stored with its padding |
| MilestoneProperties.KnittingRoundTrip | milestones.ts:64-188 | a worked run of setGoal, setSteps and completeStep: goal "Learn to knit", manual step "Buy yarn" added at 1 and completed at 2. This gives one incomplete step, then that step completed at 2, and a single-step milestone that is inactive |

## Left out

- The step generator call, its prompt text and the `async`/`await` suspension (milestones.ts:84-106) are left out: they are an external service. The reply is a parameter. A generator that throws leaves the tracker untouched before any of the modelled code runs.
- `JSON.parse` (milestones.ts:120) is a library decoder and is a parameter here. Array elements are modelled as strings. The source's unchecked `as string[]` cast would also store non-string elements.
- `Date` values are abstract `Timestamp`s. All steps of one generation share one `now`, where the source calls `new Date()` once per step.
- `console.error` logging (milestones.ts:137) is output only.
- The unused `Milestone` interface (milestones.ts:27-31) is not modelled.
- milestones-tests.ts is a console demonstration that needs configuration and a live key. It is used only as evidence for the scenario lemmas.
- Text is a sequence of Unicode scalar values, so lone UTF-16 surrogates, which a JavaScript string may hold, cannot be represented.
- Returned arrays and step objects are snapshots, not references. `setSteps`, `generateSteps`, `completeStep` and `getSteps` return the tracker's live array (milestones.ts:135, 163, 187, 205), and `completeStep` updates the shared step object in place (milestones.ts:180-181). A caller that writes through a returned array changes the tracker in the source; here it cannot. `ReachableConsistent` therefore speaks only for callers that never write through a returned array.
- Concurrent calls on one tracker during an outstanding generation are not modelled, since every call is a function of one state.
