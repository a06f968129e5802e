# typing-works in Dafny

A model of the core of a browser typing-practice page.

The page shows a target sentence and highlights each character as correct, incorrect or not yet typed. It fills a 20-segment progress bar from the share of the sentence typed. It caps errors: once the error counter reaches 2, the input may no longer grow. A newline at the end of a complete input moves on to a new sentence. A lightning effect, meant to start at a keystroke as its comments say (the caller is not part of this model), grows a few random branches and stops itself one second after the last branch is gone.

Modules, one per source file:

- `js.dfy` (`Js`): the pieces of the JavaScript runtime the code uses.
  - `null` is `Option`.
  - A result of `Math.random()` is a `Draw`, a real in [0, 1).
  - `Math.floor`, `Math.ceil`, `Math.min` and `Math.max` are on exact reals and integers.
- `typing_context.dfy` (`TypingContext`): the provider's state.
  - The state is the target, the input, the start time, the error counter and the speed.
  - It holds the sentence choice, `setSentence`, and the one-second speed update.
  - The `Session` class holds that state. Its setters update it in place.
- `highlighted_text.dfy` (`HighlightedText`): the mark of every target character.
- `typing.dfy` (`Typing`): the text-change handler.
  - The handler has three outcomes: reset, reject, accept. It uses a mismatch-counting loop.
  - The module also holds the progress percentage and the view's own copy of the highlighting.
- `progress_bar.dfy` (`ProgressBar`): the number of filled segments, and the classes of each segment.
- `lightning_effect.dfy` (`LightningEffect`): the branch list and the effect object that updates it in place.
  - `Math.random()` is an infinite stream `rnd` of draws, read through a cursor.
  - Every `rand` call takes the next draw, including the calls that only choose a colour or a line width. So the draws that decide growth and spawning are the ones the code would use.
  - Each clock reading (`Date.now()`) is a parameter.

Each stateful method is tied to a specification function of the old state: `Session.SetSentence`, `HandleInputChange`, `LightningField.UpdateL`, `RenderL` and `Frame`. The properties are proved as lemmas about those functions.

## Model

| member | source | states |
|---|---|---|
| TypingContext.ChooseIndex | app/context/TypingContext.tsx:29-37 | `Math.ceil(r * (n - 1))` is always a valid index into a non-empty list |
| TypingContext.ChooseIndexZeroOnlyAtZero | app/context/TypingContext.tsx:37 | with two or more sentences, index 0 is chosen exactly when the draw is 0 |
| TypingContext.ChooseIndexUniform | app/context/TypingContext.tsx:37 | the corrected choice `floor(r * n)` is a valid index |
| TypingContext.ChooseIndexUniformPreimage | app/context/TypingContext.tsx:37 | under the corrected choice, index i is taken exactly by the draws in [i/n, (i+1)/n), the same share for every sentence |
| TypingContext.AfterSetSentence | app/context/TypingContext.tsx:36-40 | `setSentence` as written; specified by `SetSentenceReplacesTargetOnly` |
| TypingContext.SetSentenceReplacesTargetOnly | app/context/TypingContext.tsx:36-40 | `setSentence` as written: sets the target to a sentence of the list and clears the input; start time, error counter and speed are unchanged |
| TypingContext.AfterSetSentenceCorrected | app/context/TypingContext.tsx:36-40 | corrected reset: a sentence of the list, an empty input and a zero error counter; start time and speed unchanged |
| TypingContext.SpeedAfterTick | app/context/TypingContext.tsx:45-53 | when a start time is set and time has passed, speed times elapsed seconds equals the input length and the speed is not negative; otherwise the speed is unchanged |
| TypingContext.Session.constructor | app/context/TypingContext.tsx:28-34 | initial state: a chosen sentence, empty input, no start time, counter 0, speed 0 |
| TypingContext.Session.SetSentence | app/context/TypingContext.tsx:36-40 | the new state is the corrected reset of the old state, and the session invariant is kept |
| TypingContext.Session.Tick | app/context/TypingContext.tsx:46-53 | one interval firing changes only the speed, to the speed of the formula |
| HighlightedText.Highlight | app/components/HighlightedText.tsx:7-21 | one mark per target character: correct iff typed and equal, incorrect iff typed and different, pending iff not yet typed |
| HighlightedText.EmptyInputAllPending | app/components/HighlightedText.tsx:7-20 | with nothing typed every character is pending |
| HighlightedText.AllCorrectIffTargetTyped | app/components/HighlightedText.tsx:7-21 | every mark is correct exactly when the input starts with the whole target |
| Typing.MismatchCount | app/components/Typing.tsx:41-46 | the count of disagreeing positions is at most the input length |
| Typing.CountMismatches | app/components/Typing.tsx:41-46 | the counting loop returns the number of input positions that differ from the target, positions past the target included |
| Typing.MismatchFreeIffPrefix | app/components/Typing.tsx:41-46 | the count is 0 exactly when the input is a prefix of the target |
| Typing.MismatchCountCoversOverflow | app/components/Typing.tsx:42-44 | every character typed past the end of the target counts as a mismatch |
| Typing.Classify | app/components/Typing.tsx:22-33 | which branch of the handler a change takes: reset, reject or accept; specified by `NewlineAtEndOnlyResets`, `NewlineBeforeEndIsOrdinary`, `GrowthAtCeilingRejected` and `NonGrowingChangeAccepted` |
| Typing.Accepted | app/components/Typing.tsx:36-59 | the state after an accepted change; specified by `StartTimeSetOnce` and `AcceptedChangeCounts` |
| Typing.Step | app/components/Typing.tsx:20-60 | the handler as written; specified by the transition lemmas below, `IncorrectCountStaysInRange`, `CatExample` and `ResetKeepsSessionBlocked` |
| Typing.StepCorrected | app/components/Typing.tsx:20-60 | the handler with the corrected reset; tied to `Step` by `CorrectedAgreesOffReset`, and specified by `CorrectedResetUnblocks` |
| Typing.HandleInputChange | app/components/Typing.tsx:20-60 | the reported transition is the classification of the change; the new state is the (corrected) handler step of the old state; the session invariant (counter in [0, 2], target in the list) is kept |
| Typing.NewlineAtEndOnlyResets | app/components/Typing.tsx:22-28 | a trailing newline on a complete input only replaces the sentence and clears the input; the newline is not stored |
| Typing.NewlineBeforeEndIsOrdinary | app/components/Typing.tsx:22-28 | a trailing newline on an incomplete input is not a reset; if accepted it is stored like any character |
| Typing.GrowthAtCeilingRejected | app/components/Typing.tsx:31-33 | with the counter at 2, a change that lengthens the input leaves the whole state unchanged |
| Typing.NonGrowingChangeAccepted | app/components/Typing.tsx:31-33 | deletions and same-length edits are accepted whatever the counter |
| Typing.StartTimeSetOnce | app/components/Typing.tsx:36-38 | the start time is set by the first accepted change and never overwritten; rejected changes and resets leave it alone |
| Typing.AcceptedChangeCounts | app/components/Typing.tsx:49-59 | an accepted change stores the input and keeps the target; the counter becomes min(previous + mismatches, 2), or 0 without mismatches |
| Typing.IncorrectCountStaysInRange | app/components/Typing.tsx:49-56 | the counter stays within [0, 2] |
| Typing.CatExample | app/components/Typing.tsx:20-60 | on target "cat", typing "c", "ca", "cax" gives counters 0, 0, 1 |
| Typing.ResetKeepsSessionBlocked | app/components/Typing.tsx:22-33 | as written, target "ab" typed as "x", "xb" and then a newline: the reset keeps the counter at 2, and every later non-empty change is rejected |
| Typing.CorrectedAgreesOffReset | app/components/Typing.tsx:20-60 | the corrected handler differs from the written one only on a reset, and only in the sentence choice and the cleared counter |
| Typing.CorrectedResetUnblocks | app/components/Typing.tsx:22-27 | after the corrected reset, the counter is 0 and typing the new target's first character is accepted with no error |
| Typing.Progress | app/components/Typing.tsx:92-95 | the percentage is undefined exactly when the target is empty |
| Typing.ProgressIsCeiling | app/components/Typing.tsx:92-95 | the percentage is the least integer p >= 0 with p * targetLen >= 100 * inputLen |
| Typing.ProgressMonotone | app/components/Typing.tsx:92-95 | the percentage never decreases as the input grows |
| Typing.ProgressFullAtTargetLength | app/components/Typing.tsx:92-95 | a complete input shows 100 |
| Typing.ProgressUncapped | app/components/Typing.tsx:92-95 | an input longer than the target shows more than 100 |
| Typing.ProgressBarEnds | app/components/Typing.tsx:91-96 | the bar shown for an empty input has no filled segment, and for a complete input every segment is filled |
| Typing.RenderFrom | app/components/Typing.tsx:63-83 | the view's recursive highlighting from one index on; specified by `RenderMatchesHighlight` |
| Typing.RenderHighlightedText | app/components/Typing.tsx:63-83 | the view's copy of the highlighting; specified by `RenderMatchesHighlight` and `IncorrectMarksAreMismatches` |
| Typing.RenderMatchesHighlight | app/components/Typing.tsx:63-83 | the view's copy of the highlighting gives the same marks as the highlighting component |
| Typing.IncorrectMarksAreMismatches | app/components/Typing.tsx:41-46 | while the input is no longer than the target, the red marks number exactly the handler's mismatches |
| ProgressBar.FilledSegments | app/components/ProgressBar.tsx:8-9 | the filled count f is the floor of 20 * value / max: f * max <= 20 * value < (f + 1) * max |
| ProgressBar.SegmentAt | app/components/ProgressBar.tsx:31-40 | the classes of segment i; specified by `Bar`, `FilledFormPrefix` and `SegmentShapes` |
| ProgressBar.Bar | app/components/ProgressBar.tsx:26-43 | 20 segments; segment i is filled exactly when i is below the filled count |
| ProgressBar.FilledFormPrefix | app/components/ProgressBar.tsx:31 | the filled segments form a prefix of the bar |
| ProgressBar.FilledSegmentsMonotone | app/components/ProgressBar.tsx:9 | the filled count never decreases as the value grows |
| ProgressBar.BarMonotone | app/components/ProgressBar.tsx:31 | a segment filled at some value stays filled at every larger value |
| ProgressBar.BarEnds | app/components/ProgressBar.tsx:9 | value 0 fills nothing, value = max fills all 20 segments |
| ProgressBar.DefaultMaxIsFifth | app/components/ProgressBar.tsx:2-9 | with the default max of 100 the count is value / 5 rounded down; the defaults fill 18 segments |
| ProgressBar.SegmentShapes | app/components/ProgressBar.tsx:36-40 | only the first segment is rounded on the left, only the last on the right, and exactly the interior ones are skewed |
| LightningEffect.RandFrom | app/components/LightningEffect.tsx:54-56 | `rand(lo, hi)` lies in [lo, hi] |
| LightningEffect.NewBranch | app/components/LightningEffect.tsx:59-72 | a new branch has xRange in [5, 12], yRange 5, pathLimit in [10, 35], and a path of its single start point; it is unfired, with grower 0 and limit 5 |
| LightningEffect.GrowStep | app/components/LightningEffect.tsx:77-91 | one turn of the `updateL` loop on one branch; specified by `GrowStepEffect` |
| LightningEffect.GrowStepEffect | app/components/LightningEffect.tsx:77-91 | below its threshold a branch only accumulates the delta; at it, the accumulator resets, the threshold scales by 1.05, and one point is appended at most xRange/2 to either side and 0 to yRange below the last; the branch is fired, and it is removed exactly when its path had reached its limit |
| LightningEffect.UpdateFrom | app/components/LightningEffect.tsx:75-93 | the list and cursor after `updateL`'s reverse loop; specified by `UpdateKeepsShape`, `UpdateKeepsOrder` and `UpdateRemovesOnlyFull` |
| LightningEffect.UpdateKeepsShape | app/components/LightningEffect.tsx:75-93 | after `updateL` every branch is well formed (no path longer than its limit); the list does not grow and gains no spawnable branch |
| LightningEffect.UpdateKeepsOrder | app/components/LightningEffect.tsx:75-93 | the survivors of the reverse splicing loop keep their relative order, each an extension of its old self |
| LightningEffect.UpdateKeepsExactly | app/components/LightningEffect.tsx:75-93 | `updateL` removes exactly the branches that reach their growth threshold with their path already at its limit; every other branch survives, extended by at most one point, in its old order |
| LightningEffect.UpdateRemovesOnlyFull | app/components/LightningEffect.tsx:87-89 | the case of `UpdateKeepsExactly` where every path still has room for a point: no branch is removed and the list keeps its length |
| LightningEffect.SpawnScan | app/components/LightningEffect.tsx:108-114 | the point found lies in the path, and one draw is taken per point rolled, up to and including the one that found it |
| LightningEffect.SpawnScanStopsAtFirstZero | app/components/LightningEffect.tsx:108-114 | the scan stops at the first `rand(0, 100)` that comes out 0: every earlier roll is non-zero, and the child is rooted at the point whose roll was the 0 |
| LightningEffect.FlashDraws | app/components/LightningEffect.tsx:116-125 | the flash logic takes one to three draws, at most two for a fired branch |
| LightningEffect.SpawnPass | app/components/LightningEffect.tsx:108-114 | the loop over a branch's points never shortens the list, and either leaves it alone or lowers the number of spawnable branches |
| LightningEffect.BranchPass | app/components/LightningEffect.tsx:97-127 | one turn of the `renderL` loop: the list never shrinks, and either stays the same or loses a spawnable branch; specified in full by `BranchPassEffect` |
| LightningEffect.BranchPassEffect | app/components/LightningEffect.tsx:97-127 | one turn of `renderL` trades at most one spawn flag for one child: a well-formed child that cannot spawn, rooted at one point of the parent's path |
| LightningEffect.RenderFrom | app/components/LightningEffect.tsx:96-128 | the list and cursor after `renderL`, children pushed during the loop included; specified by `RenderKeepsBudget`, `RenderOnlySpawns` and `RenderIdleWithoutSpawnable` |
| LightningEffect.RenderKeepsBudget | app/components/LightningEffect.tsx:96-128 | over `renderL`, the branches plus the spawnable ones keep their number |
| LightningEffect.RenderOnlySpawns | app/components/LightningEffect.tsx:96-128 | `renderL` keeps every branch (at most clearing its spawn flag) and adds only single-point, well-formed children that cannot spawn |
| LightningEffect.RenderIdleWithoutSpawnable | app/components/LightningEffect.tsx:96-128 | with no spawnable branch, `renderL` leaves the list unchanged |
| LightningEffect.FinishStep | app/components/LightningEffect.tsx:153-169 | the finish time and the stop decision of one frame; specified by `FinishRule` |
| LightningEffect.FinishRule | app/components/LightningEffect.tsx:153-169 | with branches left, the finish time is cleared and the loop never stops; on an empty list the finish time records the first empty frame, and the loop stops exactly when a frame comes 1000 ms or more after it |
| LightningEffect.LightningField.constructor | app/components/LightningEffect.tsx:33-51 | starts with one spawnable branch at the start point, the clock fields at the reading, no finish time, and no frame requested |
| LightningEffect.LightningField.Rand | app/components/LightningEffect.tsx:54-56 | takes the next draw and returns `rand` of it |
| LightningEffect.LightningField.CreateL | app/components/LightningEffect.tsx:59-72 | appends the new branch of the next three draws |
| LightningEffect.LightningField.UpdateL | app/components/LightningEffect.tsx:75-93 | the new list and cursor are those of the `updateL` specification of the old list; the field invariant is kept |
| LightningEffect.LightningField.GrowAt | app/components/LightningEffect.tsx:77-91 | one turn of the `updateL` loop: branch i grows in place, or is spliced out of the array, exactly as the growth step says; the rest of the array is untouched |
| LightningEffect.LightningField.RenderL | app/components/LightningEffect.tsx:96-128 | the new list and cursor are those of the `renderL` specification; the field invariant is kept |
| LightningEffect.LightningField.DrawBranch | app/components/LightningEffect.tsx:97-127 | one turn of the `renderL` loop, matching its specification draw for draw |
| LightningEffect.LightningField.StyleRolls | app/components/LightningEffect.tsx:98-103 | the stroke opacity and line-width rolls take four draws |
| LightningEffect.LightningField.FlashRolls | app/components/LightningEffect.tsx:116-125 | the fill and flash rolls take the draws the flash logic counts |
| LightningEffect.LightningField.SpawnLoop | app/components/LightningEffect.tsx:108-114 | the loop over a branch's points matches its specification draw for draw |
| LightningEffect.LightningField.ClearCanvas | app/components/LightningEffect.tsx:131-137 | takes exactly one draw |
| LightningEffect.LightningField.Frame | app/components/LightningEffect.tsx:142-170 | one `animate` run: delta since the last frame, then `clearCanvas`, `updateL` and `renderL` as specified, then the finish rule; the frame stays requested unless the loop stops; the invariant (well-formed branches, branches plus spawnable ones at most 2) is kept |
| LightningEffect.LightningField.Finish | app/components/LightningEffect.tsx:153-169 | the finish time follows the finish rule for the current list and clock; the frame request is cancelled exactly when the loop stops |
| LightningEffect.LightningField.Start | app/components/LightningEffect.tsx:140-172 | `start` resets the frame clock and runs the first frame |
| LightningEffect.AtMostTwoBranches | app/components/LightningEffect.tsx:108-114 | under the invariant there are never more than two branches |
| LightningEffect.FrameLists | app/components/LightningEffect.tsx:148-150 | the list and cursor after `clearCanvas`, `updateL` and `renderL`; specified by `EmptyStaysEmpty` and `FrameKeepsBudget` |
| LightningEffect.EmptyStaysEmpty | app/components/LightningEffect.tsx:150-169 | a frame over an empty list creates nothing |
| LightningEffect.FrameKeepsBudget | app/components/LightningEffect.tsx:142-150 | a frame keeps every branch well formed and at most two of them |

## Left out

- Drawing: the canvas calls and the JSX markup are left out. This covers strokes, fills, colours, line widths, `clearRect` and the classes other than the four segment flags. Only the draws that drawing takes are kept.
- IEEE floating point: all arithmetic is on exact reals.
- Strings: the source's `length`, indexing, `split("")` and `endsWith` work on UTF-16 code units, while a Dafny `char` is a Unicode scalar value. The model reads each `char` as one UTF-16 code unit; a character outside the Basic Multilingual Plane, such as an emoji, is one position here but two in the source (two marks, up to two mismatches, double weight in the percentage). The `console.log` call of the reset branch (Typing.tsx:24) is left out with the other output.
- Typing.Progress: is exact where JavaScript rounds. `7 / 100 * 100` is 7.000000000000001 in JavaScript, which `Math.ceil` turns into 8; the model gives 7.
- LightningEffect.GrowStepEffect: the growth threshold `growerLimit * 1.05` and the point offsets are exact reals, not doubles.
- Typing.Progress: an empty target gives NaN or Infinity in JavaScript; the model returns `None` and stops there. The bar's classes for a NaN value are not modelled.
- ProgressBar.FilledSegments: requires max > 0. A zero max divides by zero in JavaScript, and no caller passes one.
- React: these are left out.
  - Re-rendering. Each change is one step on the state the previous render showed.
  - Effect scheduling and `clearInterval`. The interval is one `Tick` at a clock reading.
  - The `useTypingContext` error raised outside a provider.
  - The first sentence is chosen by an expression passed to `useState` (TypingContext.tsx:28-30), so the draw and the indexing run again on every render of the provider, and React keeps only the first result. The constructor models that first result with one draw.
- Clocks and randomness: `Date.now()` readings are parameters. `Math.random()` results are a `Draw` parameter in the typing model, and the stream `rnd` in the lightning model.
- `requestAnimationFrame` and `cancelAnimationFrame` are left out. `running` records whether a frame is requested, and each `Frame` call is one callback.
- The canvas context error in the lightning constructor is left out, and so are the unused fields `lightTimeCurrent` and `lightTimeTotal`. The canvas size fields `cw` and `ch` are used only by `fillRect` and `clearRect`, so they are dropped along with the drawing.
- The practice sentence list is a parameter. The mock list file is not part of this model.
- Files outside this model: SnowFlake.tsx, getCaretCoordinates.ts, StatBar.tsx and page.tsx.
- TypingContext.Session.SetSentence, TypingContext.Session.constructor and Typing.HandleInputChange follow the corrected definitions of the Findings below. They model the uniform choice and the cleared counter, not the code as written; `AfterSetSentence`, `ChooseIndex` and `Step` model it as written.

## Findings

| source | as written | input that shows it | evidently intended | confidence | as-written member | corrected member |
|---|---|---|---|---|---|---|
| app/context/TypingContext.tsx:36-40 | `setSentence` replaces the sentence and clears the input but leaves `incorrectCount` as it was | target "ab", typed "x", "xb", then "xb\n": the counter reaches 2, the reset keeps it at 2, and every later keystroke lengthens the empty input and is rejected, so the new sentence can never be typed | a new sentence starts with the counter at 0 | not executed | Typing.ResetKeepsSessionBlocked | Typing.CorrectedResetUnblocks |
| app/context/TypingContext.tsx:29-37 | `Math.ceil(Math.random() * (n - 1))`, both for the first sentence (line 29) and in `setSentence` (line 37), picks index 0 only when the draw is exactly 0 | any draw r > 0 with n = 2 picks index 1; the first sentence is never shown | a uniform choice over all n sentences, `Math.floor(Math.random() * n)` | not executed | TypingContext.ChooseIndexZeroOnlyAtZero | TypingContext.ChooseIndexUniformPreimage |
