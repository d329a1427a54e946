# TrackerThon time tracker, modelled in Dafny

TrackerThon is a single-page React time tracker. The user fills in an entry
form with a title, a description, a category and a list of labels, and
submits it. This starts a running timer. The timer can be paused, resumed
and stopped. A stopped entry goes to the front of the entry list, which
shows each entry's duration and has a delete button. A statistics panel
sums the recorded time overall, per category and per label.

This project models the logic of that core:

- `App` (src/App.tsx) is a class `Tracker`. Its fields are the component's
  five state variables plus the live interval. Its methods are the handlers
  `handleStart`, `handlePause`, `handleResume`, `handleStop` and
  `handleDelete`, the timer effect and its tick, and the loop of
  `calculateStats`.
- `Stats` holds the functions that specify what `calculateStats` computes,
  and the lemmas about them.
- `EntryForm` (src/components/EntryForm.tsx) is a class `Form` with its
  five fields. Its methods are the add-label, remove-label and submit
  handlers.
- `Timer` (src/components/Timer.tsx) holds `formatTime`, as pure functions
  with lemmas.
- `TimeList` (src/components/TimeList.tsx) holds `formatDuration` for a
  completed entry.
- `JsText` and `JsArray` hold the JavaScript primitives these rely on:
  `trim`, integer `toString`, `padStart`, `%` and `filter`. `JsText` also
  holds a one-character `split` and digit parsing, which no component
  calls. `Timer.ParseClock` and `TimeList.ParseDuration` use them to read
  the formatted texts back for the round-trip lemmas.
- `Types` holds the records.

Clock reads (`Date.now()`, `new Date()`) and the generated id are
parameters of the handlers. Timestamps are integer milliseconds. The
statistics use exact real seconds.

The model follows the code as written, including four behaviours that
look unintended:

- Pausing *assigns* the displayed seconds to `accumulatedTime`. After a
  resume, the effect counts from a start that already includes them and
  then adds them again. So the display jumps by the banked seconds
  (`App.AfterResume`, `App.PauseResumeSession`).
- A stored entry's duration is end minus start, so paused time counts as
  tracked time (`App.PauseResumeSession`).
- Starting a new entry while one is current drops the current one without
  storing it (`App.Tracker.Start`).
- Starting a new entry while another is running in its first segment does
  not restart the timer. The running flag stays true and the banked
  seconds stay 0, so the effect does not run again. The old interval keeps
  counting from the old start, and the new entry shows the old entry's
  seconds (`App.RestartWhileRunning`).

Three more behaviours of the code worth noting:

- The displayed time is not the sum of the running intervals, because of
  the double count above.
- The form accepts a title and a category that are only whitespace,
  because it checks them untrimmed (`EntryForm.CanSubmit`).
- Completed entries are put in front of the list.

## Model

| member | source | states |
|---|---|---|
| App.Tracker.constructor | src/App.tsx:10-14 | no entries, no current entry, zero counters, no pause time, no interval; the invariant holds |
| App.Tracker.Start | src/App.tsx:54-70 | the current entry becomes a running entry with the submitted fields, the id and `now`, and no end time; the counters and the pause time are reset; the stored entries are untouched, so a previous current entry is dropped |
| App.Tracker.SubmitForm | src/App.tsx:129 | a form submit that goes through starts an entry with the form's old fields and clears title, description, category and labels; one that does not go through leaves the session and the form as they were; the label field is kept either way |
| App.Tracker.Pause | src/App.tsx:72-78 | with a current entry: it stops running, the banked seconds become the displayed seconds (assigned, not added) and the pause time is `now`; without one: nothing changes; the invariant is kept |
| App.Tracker.Resume | src/App.tsx:80-85 | acts exactly when there is a current entry and a pause time other than 0 (0 is falsy): the entry runs again and the pause time is cleared; the banked seconds stay; otherwise nothing changes |
| App.Tracker.Stop | src/App.tsx:87-100 | with a current entry: the entry, no longer running and ended at `now`, is put in front of the stored entries, and the session is reset; without one: nothing changes; every stored entry is completed |
| App.Tracker.Delete | src/App.tsx:102-104 | the entries become the old ones with another id, in order, and stay completed |
| App.Tracker.RunEffect | src/App.tsx:16-25 | a running current entry gets an interval that counts from `now - elapsedTime*1000` and adds the banked seconds of this render; otherwise no interval; the invariant is kept |
| App.Tracker.Tick | src/App.tsx:20-22 | with an interval, the displayed time becomes the tick formula of the captured start and banked seconds; without one, it stays; the invariant is kept |
| App.Tracker.CalculateStats | src/App.tsx:27-52 | the loop returns the total time, the per-category map and the per-label map of the specification functions; the category values add up to the total, and the label values add up to each duration times its number of labels |
| App.EffectStart | src/App.tsx:19 | a tick at the effect's own instant, with nothing added, shows the elapsed seconds again, so the count resumes where the display stood; `App.FirstSegment` and `App.AfterResume` state what later ticks show |
| App.TickElapsed | src/App.tsx:21 | the tick is the banked seconds plus the whole seconds since the captured start: floor bounds on both sides |
| App.FirstSegment | src/App.tsx:19-21 | on the first running segment a tick shows exactly the whole seconds since the start |
| App.AfterResume | src/App.tsx:19-21 | after a resume with `b` banked seconds, a tick shows the first-segment count plus `2*b` |
| App.RemoveById | src/App.tsx:103 | no kept entry has the deleted id |
| App.RemoveByIdMembers | src/App.tsx:103 | an entry is kept if and only if it was stored and has another id; deletion distributes over concatenation, so order is kept |
| App.RemoveByIdAbsent | src/App.tsx:103 | deleting an id no entry has changes nothing |
| App.RemoveByIdUnique | src/App.tsx:103 | with distinct ids, deleting the id of entry `i` removes exactly that entry and keeps the rest in order |
| App.PauseResumeSession | src/App.tsx:16-100 | 30 s running, 5 s paused and 20 s running again show 80 s just before the stop, and store 55 s |
| App.RestartWhileRunning | src/App.tsx:16-25 | after 60 s of a first segment, starting a new entry leaves the old interval running, so one second later the display shows 61 s |
| App.SingleEntrySession | src/App.tsx:27-52 | one 90-second "Work" entry labelled "deep-work" gives 90 s in total, under its category and under its label |
| Stats.Duration | src/App.tsx:35-37 | the per-entry seconds as written (0 without an end time); `Stats.DurationSign` states its sign, and `App.Tracker.CalculateStats` and `Stats.CategoryBreakdownSum` state what the totals made of it are |
| Stats.DurationSign | src/App.tsx:35-37 | a completed entry adds non-negative time exactly when it ends no earlier than it starts |
| Stats.Get | src/App.tsx:43 | the `or 0` lookup as written: the value at `k`, or 0 for a missing key; used by `Stats.CategoryBreakdownStep` and `Stats.SumValuesUpdate` |
| Stats.Credit | src/App.tsx:46-48 | the inner loop's effect on the label map as written, one label at a time; its keys and values are stated by `Stats.CreditAt`, its sum by `Stats.CreditSum` |
| Stats.CategoryFold | src/App.tsx:34-43 | the category map built entry by entry as written; `Stats.CategoryFoldIsBreakdown` proves it the per-category time |
| Stats.LabelFold | src/App.tsx:34-48 | the label map built entry by entry as written; `Stats.LabelFoldIsBreakdown` proves it the per-label time |
| Stats.Categories | src/App.tsx:42-43 | the category keys are exactly the categories of the entries |
| Stats.Labels | src/App.tsx:46-48 | the label keys are exactly the labels of the entries |
| Stats.CategoryTimeAbsent | src/App.tsx:42-43 | a category no entry has gets no time |
| Stats.LabelShareAbsent | src/App.tsx:46-48 | a label that one entry lacks gets nothing from that entry |
| Stats.LabelTimeAbsent | src/App.tsx:46-48 | a label no entry carries gets no time |
| Stats.CategoryBreakdownStep | src/App.tsx:42-43 | one more entry adds its duration to its category's bucket, and a bucket missing until then starts at 0 |
| Stats.CreditAt | src/App.tsx:46-48 | crediting a label list adds exactly its labels as keys; each key gains the duration once per occurrence |
| Stats.CreditNext | src/App.tsx:47 | one more label of the list credits the duration to that label's bucket |
| Stats.LabelBreakdownStep | src/App.tsx:46-48 | one more entry credits its duration to each of its labels |
| Stats.CategoryFoldIsBreakdown | src/App.tsx:34-49 | building the category map entry by entry gives each present category its total time |
| Stats.LabelFoldIsBreakdown | src/App.tsx:34-49 | building the label map entry by entry gives each present label its total time |
| Stats.SumValuesPick | src/App.tsx:30-31 | the sum of a map's values can start from any key |
| Stats.SumValuesUpdate | src/App.tsx:43 | changing one bucket changes the sum by that bucket's change |
| Stats.Times | src/App.tsx:46-48 | adding a duration up `n` times gives `n` times the duration |
| Stats.CreditSum | src/App.tsx:46-48 | crediting `d` to each of `n` labels raises the sum of the map by `n*d` |
| Stats.CategoryFoldSum | src/App.tsx:39-43 | the category buckets built entry by entry add up to the total time |
| Stats.CategoryBreakdownSum | src/App.tsx:39-43 | the category values add up to the total time |
| Stats.LabelFoldSum | src/App.tsx:39-48 | the label buckets built entry by entry add up to each duration times its number of labels |
| Stats.LabelBreakdownSum | src/App.tsx:39-48 | the label values add up to each duration times its number of labels, which is not the total time |
| Stats.LabelShareOnce | src/App.tsx:46-48 | in a list without repeats, a label gets the duration once if it is listed, otherwise nothing |
| Stats.LabelTimeOfDistinctLabels | src/App.tsx:46-48 | when no entry repeats a label, a label's bucket is the time of the entries that carry it |
| EntryForm.Form.constructor | src/components/EntryForm.tsx:14-18 | all five fields start empty |
| EntryForm.Form.AddLabel | src/components/EntryForm.tsx:20-25 | a trimmed text that is non-empty and not yet listed goes to the end of the labels, and the label field is cleared; otherwise both fields stay; the label invariant is kept |
| EntryForm.Form.RemoveLabel | src/components/EntryForm.tsx:27-29 | the labels become the old ones without the given label; the label invariant is kept |
| EntryForm.Form.Submit | src/components/EntryForm.tsx:31-40 | exactly when title and category are non-empty (untrimmed), the four fields are handed on and title, description, category and labels are cleared; the label field is kept; otherwise nothing is handed on and nothing changes |
| EntryForm.TakesLabel | src/components/EntryForm.tsx:21 | the add handler's guard as written: the trimmed text is non-empty and not yet listed |
| EntryForm.AddLabelTo | src/components/EntryForm.tsx:21-22 | the list after the add handler, as written; `EntryForm.AddLabelMembers` and `EntryForm.AddLabelKeepsLabelList` state what it holds |
| EntryForm.CanSubmit | src/components/EntryForm.tsx:33 | the submit guard `title && category` as written: both non-empty, untrimmed |
| EntryForm.AddLabelKeepsLabelList | src/components/EntryForm.tsx:20-25 | adding keeps every label non-empty and trimmed, and no label twice |
| EntryForm.AddLabelMembers | src/components/EntryForm.tsx:20-25 | afterwards a label is listed if and only if it was listed before or it is the non-blank trimmed text; the old labels keep their places; at most one label is added; a listed text adds nothing |
| EntryForm.AddLabelIgnoresPadding | src/components/EntryForm.tsx:21-22 | typing the text with surrounding whitespace adds what the trimmed text adds |
| EntryForm.AddLabelIdempotent | src/components/EntryForm.tsx:21 | adding the same text twice is adding it once |
| EntryForm.Without | src/components/EntryForm.tsx:28 | the removed label is no longer listed |
| EntryForm.WithoutMembers | src/components/EntryForm.tsx:28 | a label stays if and only if it was listed and is not the removed one |
| EntryForm.WithoutKeepsLabelList | src/components/EntryForm.tsx:28 | removing keeps every label non-empty and trimmed, and no label twice |
| EntryForm.WithoutListed | src/components/EntryForm.tsx:28 | removing the label at `i` takes out exactly that label and keeps the rest in order |
| EntryForm.WithoutUnlisted | src/components/EntryForm.tsx:28 | removing a label that is not listed changes nothing |
| EntryForm.TrimPadded | src/components/EntryForm.tsx:21 | " focus " trims to "focus" |
| EntryForm.SessionLabels | src/components/EntryForm.tsx:20-29 | the label lists of the session: padded text is trimmed, a repeat is refused, a new label is appended, and removal takes it out |
| EntryForm.EnterLabels | src/components/EntryForm.tsx:20-29 | typing " focus " twice and "review", then removing "focus", leaves just "review" |
| EntryForm.LabelSession | src/components/EntryForm.tsx:31-40 | submitting after that, with a title and a category, hands on the entry with the single label "review" |
| Timer.Hours | src/components/Timer.tsx:14 | the hours are the floor of time/3600: `h*3600 <= time < (h+1)*3600`, and non-negative for a non-negative time |
| Timer.TwoDigits | src/components/Timer.tsx:17-19 | `toString().padStart(2, '0')` as written; `Timer.TwoDigitsOf` states its digits and value |
| Timer.FormatTime | src/components/Timer.tsx:13-20 | the template as written; `Timer.FormatTimeFields`, `Timer.FormatTimeRoundTrip`, `Timer.HoursNotCapped` and `Timer.FormatTimeZero` state what it shows |
| Timer.Minutes | src/components/Timer.tsx:15 | for a non-negative time the minutes lie in 0..59 |
| Timer.Seconds | src/components/Timer.tsx:16 | the seconds lie in 0..59 for a non-negative time and in -59..0 for a negative one, as JavaScript's `%` gives |
| Timer.Decomposition | src/components/Timer.tsx:14-16 | hours·3600 + minutes·60 + seconds recombine to the time |
| Timer.TwoDigitsOf | src/components/Timer.tsx:17-19 | a non-negative field prints as its decimal digits padded with '0' to at least two; it reads back as its value; below 100 it is exactly two characters |
| Timer.SplitClockText | src/components/Timer.tsx:17-19 | three digit fields joined by ':' split back into those fields |
| Timer.FormatTimeSplit | src/components/Timer.tsx:13-20 | the display is the three padded fields joined by ':' |
| Timer.FormatTimeFields | src/components/Timer.tsx:13-20 | the display has three digit fields; the hours are padded to two digits and not capped; the minutes and seconds are exactly two digits and below 60; each reads back as its value |
| Timer.FieldsOfText | src/components/Timer.tsx:13-20 | any text that splits into the three padded fields has the properties above |
| Timer.FormatTimeRoundTrip | src/components/Timer.tsx:13-20 | reading `HH:MM:SS` back gives the time |
| Timer.ParseFieldsOfText | src/components/Timer.tsx:13-20 | a text that splits into the padded fields of a time reads back as that time |
| Timer.HoursNotCapped | src/components/Timer.tsx:14 | from 100 hours on, the hours field has three or more digits |
| Timer.NatToStringLength | src/components/Timer.tsx:17 | a number of at least 100 prints with three or more digits |
| Timer.FormatTimeZero | src/components/Timer.tsx:13-20 | zero seconds display as "00:00:00" |
| TimeList.DurationSeconds | src/components/TimeList.tsx:12-13 | the span in seconds as written; non-negative exactly when the end is no earlier than the start; `TimeList.DurationParts` and `TimeList.FormatDurationText` state what is shown of it |
| TimeList.Trunc | src/components/TimeList.tsx:16 | truncation toward zero, bounded on both sides for either sign |
| TimeList.RealRemainder | src/components/TimeList.tsx:16 | JavaScript's `%` on numbers: in `[0, y)` for a non-negative dividend and in `(-y, 0]` for a negative one |
| TimeList.Hours | src/components/TimeList.tsx:15 | the floor of duration/3600: `h*3600 <= duration < (h+1)*3600` |
| TimeList.Minutes | src/components/TimeList.tsx:16 | in 0..59 for a non-negative duration, and in -60..0 for a negative one |
| TimeList.FormatDuration | src/components/TimeList.tsx:11-18 | the template as written, completed-entry branch; `TimeList.FormatDurationText` and `TimeList.DurationParts` state what it shows |
| TimeList.FloorOfQuotient | src/components/TimeList.tsx:15 | the floor of an exact quotient of naturals is integer division |
| TimeList.DurationParts | src/components/TimeList.tsx:15-16 | for a non-negative span: the hours are whole hours, the minutes are the whole minutes left (0..59), and the dropped remainder is under a minute |
| TimeList.FormatDurationText | src/components/TimeList.tsx:11-18 | the text is the unpadded hours, "h ", the unpadded minutes and "m", and it reads back as those two numbers |
| JsText.LeadingSpaces | src/components/EntryForm.tsx:21 | the count of leading whitespace: every counted character is whitespace and the next one is not |
| JsText.TrailingSpaces | src/components/EntryForm.tsx:21 | the count of trailing whitespace: every counted character is whitespace and the one before is not |
| JsText.Trim | src/components/EntryForm.tsx:21 | the result has no whitespace at either end, and the input is leading whitespace, the result, and trailing whitespace |
| JsText.TrimmedIsFixed | src/components/EntryForm.tsx:21 | a trimmed text trims to itself |
| JsText.TrimIdempotent | src/components/EntryForm.tsx:21-22 | trimming twice is trimming once |
| JsText.NatToString | src/components/Timer.tsx:17-19 | a natural prints as a non-empty digit string without a leading zero |
| JsText.IntToString | src/components/TimeList.tsx:17 | `toString` on an integral value as written; its ensures only splits the two signs for the solver, and `JsText.NatToString` and `JsText.ParseNatToString` state what is printed |
| JsText.ParseNatToString | src/components/Timer.tsx:17-19 | the printed digits read back as the number |
| JsText.ParseLeadingZero | src/components/Timer.tsx:17-19 | a leading '0' does not change the value read |
| JsText.PadStart | src/components/Timer.tsx:17-19 | the result is at least the padding length, ends with the input, and is filled in front with the pad character |
| JsText.ParseZeroPadded | src/components/Timer.tsx:17-19 | padding digits with '0' keeps them digits and keeps their value |
| JsText.JsRemainder | src/components/Timer.tsx:15-16 | JavaScript's `%`: below the divisor in magnitude, with the sign of the dividend |
| JsText.Split | src/components/Timer.tsx:17-19 | at least one part, none containing the separator |
| JsText.SplitAfterField | src/components/Timer.tsx:17-19 | a separator-free field followed by the separator splits off as the first part |
| JsText.SplitThree | src/components/Timer.tsx:17-19 | three separator-free fields joined by the separator split back into exactly those fields |
| JsArray.Filter | src/App.tsx:103 | every kept element is accepted, and the result is no longer than the input |
| JsArray.FilterMembers | src/App.tsx:103 | an element is kept if and only if it is in the input and accepted |
| JsArray.FilterAppend | src/components/EntryForm.tsx:28 | filtering distributes over concatenation, so order is kept |
| JsArray.FilterAllKept | src/components/EntryForm.tsx:28 | when every element is accepted, nothing changes |
| JsArray.FilterDropsBetween | src/App.tsx:103 | a refused element between two runs that filtering keeps whole is the only one removed |
| JsArray.FilterDropsOne | src/App.tsx:103 | when only the element at `i` is refused, exactly that element goes |
| JsArray.FilterDistinct | src/components/EntryForm.tsx:28 | filtering a list without repeats leaves a list without repeats |

## Left out

- Rendering: the JSX markup, icons, styling and the Stats component's display. The `types` module and the Stats component are not part of this model. The record shapes here are the ones the modelled files read and build.
- React scheduling: when an effect re-runs and when the interval fires. The caller calls `App.Tracker.RunEffect` after a render in which the running flag or the banked seconds changed, and calls `App.Tracker.Tick` for each firing. Batching of state updates within a handler is not modelled; each handler's updates are applied together.
- The clock and id generation: `Date.now()`, `new Date()` and `Date.now().toString()` are parameters `now` and `id`.
- Floating point: statistics and list durations are exact reals; `formatTime` works on integer seconds, which is all the tracker feeds it.
- App.Tracker.CalculateStats: the maps are plain maps, so a category or label named like an object prototype property (for example "constructor") is not modelled with JavaScript's plain-object behaviour.
- Stats.Duration: an end time before the start time (the system clock moved back) gives a negative duration; the model allows it, and the formatting lemmas assume a non-negative span.
- TimeList.FormatDurationText: the branch for an entry without an end time, which reads the clock, is not modelled. The lemmas assume `start <= end`, so negative spans are not covered.
- Timer.FormatTimeFields: only non-negative times are covered. A negative elapsed time arises only when the system clock moves back between ticks.
- JsText.NatToString: models `toString` on integers in decimal digits; the exponent form JavaScript uses from 1e21 on is not modelled.
- The browser's `required` check on the title and category inputs, and the Enter-key binding that calls the add-label handler, are event wiring, not modelled.
- Stats.LabelBreakdownSum: stated for the label list as given. A list with repeats (the form never builds one) credits a label once per occurrence, and `Stats.LabelTimeOfDistinctLabels` covers the list without repeats.
