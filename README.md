# Focus dashboard: the Pomodoro timer and its task list, in Dafny

The focus dashboard is a single-page React app. Its `FocusModule` component runs
a Pomodoro timer: focus phases alternate with short and long breaks, the
seconds of a focus phase are credited to the selected task, and each finished
focus phase is recorded in a history. Three smaller components render what the
module holds: the timer panel, the task panel and the notes pad.

This project models that logic and proves properties of it.

- `FocusSpec` holds the module's state cells as one value, `FocusState`. The
  cells are grouped in the blocks the component declares them in: the phase,
  the break settings, the timer memory, the task list, the history, the view
  flags and the notes text. Every handler is a function from the state it reads
  to the state it leaves. Each function's contract states the new state in
  full. Lemmas prove that every handler keeps the invariant `Inv`, and so does
  every sequence of handlers from the initial state (`ReachableInv`).
- `FocusModule.FocusTimer` is the component as an object. Each block of cells
  is one field, and each handler is a method that updates its fields in place.
  React applies the setter calls of one handler together once the handler
  returns, and every read inside the handler sees the values it started with.
  So each method reads the fields it starts with and writes each block once,
  except `Tick`: on the last second it applies the completion's updates and
  then the tick's own, which write the countdown and the phase's seconds again.
  Every method ends in the state the `FocusSpec` function computes from the
  state it started in, and keeps `Valid`, which is `Inv` read off the fields.
- `Tasks` holds the task and history records and the `find`, `map` and
  `filter` passes the task handlers use.
- `Timing` holds the cycle constants, the long-break rule and
  `stored || current`.
- `JsText` holds the JavaScript string built-ins the code relies on: `trim`,
  `toString` on whole numbers, `padStart(2, "0")`, `split` and `parseInt`.
- `FocusFormat` holds `formatTime`, `formatTimeWorked` and `getProgress`.
  `ClockValue` and `ParseDuration` read their texts back, so the formats are
  proved to lose nothing.
- `FocusTasks`, `TimerSection` and `BrainDump` hold what the three panels
  derive from their props.

Behaviour of the code worth knowing:

- A timer edit accepts 1 to 120 minutes.
- Under the model, completing or stopping a focus phase credits the task with
  `currentSessionTime`, the seconds ticked so far, not with the nominal length.
  For Stop this is what the code does; for a completion the stale closure
  described under "## Left out" changes the amount.
- Pausing credits nothing and keeps `currentSessionTime`.
- Stopping a focus phase always refills the countdown with 25 minutes, even
  after a custom edit.
- Toggling a task writes no history entry.
- Selecting a task does not fold the running phase's seconds into anything.
- A break's completion also schedules the auto-start.
- `cyclesUntilLongBreak` may be 0. JavaScript's `x % 0` is `NaN`, which never
  equals 0, so a zero setting never selects the long break. The model states
  this rule instead of excluding the value.

There is one consequence of the tick's order of updates under the model, which
reads the current state at every tick. The model lets React run the `timeLeft`
updater at the `setTimeLeft` call. On the last second that updater calls
`handleSessionComplete`, which queues the refill of the countdown and clears
`currentSessionTime`. The updater then returns 0, and the tick's own `+ 1` is
queued after all of these. So under the model a focus phase of `T` ticks
records and credits `T - 1` seconds. The phase that follows has its full
length but starts with its countdown at 0 and one second on its clock, so
every phase that follows a completion completes on its first tick.
`FocusSpec.Tick`, `FocusSpec.FocusPhaseRunsOut` and
`FocusSpec.CompletionResumes` state this.

## Model

| member | source | states |
|---|---|---|
| Tasks.Find | src/components/focus-module.tsx:390 | `find` yields nothing exactly when no task has the id; otherwise the first task with that id. |
| Tasks.FirstIndex | src/components/focus-module.tsx:448 | The position found holds the id and no earlier task holds it; absent exactly when no task holds it. |
| Tasks.CreditTime | src/components/focus-module.tsx:222-226 | The list keeps its length; each task is credited with the amount if it has the id and is unchanged otherwise. |
| Tasks.CreditTimeTotal | src/components/focus-module.tsx:222-226 | The ledger total grows by the amount times the number of tasks with the id. |
| Tasks.ToggleById | src/components/focus-module.tsx:425 | The list keeps its length; completion flips on the tasks with the id and on no other. |
| Tasks.ToggleTwice | src/components/focus-module.tsx:425 | Toggling the same id twice gives the list back. |
| Tasks.WithoutId | src/components/focus-module.tsx:433 | Keeps exactly the tasks without the id; the length drops by their count. |
| Tasks.WithoutIdDistributes | src/components/focus-module.tsx:433 | Removing an id from a concatenation concatenates the parts with it removed, so the tasks that stay keep their order. |
| Tasks.Incomplete | src/components/focus-module.tsx:440 | Keeps exactly the incomplete tasks. |
| Tasks.Completed | src/components/focus-tasks.tsx:45-48 | Keeps exactly the completed tasks; `FiltersPartition` and `SortedTasksPartition` prove it is the group the sort puts last. |
| Tasks.FiltersPartition | src/components/focus-module.tsx:440 | The incomplete and the completed tasks together are the list, as a multiset and by length. |
| Tasks.FiltersDistribute | src/components/focus-module.tsx:440 | Filtering a concatenation concatenates the filtered parts, so order is kept. |
| Tasks.IncompleteUnchangedIff | src/components/focus-module.tsx:440 | Clearing the completed tasks leaves the list as it was exactly when no task is completed. |
| Tasks.FindAfterCredit | src/components/focus-module.tsx:222-226 | Crediting keeps whether an id is found and the found task's completion. |
| Tasks.FindAfterRemove | src/components/focus-module.tsx:433 | Deleting one id leaves the lookup of every other id unchanged. |
| Tasks.PrependKeepsSelection | src/components/focus-module.tsx:384 | A new incomplete task at the front keeps the selected task incomplete. |
| Tasks.ToggleKeepsSelection | src/components/focus-module.tsx:425-429 | Toggling an id and dropping the selection if it was that id keeps the selected task incomplete. |
| Tasks.RemoveKeepsSelection | src/components/focus-module.tsx:433-436 | Deleting an id and dropping the selection if it was that id keeps the selected task incomplete. |
| Timing.BreakSeconds | src/components/focus-module.tsx:239-240 | The break lasts the long break's minutes times 60 when the setting is non-zero and divides the cycle count, and the short break's otherwise; a zero setting always gives the short break. |
| Timing.IsLongBreak | src/components/focus-module.tsx:239 | The long-break test; `Timing.LongBreakSchedule` proves it selects exactly every `cyclesUntilLongBreak`-th count. |
| Timing.LongBreakSchedule | src/components/focus-module.tsx:239 | Within each group of `cyclesUntilLongBreak` counts, exactly the multiple selects the long break. |
| Timing.StoredOr | src/components/focus-module.tsx:251 | `stored \|\| current` is the current value exactly when the stored one is null or zero, and otherwise the stored value, which is then non-zero. |
| JsText.Trim | src/components/focus-module.tsx:377-380 | The trimmed text is empty exactly when the input is all whitespace; otherwise it starts and ends with a non-whitespace character. |
| JsText.TrimPadded | src/components/focus-module.tsx:380 | Trimming undoes whitespace padded around a text that has none at its ends. |
| JsText.TrimIdempotent | src/components/focus-module.tsx:380 | Trimming twice is trimming once. |
| JsText.NatToStringSpec | src/components/focus-module.tsx:455 | `n.toString()` is decimal digits with no leading zero whose value is `n`. |
| JsText.NatToStringLength | src/components/focus-module.tsx:455 | One digit exactly below ten, at most two below a hundred. |
| JsText.NatToString | src/components/focus-module.tsx:455 | `toString` on a whole number, never empty; `NatToStringSpec` and `NatToStringLength` prove its digits and length. |
| JsText.PadStart2 | src/components/focus-module.tsx:455 | Pads with zeros in front to length two and keeps the text as its tail. |
| JsText.PadStart2Value | src/components/focus-module.tsx:455 | Zero-padding keeps a digit string's value. |
| JsText.Split | src/components/brain-dump.tsx:22 | `split` yields at least one piece and no piece holds the separator. |
| JsText.SplitCount | src/components/brain-dump.tsx:22 | `split` yields one more piece than there are separators. |
| JsText.JoinSplit | src/components/brain-dump.tsx:22 | Joining the pieces with the separator gives the text back. |
| JsText.SplitJoin | src/components/brain-dump.tsx:22 | Splitting a join of separator-free pieces gives the pieces back. |
| JsText.ParseIntOfDecimal | src/components/focus-module.tsx:347 | `parseInt` reads back a decimal number after leading whitespace and before a tail that does not continue it: no further digit, and after a lone `0` no `x` or `X`, which would start a hexadecimal numeral. |
| JsText.ParseIntOfSignedDecimal | src/components/focus-module.tsx:347 | The same with a sign; a minus sign negates. |
| JsText.ParseIntBlank | src/components/focus-module.tsx:347 | A blank text parses to `NaN`. |
| JsText.ParseInt | src/components/focus-module.tsx:347 | `Number.parseInt` without a radix (decimal, or hexadecimal after `0x`); `ParseIntOfDecimal`, `ParseIntOfSignedDecimal` and `ParseIntBlank` prove what it reads. |
| FocusFormat.FormatTime | src/components/focus-module.tsx:452-456 | The clock text has at least five characters, a colon third from the end, and exactly five below 100 minutes. |
| FocusFormat.FormatTimeLeadingZero | src/components/focus-module.tsx:455 | The clock text starts with `0` exactly below ten minutes: the minutes are padded to two digits and get no other leading zero. |
| FocusFormat.FormatTimeFields | src/components/focus-module.tsx:452-456 | The minutes field's value is `seconds / 60`, the seconds field's is `seconds % 60` (below 60), and the text reads back as the seconds. |
| FocusFormat.RenderDuration | src/components/focus-module.tsx:469-475 | The three shapes of the worked-time text; `RenderDurationUnits` and `RenderDurationReadsBack` prove their units and their values. |
| FocusFormat.FormatDuration | src/components/focus-module.tsx:465-475 | The h/m/s breakdown; `FormatDurationUnits` proves its units, `FormatDurationRoundTrip` that it loses nothing, and `FormatDurationExactly` that its fields are the canonical ones: minutes and seconds below 60, no leading zero, no zero leading field. |
| FocusFormat.WorkedSeconds | src/components/focus-module.tsx:458-464 | The seconds the time line counts; `FormatTimeWorkedShows` proves when the running phase is included. |
| FocusFormat.FormatTimeWorked | src/components/focus-module.tsx:458-476 | `formatTimeWorked`; `FormatTimeWorkedShows` proves the text reads back as the counted seconds, and by `FormatDurationExactly` it is then the one canonical h/m/s text of those seconds. |
| FocusFormat.RenderDurationUnits | src/components/focus-module.tsx:469-475 | The text names hours exactly when there are some, minutes exactly when there are hours or minutes, and ends in seconds. |
| FocusFormat.FormatDurationUnits | src/components/focus-module.tsx:465-475 | An hours field exactly from 3600 seconds, a minutes field exactly from 60, and always the seconds. |
| FocusFormat.RenderDurationReadsBack | src/components/focus-module.tsx:469-475 | Each of the three shapes, with minutes and seconds below 60, reads back as the seconds it spells out. |
| FocusFormat.FormatDurationRoundTrip | src/components/focus-module.tsx:465-475 | The worked-time text reads back as the total it was made from; its minutes and seconds fields are below 60. |
| FocusFormat.ParseDurationCanonical | src/components/focus-module.tsx:465-475 | A text that reads as `v` seconds is exactly the worked-time text of `v`: no zero-padded count, no zero hours or minutes in front, no minutes or seconds field of 60 or more. |
| FocusFormat.FormatDurationExactly | src/components/focus-module.tsx:465-475 | A text reads as `v` seconds if and only if it is the worked-time text of `v`. |
| JsText.NatToStringCanonical | src/components/focus-module.tsx:470-474 | A digit string without a leading zero is the `toString` of its own value. |
| FocusFormat.FormatTimeWorkedShows | src/components/focus-module.tsx:458-476 | The text shows the stored time, plus the running phase's seconds exactly when asked, for the selected task, with time accrued, outside a break. |
| FocusFormat.GetProgress | src/components/focus-module.tsx:478-483 | The percentage lies in [0, 100] and is 0 for an empty phase or a stopped, run-out countdown. |
| FocusFormat.ProgressIsElapsedShare | src/components/focus-module.tsx:478-483 | When no more than the phase is left, the bar shows exactly the elapsed share. |
| FocusFormat.ProgressMonotone | src/components/focus-module.tsx:478-483 | While the timer runs, less time left never shows less progress. |
| FocusSpec.Initial | src/components/focus-module.tsx:33-63 | The initial cells: stopped, in focus, no cycles, 25 minutes, no tasks, no history, no selection; the invariant holds. |
| FocusSpec.SessionComplete | src/components/focus-module.tsx:203-283 | Focus: one more cycle, first-cycle latch, credit to the selected task, one history record; then a break of the scheduled length or the next focus. Break: next focus, count kept. Always stopped, popup closed, phase seconds cleared; nothing else changes. |
| FocusSpec.SessionCompleteKeepsInv | src/components/focus-module.tsx:203-283 | Completion keeps the invariant. |
| FocusSpec.Tick | src/components/focus-module.tsx:148-157 | Above one second: count down by one and count the phase's seconds up by one. At one second or less: completion, then countdown 0 and phase seconds 1; a completion is reported exactly then. |
| FocusSpec.TickKeepsInv | src/components/focus-module.tsx:148-157 | A tick keeps the invariant. |
| FocusSpec.AutoStart | src/components/focus-module.tsx:246-279 | The scheduled start runs the timer and opens the popup only for a focus phase begun with a task selected. |
| FocusSpec.CompletionResumes | src/components/focus-module.tsx:246-279 | A tick on the last second completes the phase. After the auto-start the timer runs in the next phase: a break exactly after focus with breaks on. A break's completion keeps the cycle count. The popup is open exactly when a task is selected and focus begins. The phase has the next length, but its countdown is 0 with one second counted, so the next tick completes again. |
| FocusSpec.CompletionSwitchesBadge | src/components/timer-section.tsx:274 | After a completing tick the badge reads "Break Time" exactly when a focus phase ended with breaks on, and "Focus Time" exactly after a break or with breaks off. |
| FocusSpec.Start | src/components/focus-module.tsx:285-298 | Starts the countdown as it is; latches the first-cycle length only before any cycle with none stored; opens the popup only in focus with a task selected. |
| FocusSpec.Pause | src/components/focus-module.tsx:300-305 | Stops the countdown where it is; tasks and history unchanged; closes the popup only in focus. |
| FocusSpec.Stop | src/components/focus-module.tsx:307-325 | Stopped, phase seconds cleared, cycle count and phase kind kept; credit only in focus with seconds accrued; countdown refilled with 25 minutes in focus or the break length in a break. |
| FocusSpec.StopKeepsInv | src/components/focus-module.tsx:307-325 | Stopping keeps the invariant. |
| FocusSpec.StopCreditsLedger | src/components/focus-module.tsx:310-316 | Stopping adds the phase's seconds to the ledger once per task with the selected id, and only in focus. |
| FocusSpec.Reset | src/components/focus-module.tsx:327-337 | Back to a stopped first-cycle focus phase at the remembered first-cycle length, phase seconds cleared. |
| FocusSpec.ResetShowsFirstCycle | src/components/timer-section.tsx:277-278 | After a reset the panel shows "Cycle 1" and no reset control. |
| FocusSpec.StartEditing | src/components/focus-module.tsx:339-344 | Opens an empty editor only while stopped; otherwise nothing changes. |
| FocusSpec.DisplayClickEdits | src/components/timer-section.tsx:157 | A click on the display edits exactly when the panel offers it. |
| FocusSpec.SaveEdit | src/components/focus-module.tsx:346-359 | Accepted minutes set the countdown, the phase, the custom and the first-cycle lengths and clear the phase seconds; anything else only closes the editor. |
| FocusSpec.SaveEditOfTypedMinutes | src/components/focus-module.tsx:347-357 | Typing 1 to 120 minutes, with blanks before and a non-digit tail after, sets the timer to that many minutes. |
| FocusSpec.SaveEditRejects | src/components/focus-module.tsx:347-348 | Zero, more than 120, a negative number or a blank field only closes the editor. |
| FocusSpec.CancelEdit | src/components/focus-module.tsx:361-364 | Closes the editor and empties its field; nothing else changes. |
| FocusSpec.EditKey | src/components/focus-module.tsx:366-374 | Enter saves, Escape cancels, any other key changes nothing. |
| FocusSpec.SpaceKey | src/components/focus-module.tsx:181-195 | Space outside the editor and text fields pauses a running timer and starts a stopped one; otherwise nothing changes. |
| FocusSpec.SpaceKeyMatchesControl | src/components/timer-section.tsx:112-129 | Space does what the visible Start or Pause control does, so it always flips running. |
| FocusSpec.AddTask | src/components/focus-module.tsx:376-387 | Blank input changes nothing; otherwise one new incomplete task with the trimmed text and no time goes first and the field empties. |
| FocusSpec.AddTaskKeepsInv | src/components/focus-module.tsx:376-387 | Adding keeps the invariant. |
| FocusSpec.ToggleTask | src/components/focus-module.tsx:425-429 | Flips completion on the id's tasks only, drops the selection exactly when it was that id, and leaves the history alone. |
| FocusSpec.ToggleTaskTwice | src/components/focus-module.tsx:425 | Toggling twice gives the tasks back. |
| FocusSpec.ToggleTaskKeepsInv | src/components/focus-module.tsx:425-429 | Toggling keeps the invariant. |
| FocusSpec.DeleteTask | src/components/focus-module.tsx:432-437 | Removes the id's tasks and drops the selection exactly when it was that id. |
| FocusSpec.DeleteTaskKeepsInv | src/components/focus-module.tsx:432-437 | Deleting keeps the invariant. |
| FocusSpec.ClearCompleted | src/components/focus-module.tsx:439-441 | Keeps exactly the incomplete tasks; nothing else changes. |
| FocusSpec.SelectTask | src/components/focus-module.tsx:447-450 | A completed task cannot be selected; otherwise the click selects the task, or unselects it when it was selected. |
| FocusSpec.ClearNotepad | src/components/focus-module.tsx:443-445 | Empties the notes and nothing else. |
| FocusSpec.CountdownTicks | src/components/focus-module.tsx:148-157 | Before the last second, `n` ticks lower the countdown by `n` and raise the phase seconds by `n`. |
| FocusSpec.FocusPhaseRunsOut | src/components/focus-module.tsx:148-157 | Running a focus phase out completes it with one more cycle, a record and a credit of the seconds counted before the last tick. |
| FocusSpec.TicksSplit | src/components/focus-module.tsx:148 | `a + b` ticks are `a` ticks then `b` ticks. |
| FocusSpec.BreakDisplayShowsBreakLength | src/components/timer-section.tsx:164-172 | When a focus phase ends in a break, the display shows the break length while the countdown is 0. |
| FocusSpec.StopInBreakMatchesDisplay | src/components/focus-module.tsx:318 | Stopping in a break refills the countdown with exactly what the display shows. |
| FocusSpec.Displayed | src/components/timer-section.tsx:164-172 | The seconds the panel shows for a state; `BreakDisplayShowsBreakLength` and `StopInBreakMatchesDisplay` prove what it shows after a completion and a stop. |
| FocusSpec.ProgressInReachableState | src/components/focus-module.tsx:478-483 | In every state that keeps the invariant, the bar shows the elapsed share without clamping. |
| FocusSpec.ApplyKeepsInv | src/components/focus-module.tsx:33-63 | Every handler and every input write keeps the invariant. |
| FocusSpec.Apply | src/components/focus-module.tsx:33-63 | One event: a handler, a tick, an auto-start or an input write; `ApplyKeepsInv` proves each keeps the invariant. |
| FocusSpec.RunKeepsInv | src/components/focus-module.tsx:33-63 | Any sequence of events keeps the invariant. |
| FocusSpec.Run | src/components/focus-module.tsx:33-63 | A sequence of events from a state; `RunKeepsInv` and `ReachableInv` prove the invariant along it. |
| FocusSpec.ReachableInv | src/components/focus-module.tsx:33-63 | Every state reachable from the initial one has the countdown within its phase and no completed task selected. |
| FocusModule.FocusTimer.constructor | src/components/focus-module.tsx:33-63 | The fields start at the initial cells and are valid. |
| FocusModule.FocusTimer.SessionComplete | src/components/focus-module.tsx:203-283 | Updates the fields to `FocusSpec.SessionComplete` of the old state and returns its auto-start. |
| FocusModule.FocusTimer.Tick | src/components/focus-module.tsx:148-157 | Updates the fields to `FocusSpec.Tick` of the old state. |
| FocusModule.FocusTimer.AutoStart | src/components/focus-module.tsx:246-279 | Updates the fields to `FocusSpec.AutoStart` of the old state. |
| FocusModule.FocusTimer.Start | src/components/focus-module.tsx:285-298 | Updates the fields to `FocusSpec.Start` of the old state. |
| FocusModule.FocusTimer.Pause | src/components/focus-module.tsx:300-305 | Updates the fields to `FocusSpec.Pause` of the old state. |
| FocusModule.FocusTimer.Stop | src/components/focus-module.tsx:307-325 | Updates the fields to `FocusSpec.Stop` of the old state. |
| FocusModule.FocusTimer.Reset | src/components/focus-module.tsx:327-337 | Updates the fields to `FocusSpec.Reset` of the old state. |
| FocusModule.FocusTimer.StartEditing | src/components/focus-module.tsx:339-344 | Updates the fields to `FocusSpec.StartEditing` of the old state. |
| FocusModule.FocusTimer.SaveEdit | src/components/focus-module.tsx:346-359 | Updates the fields to `FocusSpec.SaveEdit` of the old state. |
| FocusModule.FocusTimer.CancelEdit | src/components/focus-module.tsx:361-364 | Updates the fields to `FocusSpec.CancelEdit` of the old state. |
| FocusModule.FocusTimer.EditKey | src/components/focus-module.tsx:366-374 | Updates the fields to `FocusSpec.EditKey` of the old state. |
| FocusModule.FocusTimer.SpaceKey | src/components/focus-module.tsx:181-195 | Updates the fields to `FocusSpec.SpaceKey` of the old state. |
| FocusModule.FocusTimer.AddTask | src/components/focus-module.tsx:376-387 | Updates the fields to `FocusSpec.AddTask` of the old state. |
| FocusModule.FocusTimer.ToggleTask | src/components/focus-module.tsx:389-430 | Updates the fields to `FocusSpec.ToggleTask` of the old state. |
| FocusModule.FocusTimer.DeleteTask | src/components/focus-module.tsx:432-437 | Updates the fields to `FocusSpec.DeleteTask` of the old state. |
| FocusModule.FocusTimer.ClearCompleted | src/components/focus-module.tsx:439-441 | Updates the fields to `FocusSpec.ClearCompleted` of the old state. |
| FocusModule.FocusTimer.SelectTask | src/components/focus-module.tsx:447-450 | Updates the fields to `FocusSpec.SelectTask` of the old state. |
| FocusModule.FocusTimer.ClearNotepad | src/components/focus-module.tsx:443-445 | Updates the fields to `FocusSpec.ClearNotepad` of the old state. |
| FocusTasks.CompareTasks | src/components/focus-tasks.tsx:46-47 | The comparator is 0 exactly for equal completion and negative exactly for incomplete before completed. |
| FocusTasks.CompareTasksPreorder | src/components/focus-tasks.tsx:46-47 | The comparator is antisymmetric and transitive. |
| FocusTasks.SortedTasks | src/components/focus-tasks.tsx:45-48 | The sorted copy is a permutation of the tasks, of the same length. |
| FocusTasks.SortedTasksPartition | src/components/focus-tasks.tsx:45-48 | The sorted copy is the incomplete tasks in their order, then the completed ones in theirs. |
| FocusTasks.SortedTasksOrdered | src/components/focus-tasks.tsx:45-48 | No completed task comes before an incomplete one. |
| FocusTasks.SortedTasksStable | src/components/focus-tasks.tsx:46 | Within each group the sort keeps the tasks' relative order. |
| FocusTasks.ShowClearCompletedIff | src/components/focus-tasks.tsx:63 | The clear-completed control shows exactly when clearing would remove a task. |
| FocusTasks.ShowClearCompleted | src/components/focus-tasks.tsx:63 | The clear-completed control; `ShowClearCompletedIff` proves when it shows. |
| FocusTasks.Badge | src/components/focus-tasks.tsx:133-135 | A badge shows exactly on the selected incomplete task: "Focusing" while a focus phase runs, "Selected" otherwise. |
| FocusTasks.FocusingImpliesHighlighted | src/components/focus-tasks.tsx:57 | A "Focusing" badge only appears inside a highlighted card. |
| FocusTasks.Highlighted | src/components/focus-tasks.tsx:57 | The highlighted task card; `FocusingImpliesHighlighted` ties it to the badge. |
| TimerSection.DisplayedSecondsRule | src/components/timer-section.tsx:164-172 | The display shows the countdown except in an enabled break, where it shows the break length and does not move. |
| TimerSection.DisplayedSeconds | src/components/timer-section.tsx:164-172 | The seconds on the display; `DisplayedSecondsRule` proves what it shows. |
| TimerSection.ClickStartsEdit | src/components/timer-section.tsx:157 | The display's click handler; `FocusSpec.DisplayClickEdits` proves it edits exactly when stopped. |
| TimerSection.ShowsStart | src/components/timer-section.tsx:112-132 | The Start control; `FocusSpec.ControlsFollowHandlers` and `FocusSpec.SpaceKeyMatchesControl` prove which handlers show it. |
| TimerSection.ShowsPause | src/components/timer-section.tsx:112-132 | The Pause control; proved by the same two lemmas. |
| FocusSpec.ControlsFollowHandlers | src/components/timer-section.tsx:112-132 | Start leaves Pause shown and Start hidden; Pause, Stop and Reset leave Start shown; a completing tick shows Start until its auto-start shows Pause again. |
| TimerSection.PhaseBadge | src/components/timer-section.tsx:274 | The badge text; `FocusSpec.CompletionSwitchesBadge` proves which badge each completion leads to. |
| TimerSection.CycleLabelNumber | src/components/timer-section.tsx:277 | The cycle label's number reads back as `completedCycles + 1`. |
| TimerSection.CycleLabelInjective | src/components/timer-section.tsx:277 | Different cycle counts give different labels. |
| TimerSection.CycleLabel | src/components/timer-section.tsx:277 | The cycle label; `CycleLabelNumber` and `CycleLabelInjective` prove its number. |
| TimerSection.ShowResetCycles | src/components/timer-section.tsx:278 | The reset-cycles control; `ShowResetCyclesIff` proves when it shows. |
| TimerSection.ShowResetCyclesIff | src/components/timer-section.tsx:278 | The reset-cycles control shows exactly when the label is past cycle 1. |
| BrainDump.LineNumbers | src/components/brain-dump.tsx:21-24 | One number per line, the line breaks plus one, numbered 1, 2, … without gaps. |
| BrainDump.LineNumbersOfEmpty | src/components/brain-dump.tsx:22 | The empty pad shows line 1. |
| BrainDump.LineNumbersOfOneLine | src/components/brain-dump.tsx:21-24 | Text without a line break shows line 1 only. |
| BrainDump.LineNumbersNewline | src/components/brain-dump.tsx:22 | One more line break adds exactly the next number and keeps the others. |
| BrainDump.LineNumbersCountLines | src/components/brain-dump.tsx:22-23 | As many numbers as lines, and the lines join back into the text. |
| BrainDump.ShowClearNotesIff | src/components/brain-dump.tsx:41 | The clear-notes control shows exactly when the pad holds a non-whitespace character. |
| BrainDump.ShowClearNotes | src/components/brain-dump.tsx:41 | The clear-notes control; `ShowClearNotesIff` proves when it shows. |

## Left out

- Chimes: the Web Audio sounds of a completion and of finishing a task are browser calls with floating-point frequencies. They have no effect on the state.
- The celebration emoji, the keyboard-target test and the notes pad's scroll sync are DOM side effects. `isTyping` is a parameter of `SpaceKey`.
- Rendering and styling: all markup, the full-screen focus popup and the animations.
- Real time: the one-second interval and the 500 ms timeouts are explicit steps (`Tick`, `AutoStart`). The interval exists only while the timer runs, so a tick happens only in a running state.
- The wall clock, the timezone table and the device timezone detection are locale and clock input.
- `Date.now()` ids and ISO dates are parameters (`sessionId`, `date`, the new task's `id`).
- The `focusTime` cell is never read, and `sessionStartTime` is written but never read, so neither is modelled. `getFocusTimeMinutes` is an unused float rounding.
- React's stale closures: each handler reads the state as it is when the handler runs. The interval's closure, which in React keeps the values of the render that started it, is not modelled. Its `handleSessionComplete` reads `currentSessionTime`, `selectedTaskId` and the other cells as they were when the timer started. So a completion after a fresh start credits and records 0 seconds, one after a resume credits the seconds counted before the pause, and the credit goes to the task selected at the start. Stop runs a fresh click handler and credits as the model states.
- The settings inputs and text fields are plain writes (`InputEvent`). Settings are whole numbers; the browser's number input could deliver negative numbers, fractions or `NaN`, which are not modelled.
- React may instead run the `timeLeft` updater at the next render, after the tick's `+ 1` has been queued. The model does not cover that order. Under it the completion's refill and its clearing of `currentSessionTime` would be applied last, so the next phase would start with its full countdown and 0 seconds on its clock.
- Next.js layout and page wiring are not part of this model.
- FocusFormat.GetProgress: computed on exact reals, not on IEEE doubles, so rounding in the percentage is not modelled.
- FocusModule.FocusTimer: its methods are tied to the `FocusSpec` functions; the properties themselves are proved once, about those functions.
