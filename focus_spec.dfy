/** The focus module's state cells and its handlers, each handler a
    transition from the state it reads to the state it leaves. The cells are
    grouped in the blocks the component declares them in; the class in
    `FocusModule` holds the same blocks and updates them in place. */
module FocusSpec {
  import opened Wrappers
  import opened Tasks
  import opened Timing
  import JsText
  import TimerSection
  import FocusFormat

  /** The running phase. */
  datatype Phase = Phase(timeLeft: nat, isRunning: bool, isBreak: bool, completedCycles: nat, originalSessionTime: nat)

  /** The break settings, in minutes and cycles. */
  datatype Settings = Settings(shortBreak: nat, longBreak: nat, cyclesUntilLongBreak: nat, enableBreaks: bool)

  /** The custom and the first cycle's focus lengths, in seconds. */
  datatype TimerMemory = TimerMemory(hasCustomTimer: bool, customFocusTime: nat,
                                     initialCycle1Timer: Option<nat>, cycle1FocusTime: Option<nat>)

  /** The task list, the add-task field and the selection. */
  datatype TaskList = TaskList(tasks: seq<Task>, newTask: string, selectedTaskId: Option<TaskId>)

  /** The history of focus phases and the seconds of the running phase. */
  datatype History = History(sessions: seq<FocusSession>, currentSessionTime: nat)

  /** The focus popup and the timer editor. */
  datatype View = View(showFocusPopup: bool, isMinimized: bool, isEditingTimer: bool, editTimeValue: string)

  /** All the state cells the handlers read or write. */
  datatype FocusState = FocusState(phase: Phase, settings: Settings, memory: TimerMemory, taskList: TaskList,
                                   history: History, view: View, notepadContent: string)

  /** What the 500 ms timeout scheduled by a completion does when it fires:
      start the break, or start the next focus phase and, when a task was
      selected at completion, open the focus popup. */
  datatype Resume = ResumeBreak | ResumeFocus(showPopup: bool)

  /** The countdown never exceeds the phase it belongs to, and the selected
      task, as the UI finds it, is never a completed one. */
  predicate Inv(s: FocusState)
  {
    s.phase.timeLeft <= s.phase.originalSessionTime && SelectionConsistent(s.taskList.tasks, s.taskList.selectedTaskId)
  }

  /** The initial values of the state cells. */
  function Initial(): (s: FocusState)
    ensures Inv(s)
    ensures !s.phase.isRunning && !s.phase.isBreak && s.phase.completedCycles == 0
    ensures s.phase.timeLeft == s.phase.originalSessionTime == DefaultFocusSeconds
    ensures s.taskList.tasks == [] && s.history.sessions == [] && s.taskList.selectedTaskId.None?
  {
    FocusState(
      Phase(DefaultFocusSeconds, false, false, 0, DefaultFocusSeconds),
      Settings(5, 15, 4, true),
      TimerMemory(false, DefaultFocusSeconds, None, None),
      TaskList([], "", None),
      History([], 0),
      View(false, false, false, ""),
      "")
  }

  /** The task list after crediting `amount` seconds to the selected task,
      if one is selected. */
  function CreditSelected(ts: seq<Task>, sel: Option<TaskId>, amount: nat): seq<Task>
  {
    match sel
    case None => ts
    case Some(id) => CreditTime(ts, id, amount)
  }

  /** Crediting keeps the selected task's completion, so the selection stays
      consistent. */
  lemma CreditSelectedKeepsSelection(ts: seq<Task>, sel: Option<TaskId>, amount: nat)
    requires SelectionConsistent(ts, sel)
    ensures SelectionConsistent(CreditSelected(ts, sel, amount), sel)
  {
    if sel.Some? {
      FindAfterCredit(ts, sel.value, amount, sel.value);
    }
  }

  // ----- completion and the tick -----

  /** `handleSessionComplete`. A focus phase counts a cycle, latches the
      first cycle's length, credits the selected task and prepends a history
      record, then turns into a break or, with breaks off, into the next
      focus phase; a break turns into a focus phase. The timer stops and the
      returned `Resume` is what the scheduled auto-start will do. */
  function SessionComplete(s: FocusState, sessionId: string, date: string): (r: (FocusState, Resume))
    ensures !r.0.phase.isRunning && !r.0.view.showFocusPopup && r.0.history.currentSessionTime == 0
    ensures r.0.phase.timeLeft == r.0.phase.originalSessionTime
    ensures !s.phase.isBreak ==> r.0.phase.completedCycles == s.phase.completedCycles + 1
    ensures !s.phase.isBreak ==>
              r.0.taskList.tasks == CreditSelected(s.taskList.tasks, s.taskList.selectedTaskId, s.history.currentSessionTime)
    ensures !s.phase.isBreak ==>
              r.0.history.sessions
              == [FocusSession(sessionId, date, s.history.currentSessionTime, 0, s.phase.completedCycles + 1)] + s.history.sessions
    ensures !s.phase.isBreak && s.phase.completedCycles == 0 ==>
              r.0.memory == s.memory.(initialCycle1Timer := Some(s.phase.originalSessionTime),
                                      cycle1FocusTime := Some(s.phase.originalSessionTime))
    ensures s.phase.isBreak || s.phase.completedCycles != 0 ==> r.0.memory == s.memory
    ensures !s.phase.isBreak && s.settings.enableBreaks ==>
              r.0.phase.isBreak && r.1 == ResumeBreak
              && r.0.phase.timeLeft == BreakSeconds(s.phase.completedCycles + 1, s.settings.cyclesUntilLongBreak,
                                                    s.settings.shortBreak, s.settings.longBreak)
    ensures s.phase.isBreak || !s.settings.enableBreaks ==>
              !r.0.phase.isBreak && r.1 == ResumeFocus(s.taskList.selectedTaskId.Some?)
              && r.0.phase.timeLeft == StoredOr(s.memory.initialCycle1Timer, s.phase.originalSessionTime)
    ensures s.phase.isBreak ==>
              r.0.phase.completedCycles == s.phase.completedCycles && r.0.taskList == s.taskList
              && r.0.history.sessions == s.history.sessions
    ensures r.0.taskList == s.taskList.(tasks := r.0.taskList.tasks)
    ensures r.0 == s.(phase := r.0.phase, memory := r.0.memory, taskList := r.0.taskList, history := r.0.history,
                      view := s.view.(showFocusPopup := false))
  {
    var p := s.phase;
    var next := StoredOr(s.memory.initialCycle1Timer, p.originalSessionTime);
    var closed := s.view.(showFocusPopup := false);
    if !p.isBreak then
      var cycles := p.completedCycles + 1;
      var memory :=
        if cycles == 1
        then s.memory.(cycle1FocusTime := Some(p.originalSessionTime), initialCycle1Timer := Some(p.originalSessionTime))
        else s.memory;
      var taskList := s.taskList.(tasks := CreditSelected(s.taskList.tasks, s.taskList.selectedTaskId, s.history.currentSessionTime));
      var history := History([FocusSession(sessionId, date, s.history.currentSessionTime, 0, cycles)] + s.history.sessions, 0);
      if s.settings.enableBreaks then
        var breakTime := BreakSeconds(cycles, s.settings.cyclesUntilLongBreak, s.settings.shortBreak, s.settings.longBreak);
        (s.(phase := Phase(breakTime, false, true, cycles, breakTime), memory := memory, taskList := taskList,
            history := history, view := closed), ResumeBreak)
      else
        (s.(phase := Phase(next, false, false, cycles, next), memory := memory, taskList := taskList,
            history := history, view := closed), ResumeFocus(s.taskList.selectedTaskId.Some?))
    else
      (s.(phase := Phase(next, false, false, p.completedCycles, next), history := s.history.(currentSessionTime := 0),
          view := closed), ResumeFocus(s.taskList.selectedTaskId.Some?))
  }

  lemma SessionCompleteKeepsInv(s: FocusState, sessionId: string, date: string)
    requires Inv(s)
    ensures Inv(SessionComplete(s, sessionId, date).0)
  {
    CreditSelectedKeepsSelection(s.taskList.tasks, s.taskList.selectedTaskId, s.history.currentSessionTime);
  }

  /** The body of the one-second interval, which exists only while the timer
      runs. The last second completes the phase: completion runs on the
      state before the tick, then the countdown is set to 0 and the
      phase's seconds, just cleared by the completion, count this tick. */
  function Tick(s: FocusState, sessionId: string, date: string): (r: (FocusState, Option<Resume>))
    requires s.phase.isRunning
    ensures r.1.Some? <==> s.phase.timeLeft <= 1
    ensures s.phase.timeLeft > 1 ==>
              r.0 == s.(phase := s.phase.(timeLeft := s.phase.timeLeft - 1),
                        history := s.history.(currentSessionTime := s.history.currentSessionTime + 1))
    ensures s.phase.timeLeft <= 1 ==>
              var (c, k) := SessionComplete(s, sessionId, date);
              r.0.phase.timeLeft == 0 && r.0.history.currentSessionTime == 1
              && r.0 == c.(phase := c.phase.(timeLeft := 0), history := c.history.(currentSessionTime := 1))
              && r.1 == Some(k)
  {
    if s.phase.timeLeft <= 1 then
      var (completed, resume) := SessionComplete(s, sessionId, date);
      (completed.(phase := completed.phase.(timeLeft := 0),
                  history := completed.history.(currentSessionTime := completed.history.currentSessionTime + 1)),
       Some(resume))
    else
      (s.(phase := s.phase.(timeLeft := s.phase.timeLeft - 1),
          history := s.history.(currentSessionTime := s.history.currentSessionTime + 1)),
       None)
  }

  lemma TickKeepsInv(s: FocusState, sessionId: string, date: string)
    requires Inv(s) && s.phase.isRunning
    ensures Inv(Tick(s, sessionId, date).0)
  {
    if s.phase.timeLeft <= 1 {
      SessionCompleteKeepsInv(s, sessionId, date);
    }
  }

  /** The scheduled auto-start after a completion. */
  function AutoStart(s: FocusState, resume: Resume): (r: FocusState)
    ensures Inv(s) ==> Inv(r)
    ensures r.phase.isRunning
    ensures resume == ResumeFocus(true) ==>
              r == s.(phase := s.phase.(isRunning := true), view := s.view.(showFocusPopup := true, isMinimized := false))
    ensures resume != ResumeFocus(true) ==> r == s.(phase := s.phase.(isRunning := true))
  {
    var running := s.(phase := s.phase.(isRunning := true));
    match resume
    case ResumeFocus(true) => running.(view := s.view.(showFocusPopup := true, isMinimized := false))
    case _ => running
  }

  /** The length of the phase a completion of `s` starts: the scheduled
      break after a focus phase with breaks on, the next focus length otherwise. */
  function NextPhaseLength(s: FocusState): nat
  {
    if !s.phase.isBreak && s.settings.enableBreaks
    then BreakSeconds(s.phase.completedCycles + 1, s.settings.cyclesUntilLongBreak, s.settings.shortBreak, s.settings.longBreak)
    else StoredOr(s.memory.initialCycle1Timer, s.phase.originalSessionTime)
  }

  /** A completion happens on the interval's last second, and its
      auto-start leaves the timer running in the next phase; a break's
      completion leaves the cycle count alone, and the popup opens again
      exactly when a task is selected and a focus phase begins. Because the
      tick sets the countdown to 0 after the completion has refilled it, the
      resumed phase has the next length but a countdown of 0 and one second
      on its clock, so the following tick completes it at once. */
  lemma CompletionResumes(s: FocusState, sessionId: string, date: string)
    requires s.phase.isRunning && s.phase.timeLeft <= 1
    ensures var (t, k) := Tick(s, sessionId, date);
            k.Some?
            && var a := AutoStart(t, k.value);
            a.phase.isRunning
            && (a.phase.isBreak <==> !s.phase.isBreak && s.settings.enableBreaks)
            && (s.phase.isBreak ==> a.phase.completedCycles == s.phase.completedCycles)
            && (a.view.showFocusPopup <==> (s.taskList.selectedTaskId.Some? && !a.phase.isBreak))
            && a.phase.originalSessionTime == NextPhaseLength(s)
            && a.phase.timeLeft == 0 && a.history.currentSessionTime == 1
            && Tick(a, sessionId, date).1.Some?
  {
  }

  /** The phase badge turns with a completion: "Break Time" exactly when a
      focus phase ends with breaks on, "Focus Time" after a break or with
      breaks off. */
  lemma CompletionSwitchesBadge(s: FocusState, sessionId: string, date: string)
    requires s.phase.isRunning && s.phase.timeLeft <= 1
    ensures var b := TimerSection.PhaseBadge(Tick(s, sessionId, date).0.phase.isBreak);
            (b == "Break Time" <==> !s.phase.isBreak && s.settings.enableBreaks)
            && (b == "Focus Time" <==> s.phase.isBreak || !s.settings.enableBreaks)
  {
  }

  // ----- the timer controls -----

  /** `startTimer`. Starting with no completed cycle and no remembered
      first-cycle length remembers the current length; starting a focus
      phase with a task selected opens the focus popup. */
  function Start(s: FocusState): (r: FocusState)
    ensures Inv(s) ==> Inv(r)
    ensures r.phase == s.phase.(isRunning := true)
    ensures s.phase.completedCycles == 0 && Unset(s.memory.initialCycle1Timer) ==>
              r.memory == s.memory.(initialCycle1Timer := Some(s.phase.originalSessionTime),
                                    cycle1FocusTime := Some(s.phase.originalSessionTime))
    ensures !(s.phase.completedCycles == 0 && Unset(s.memory.initialCycle1Timer)) ==> r.memory == s.memory
    ensures s.taskList.selectedTaskId.Some? && !s.phase.isBreak ==>
              r.view == s.view.(showFocusPopup := true, isMinimized := false)
    ensures !(s.taskList.selectedTaskId.Some? && !s.phase.isBreak) ==> r.view == s.view
    ensures r == s.(phase := r.phase, memory := r.memory, view := r.view)
  {
    var running := s.(phase := s.phase.(isRunning := true));
    var latched :=
      if s.phase.completedCycles == 0 && Unset(s.memory.initialCycle1Timer)
      then running.(memory := s.memory.(initialCycle1Timer := Some(s.phase.originalSessionTime),
                                        cycle1FocusTime := Some(s.phase.originalSessionTime)))
      else running;
    if s.taskList.selectedTaskId.Some? && !s.phase.isBreak
    then latched.(view := s.view.(showFocusPopup := true, isMinimized := false))
    else latched
  }

  /** `pauseTimer`: stops the countdown where it is. It neither credits the
      task nor clears the phase's seconds; in a focus phase it closes the popup. */
  function Pause(s: FocusState): (r: FocusState)
    ensures Inv(s) ==> Inv(r)
    ensures r.phase == s.phase.(isRunning := false)
    ensures r.taskList == s.taskList && r.history == s.history
    ensures !s.phase.isBreak ==> r.view == s.view.(showFocusPopup := false)
    ensures s.phase.isBreak ==> r.view == s.view
    ensures r == s.(phase := r.phase, view := r.view)
  {
    var stopped := s.(phase := s.phase.(isRunning := false));
    if !s.phase.isBreak then stopped.(view := s.view.(showFocusPopup := false)) else stopped
  }

  /** `stopTimer`: ends the phase. A focus phase with a selected task and
      some seconds credits them; the countdown is refilled with 25 minutes
      in focus or with the current break's length in a break. */
  function Stop(s: FocusState): (r: FocusState)
    ensures !r.phase.isRunning && r.history.currentSessionTime == 0
    ensures r.phase.completedCycles == s.phase.completedCycles && r.phase.isBreak == s.phase.isBreak
    ensures r.taskList.tasks == if s.history.currentSessionTime > 0 && !s.phase.isBreak
                                then CreditSelected(s.taskList.tasks, s.taskList.selectedTaskId, s.history.currentSessionTime)
                                else s.taskList.tasks
    ensures r.phase.timeLeft == r.phase.originalSessionTime
    ensures r.phase.timeLeft == if s.phase.isBreak
                                then BreakSeconds(s.phase.completedCycles, s.settings.cyclesUntilLongBreak,
                                                  s.settings.shortBreak, s.settings.longBreak)
                                else DefaultFocusSeconds
    ensures r == s.(phase := r.phase, taskList := s.taskList.(tasks := r.taskList.tasks),
                    history := s.history.(currentSessionTime := 0), view := s.view.(showFocusPopup := false))
  {
    var credited :=
      if s.taskList.selectedTaskId.Some? && s.history.currentSessionTime > 0 && !s.phase.isBreak
      then s.taskList.(tasks := CreditTime(s.taskList.tasks, s.taskList.selectedTaskId.value, s.history.currentSessionTime))
      else s.taskList;
    var resetTime :=
      if s.phase.isBreak
      then BreakSeconds(s.phase.completedCycles, s.settings.cyclesUntilLongBreak, s.settings.shortBreak, s.settings.longBreak)
      else DefaultFocusSeconds;
    s.(phase := s.phase.(isRunning := false, timeLeft := resetTime, originalSessionTime := resetTime),
       taskList := credited, history := s.history.(currentSessionTime := 0), view := s.view.(showFocusPopup := false))
  }

  lemma StopKeepsInv(s: FocusState)
    requires Inv(s)
    ensures Inv(Stop(s))
  {
    CreditSelectedKeepsSelection(s.taskList.tasks, s.taskList.selectedTaskId, s.history.currentSessionTime);
  }

  /** Stopping adds the phase's seconds to the ledger once per task carrying
      the selected id, and only for a focus phase. */
  lemma StopCreditsLedger(s: FocusState)
    ensures TotalWorked(Stop(s).taskList.tasks) == TotalWorked(s.taskList.tasks) +
              (if s.taskList.selectedTaskId.Some? && s.history.currentSessionTime > 0 && !s.phase.isBreak
               then s.history.currentSessionTime * CountId(s.taskList.tasks, s.taskList.selectedTaskId.value)
               else 0)
  {
    if s.taskList.selectedTaskId.Some? && s.history.currentSessionTime > 0 && !s.phase.isBreak {
      CreditTimeTotal(s.taskList.tasks, s.taskList.selectedTaskId.value, s.history.currentSessionTime);
    }
  }

  /** `resetTimer`: back to the first cycle of focus, at the remembered
      first-cycle length when there is one. */
  function Reset(s: FocusState): (r: FocusState)
    ensures Inv(s) ==> Inv(r)
    ensures var t := StoredOr(s.memory.initialCycle1Timer, s.phase.originalSessionTime);
            r.phase == Phase(t, false, false, 0, t)
    ensures r == s.(phase := r.phase, history := s.history.(currentSessionTime := 0),
                    view := s.view.(showFocusPopup := false))
  {
    var resetTime := StoredOr(s.memory.initialCycle1Timer, s.phase.originalSessionTime);
    s.(phase := Phase(resetTime, false, false, 0, resetTime), history := s.history.(currentSessionTime := 0),
       view := s.view.(showFocusPopup := false))
  }

  /** After a reset the panel shows cycle 1 and offers no reset control. */
  lemma ResetShowsFirstCycle(s: FocusState)
    ensures TimerSection.CycleLabel(Reset(s).phase.completedCycles) == "Cycle 1"
    ensures !TimerSection.ShowResetCycles(Reset(s).phase.completedCycles)
  {
    assert JsText.NatToString(1) == "1";
  }

  // ----- the timer editor -----

  /** `startEditingTimer`: editing begins, with an empty field, only while
      the timer is stopped. */
  function StartEditing(s: FocusState): (r: FocusState)
    ensures Inv(s) ==> Inv(r)
    ensures !s.phase.isRunning ==> r == s.(view := s.view.(isEditingTimer := true, editTimeValue := ""))
    ensures s.phase.isRunning ==> r == s
  {
    if !s.phase.isRunning then s.(view := s.view.(isEditingTimer := true, editTimeValue := "")) else s
  }

  /** A click on the display runs the edit handler exactly when the panel
      says a click edits, and the handler agrees: both test the timer is stopped. */
  lemma DisplayClickEdits(s: FocusState)
    ensures TimerSection.ClickStartsEdit(s.phase.isRunning) ==>
              StartEditing(s).view.isEditingTimer && StartEditing(s).view.editTimeValue == ""
    ensures !TimerSection.ClickStartsEdit(s.phase.isRunning) ==> StartEditing(s) == s
  {
  }

  /** `parseInt` followed by the `0 < m <= 120` test. */
  predicate AcceptedMinutes(editTimeValue: string)
  {
    var m := JsText.ParseInt(editTimeValue);
    m.Some? && 0 < m.value <= MaxEditMinutes as int
  }

  /** `saveTimerEdit`. Accepted minutes become the focus length, the
      custom length and the remembered first-cycle length, and clear the
      phase's seconds; anything else only closes the editor. */
  function SaveEdit(s: FocusState): (r: FocusState)
    ensures Inv(s) ==> Inv(r)
    ensures !r.view.isEditingTimer
    ensures AcceptedMinutes(s.view.editTimeValue) ==>
              var t := JsText.ParseInt(s.view.editTimeValue).value * SecondsPerMinute;
              t > 0 && r.phase.timeLeft == t && r.phase.originalSessionTime == t
              && r.memory == TimerMemory(true, t, Some(t), Some(t))
              && r == s.(phase := s.phase.(timeLeft := t, originalSessionTime := t), memory := r.memory,
                         history := s.history.(currentSessionTime := 0), view := s.view.(isEditingTimer := false))
    ensures !AcceptedMinutes(s.view.editTimeValue) ==> r == s.(view := s.view.(isEditingTimer := false))
  {
    var newMinutes := JsText.ParseInt(s.view.editTimeValue);
    var closed := s.view.(isEditingTimer := false);
    if newMinutes.Some? && newMinutes.value > 0 && newMinutes.value <= MaxEditMinutes as int then
      var newTime: nat := newMinutes.value * SecondsPerMinute;
      s.(phase := s.phase.(timeLeft := newTime, originalSessionTime := newTime),
         memory := TimerMemory(true, newTime, Some(newTime), Some(newTime)),
         history := s.history.(currentSessionTime := 0), view := closed)
    else
      s.(view := closed)
  }

  /** Typing a number of minutes from 1 to 120 (with leading blanks and any
      non-digit tail, both of which `parseInt` skips) sets the timer to that
      many minutes. */
  lemma SaveEditOfTypedMinutes(s: FocusState, ws: string, m: nat, rest: string)
    requires JsText.AllWhitespace(ws)
    requires JsText.StopsDecimal(m, rest)
    requires s.view.editTimeValue == ws + JsText.NatToString(m) + rest
    requires 1 <= m <= MaxEditMinutes
    ensures SaveEdit(s).phase.timeLeft == m * 60 && SaveEdit(s).phase.originalSessionTime == m * 60
    ensures SaveEdit(s).memory.initialCycle1Timer == Some(m * 60) && SaveEdit(s).memory.customFocusTime == m * 60
    ensures SaveEdit(s).history.currentSessionTime == 0 && !SaveEdit(s).view.isEditingTimer
  {
    JsText.ParseIntOfDecimal(ws, m, rest);
  }

  /** Zero, more than 120 minutes, a negative number or a blank field
      changes nothing but closing the editor. */
  lemma SaveEditRejects(s: FocusState, ws: string, c: char, m: nat)
    requires JsText.AllWhitespace(ws)
    requires c == '-' || c == '+'
    ensures m == 0 || m > MaxEditMinutes ==>
              (s.view.editTimeValue == ws + JsText.NatToString(m) ==> SaveEdit(s) == s.(view := s.view.(isEditingTimer := false)))
    ensures c == '-' && s.view.editTimeValue == ws + [c] + JsText.NatToString(m) ==>
              SaveEdit(s) == s.(view := s.view.(isEditingTimer := false))
    ensures s.view.editTimeValue == ws ==> SaveEdit(s) == s.(view := s.view.(isEditingTimer := false))
  {
    if s.view.editTimeValue == ws + JsText.NatToString(m) {
      JsText.ParseIntOfDecimal(ws, m, []);
      assert ws + JsText.NatToString(m) + [] == ws + JsText.NatToString(m);
    }
    if s.view.editTimeValue == ws + [c] + JsText.NatToString(m) {
      JsText.ParseIntOfSignedDecimal(ws, c, m, []);
      assert ws + [c] + JsText.NatToString(m) + [] == ws + [c] + JsText.NatToString(m);
    }
    if s.view.editTimeValue == ws {
      JsText.ParseIntBlank(ws);
    }
  }

  /** `cancelTimerEdit`: closes the editor and empties its field. */
  function CancelEdit(s: FocusState): (r: FocusState)
    ensures Inv(s) ==> Inv(r)
    ensures !r.view.isEditingTimer && r.view.editTimeValue == ""
    ensures r == s.(view := s.view.(isEditingTimer := false, editTimeValue := ""))
  {
    s.(view := s.view.(isEditingTimer := false, editTimeValue := ""))
  }

  /** `handleTimerEditKeyDown`: Enter saves, Escape cancels, other keys do nothing here. */
  function EditKey(s: FocusState, key: string): (r: FocusState)
    ensures Inv(s) ==> Inv(r)
    ensures key == "Enter" ==> r == SaveEdit(s)
    ensures key == "Escape" ==> r == CancelEdit(s)
    ensures key != "Enter" && key != "Escape" ==> r == s
  {
    if key == "Enter" then SaveEdit(s) else if key == "Escape" then CancelEdit(s) else s
  }

  /** The window's Space handler: outside the editor and outside text
      fields, Space pauses a running timer and starts a stopped one. Both
      arms of the handler's inner test do the same, so the test is dropped. */
  function SpaceKey(s: FocusState, code: string, isTyping: bool): (r: FocusState)
    ensures Inv(s) ==> Inv(r)
    ensures code == "Space" && !s.view.isEditingTimer && !isTyping ==>
              r == if s.phase.isRunning then Pause(s) else Start(s)
    ensures !(code == "Space" && !s.view.isEditingTimer && !isTyping) ==> r == s
  {
    if code == "Space" && !s.view.isEditingTimer && !isTyping then
      if s.phase.isRunning then Pause(s) else Start(s)
    else s
  }

  /** The panel offers Pause after Start and Start after every handler
      that stops the timer; a completing tick shows Start until its
      auto-start shows Pause again. */
  lemma ControlsFollowHandlers(s: FocusState, sessionId: string, date: string)
    ensures TimerSection.ShowsPause(Start(s).phase.isRunning) && !TimerSection.ShowsStart(Start(s).phase.isRunning)
    ensures TimerSection.ShowsStart(Pause(s).phase.isRunning) && !TimerSection.ShowsPause(Pause(s).phase.isRunning)
    ensures TimerSection.ShowsStart(Stop(s).phase.isRunning) && TimerSection.ShowsStart(Reset(s).phase.isRunning)
    ensures s.phase.isRunning && s.phase.timeLeft <= 1 ==>
              var (t, k) := Tick(s, sessionId, date);
              TimerSection.ShowsStart(t.phase.isRunning) && TimerSection.ShowsPause(AutoStart(t, k.value).phase.isRunning)
  {
  }

  /** Space does what the visible control would: Start where Start is
      shown, Pause where Pause is shown; so it always flips `isRunning`. */
  lemma SpaceKeyMatchesControl(s: FocusState, isTyping: bool)
    requires !s.view.isEditingTimer && !isTyping
    ensures TimerSection.ShowsStart(s.phase.isRunning) ==> SpaceKey(s, "Space", isTyping) == Start(s)
    ensures TimerSection.ShowsPause(s.phase.isRunning) ==> SpaceKey(s, "Space", isTyping) == Pause(s)
    ensures SpaceKey(s, "Space", isTyping).phase.isRunning == !s.phase.isRunning
  {
  }

  // ----- the task handlers -----

  /** `addTask`: a blank entry is ignored; otherwise the trimmed text
      becomes a new, incomplete task with no time at the top of the list,
      and the entry field is emptied. */
  function AddTask(s: FocusState, id: TaskId): (r: FocusState)
    ensures JsText.AllWhitespace(s.taskList.newTask) ==> r == s
    ensures !JsText.AllWhitespace(s.taskList.newTask) ==>
              JsText.Trim(s.taskList.newTask) != []
              && r == s.(taskList := s.taskList.(tasks := [Task(id, JsText.Trim(s.taskList.newTask), false, 0)] + s.taskList.tasks,
                                                 newTask := ""))
  {
    var text := JsText.Trim(s.taskList.newTask);
    if text != [] then s.(taskList := s.taskList.(tasks := [Task(id, text, false, 0)] + s.taskList.tasks, newTask := ""))
    else s
  }

  lemma AddTaskKeepsInv(s: FocusState, id: TaskId)
    requires Inv(s)
    ensures Inv(AddTask(s, id))
  {
    if !JsText.AllWhitespace(s.taskList.newTask) {
      PrependKeepsSelection(Task(id, JsText.Trim(s.taskList.newTask), false, 0), s.taskList.tasks, s.taskList.selectedTaskId);
    }
  }

  /** The selection after the task `id` is completed or removed. */
  function DropSelection(sel: Option<TaskId>, id: TaskId): Option<TaskId>
  {
    if sel == Some(id) then None else sel
  }

  /** `toggleTask`: flips completion on the tasks with the id and no other,
      drops the selection exactly when it was that id, and writes no history. */
  function ToggleTask(s: FocusState, id: TaskId): (r: FocusState)
    ensures r.taskList.tasks == ToggleById(s.taskList.tasks, id)
    ensures r.taskList.selectedTaskId == if s.taskList.selectedTaskId == Some(id) then None else s.taskList.selectedTaskId
    ensures r.history == s.history
    ensures r == s.(taskList := s.taskList.(tasks := r.taskList.tasks, selectedTaskId := r.taskList.selectedTaskId))
  {
    s.(taskList := s.taskList.(tasks := ToggleById(s.taskList.tasks, id),
                               selectedTaskId := DropSelection(s.taskList.selectedTaskId, id)))
  }

  /** Toggling twice gives the tasks back. */
  lemma ToggleTaskTwice(s: FocusState, id: TaskId)
    ensures ToggleTask(ToggleTask(s, id), id).taskList.tasks == s.taskList.tasks
  {
    ToggleTwice(s.taskList.tasks, id);
  }

  lemma ToggleTaskKeepsInv(s: FocusState, id: TaskId)
    requires Inv(s)
    ensures Inv(ToggleTask(s, id))
  {
    ToggleKeepsSelection(s.taskList.tasks, id, s.taskList.selectedTaskId);
  }

  /** `deleteTask`: removes every task with the id and drops the selection
      exactly when it was that id. */
  function DeleteTask(s: FocusState, id: TaskId): (r: FocusState)
    ensures r.taskList.tasks == WithoutId(s.taskList.tasks, id)
    ensures r.taskList.selectedTaskId == if s.taskList.selectedTaskId == Some(id) then None else s.taskList.selectedTaskId
    ensures r == s.(taskList := s.taskList.(tasks := r.taskList.tasks, selectedTaskId := r.taskList.selectedTaskId))
  {
    s.(taskList := s.taskList.(tasks := WithoutId(s.taskList.tasks, id),
                               selectedTaskId := DropSelection(s.taskList.selectedTaskId, id)))
  }

  lemma DeleteTaskKeepsInv(s: FocusState, id: TaskId)
    requires Inv(s)
    ensures Inv(DeleteTask(s, id))
  {
    RemoveKeepsSelection(s.taskList.tasks, id, s.taskList.selectedTaskId);
  }

  /** `clearCompletedTasks`: keeps exactly the incomplete tasks, in order. */
  function ClearCompleted(s: FocusState): (r: FocusState)
    ensures Inv(s) ==> Inv(r)
    ensures r.taskList.tasks == Incomplete(s.taskList.tasks)
    ensures r == s.(taskList := s.taskList.(tasks := r.taskList.tasks))
  {
    s.(taskList := s.taskList.(tasks := Incomplete(s.taskList.tasks)))
  }

  /** `selectTask`: a completed task cannot be selected; otherwise clicking
      selects the task, or unselects it when it already was. */
  function SelectTask(s: FocusState, id: TaskId): (r: FocusState)
    ensures Inv(s) ==> Inv(r)
    ensures (Find(s.taskList.tasks, id).Some? && Find(s.taskList.tasks, id).value.completed) ==> r == s
    ensures !(Find(s.taskList.tasks, id).Some? && Find(s.taskList.tasks, id).value.completed) ==>
              r == s.(taskList := s.taskList.(selectedTaskId := if s.taskList.selectedTaskId == Some(id) then None else Some(id)))
  {
    var toggled := s.(taskList := s.taskList.(selectedTaskId := if s.taskList.selectedTaskId == Some(id) then None else Some(id)));
    match Find(s.taskList.tasks, id)
    case Some(t) => if t.completed then s else toggled
    case None => toggled
  }

  /** `clearNotepad`. */
  function ClearNotepad(s: FocusState): (r: FocusState)
    ensures Inv(s) ==> Inv(r)
    ensures r.notepadContent == "" && r == s.(notepadContent := "")
  {
    s.(notepadContent := "")
  }

  // ----- several ticks -----

  /** `n` firings of the interval in a row; the interval is gone once the
      timer stops. */
  function Ticks(s: FocusState, n: nat, sessionId: string, date: string): FocusState
    decreases n
  {
    if n == 0 || !s.phase.isRunning then s else Ticks(Tick(s, sessionId, date).0, n - 1, sessionId, date)
  }

  /** Before the last second, ticks only count down and count up. */
  lemma {:induction false} CountdownTicks(s: FocusState, n: nat, sessionId: string, date: string)
    requires s.phase.isRunning && n < s.phase.timeLeft
    ensures Ticks(s, n, sessionId, date) ==
              s.(phase := s.phase.(timeLeft := s.phase.timeLeft - n),
                 history := s.history.(currentSessionTime := s.history.currentSessionTime + n))
    decreases n
  {
    if n > 0 {
      var t := Tick(s, sessionId, date).0;
      CountdownTicks(t, n - 1, sessionId, date);
    }
  }

  /** Running a focus phase out: `timeLeft` ticks later the phase has
      completed. The record and the credit carry one second less than were
      ticked, because the last tick's second is counted after completion
      read the phase's seconds; the next phase starts with its countdown at
      0 and one second on its clock. */
  lemma FocusPhaseRunsOut(s: FocusState, sessionId: string, date: string)
    requires s.phase.isRunning && !s.phase.isBreak && s.phase.timeLeft >= 1
    ensures var r := Ticks(s, s.phase.timeLeft, sessionId, date);
            var secs := s.history.currentSessionTime + s.phase.timeLeft - 1;
            !r.phase.isRunning
            && r.phase.completedCycles == s.phase.completedCycles + 1
            && r.history.sessions == [FocusSession(sessionId, date, secs, 0, s.phase.completedCycles + 1)] + s.history.sessions
            && r.taskList.tasks == CreditSelected(s.taskList.tasks, s.taskList.selectedTaskId, secs)
            && r.phase.timeLeft == 0 && r.history.currentSessionTime == 1
            && r.phase.isBreak == s.settings.enableBreaks
  {
    var n := s.phase.timeLeft - 1;
    CountdownTicks(s, n, sessionId, date);
    TicksSplit(s, n, 1, sessionId, date);
  }

  /** Ticking `a` then `b` times is ticking `a + b` times. */
  lemma {:induction false} TicksSplit(s: FocusState, a: nat, b: nat, sessionId: string, date: string)
    ensures Ticks(s, a + b, sessionId, date) == Ticks(Ticks(s, a, sessionId, date), b, sessionId, date)
    decreases a
  {
    if a > 0 && s.phase.isRunning {
      TicksSplit(Tick(s, sessionId, date).0, a - 1, b, sessionId, date);
    }
  }

  /** The seconds the timer panel shows for a state. */
  function Displayed(s: FocusState): nat
  {
    TimerSection.DisplayedSeconds(s.phase.timeLeft, s.phase.isBreak, s.settings.enableBreaks, s.phase.completedCycles,
                                  s.settings.cyclesUntilLongBreak, s.settings.shortBreak, s.settings.longBreak)
  }

  /** When a focus phase ends in a break, the display shows the break's
      length although the countdown has been set to 0. */
  lemma BreakDisplayShowsBreakLength(s: FocusState, sessionId: string, date: string)
    requires s.phase.isRunning && !s.phase.isBreak && s.settings.enableBreaks && s.phase.timeLeft <= 1
    ensures var r := Tick(s, sessionId, date).0;
            r.phase.timeLeft == 0 && r.phase.isBreak && Displayed(r) == r.phase.originalSessionTime
  {
  }

  /** Stopping during a break refills the countdown with exactly what the
      display shows. */
  lemma StopInBreakMatchesDisplay(s: FocusState)
    requires s.phase.isBreak && s.settings.enableBreaks
    ensures Displayed(Stop(s)) == Stop(s).phase.timeLeft
  {
  }

  /** In every state the model can reach, the progress bar shows the
      elapsed share without the clamp coming into play. */
  lemma ProgressInReachableState(s: FocusState)
    requires Inv(s) && s.phase.originalSessionTime > 0 && (s.phase.timeLeft > 0 || s.phase.isRunning)
    ensures FocusFormat.GetProgress(s.phase.originalSessionTime, s.phase.timeLeft, s.phase.isRunning)
            * s.phase.originalSessionTime as real
            == (s.phase.originalSessionTime - s.phase.timeLeft) as real * 100.0
  {
    FocusFormat.ProgressIsElapsedShare(s.phase.originalSessionTime, s.phase.timeLeft, s.phase.isRunning);
  }

  // ----- every handler, in any order -----

  /** The timer's events: the interval's firing, the auto-start and the
      timer controls. */
  datatype TimerEvent =
    | TickEvent(sessionId: string, date: string)
    | AutoStartEvent(resume: Resume)
    | StartEvent
    | PauseEvent
    | StopEvent
    | ResetEvent
    | StartEditEvent
    | EditKeyEvent(key: string)
    | SaveEditEvent
    | CancelEditEvent
    | SpaceKeyEvent(code: string, isTyping: bool)

  /** The task list's and the notes pad's handlers. */
  datatype TaskEvent =
    | AddTaskEvent(id: TaskId)
    | ToggleTaskEvent(id: TaskId)
    | DeleteTaskEvent(id: TaskId)
    | ClearCompletedEvent
    | SelectTaskEvent(id: TaskId)
    | ClearNotepadEvent

  /** Plain writes from input fields and the settings menu. */
  datatype InputEvent =
    | TypeNewTask(text: string)
    | TypeEditValue(text: string)
    | TypeNotes(text: string)
    | SetShortBreak(minutes: nat)
    | SetLongBreak(minutes: nat)
    | SetCyclesUntilLongBreak(cycles: nat)
    | SetEnableBreaks(enabled: bool)

  /** One thing that can happen to the module. */
  datatype Event = Timer(timer: TimerEvent) | TaskAction(task: TaskEvent) | Input(input: InputEvent)

  /** What a timer event does. The interval fires only while the timer runs. */
  function ApplyTimer(s: FocusState, e: TimerEvent): FocusState
  {
    match e
    case TickEvent(sessionId, date) => if s.phase.isRunning then Tick(s, sessionId, date).0 else s
    case AutoStartEvent(resume) => AutoStart(s, resume)
    case StartEvent => Start(s)
    case PauseEvent => Pause(s)
    case StopEvent => Stop(s)
    case ResetEvent => Reset(s)
    case StartEditEvent => StartEditing(s)
    case EditKeyEvent(key) => EditKey(s, key)
    case SaveEditEvent => SaveEdit(s)
    case CancelEditEvent => CancelEdit(s)
    case SpaceKeyEvent(code, isTyping) => SpaceKey(s, code, isTyping)
  }

  function ApplyTask(s: FocusState, e: TaskEvent): FocusState
  {
    match e
    case AddTaskEvent(id) => AddTask(s, id)
    case ToggleTaskEvent(id) => ToggleTask(s, id)
    case DeleteTaskEvent(id) => DeleteTask(s, id)
    case ClearCompletedEvent => ClearCompleted(s)
    case SelectTaskEvent(id) => SelectTask(s, id)
    case ClearNotepadEvent => ClearNotepad(s)
  }

  function ApplyInput(s: FocusState, e: InputEvent): FocusState
  {
    match e
    case TypeNewTask(text) => s.(taskList := s.taskList.(newTask := text))
    case TypeEditValue(text) => s.(view := s.view.(editTimeValue := text))
    case TypeNotes(text) => s.(notepadContent := text)
    case SetShortBreak(minutes) => s.(settings := s.settings.(shortBreak := minutes))
    case SetLongBreak(minutes) => s.(settings := s.settings.(longBreak := minutes))
    case SetCyclesUntilLongBreak(cycles) => s.(settings := s.settings.(cyclesUntilLongBreak := cycles))
    case SetEnableBreaks(enabled) => s.(settings := s.settings.(enableBreaks := enabled))
  }

  function Apply(s: FocusState, e: Event): FocusState
  {
    match e
    case Timer(t) => ApplyTimer(s, t)
    case TaskAction(t) => ApplyTask(s, t)
    case Input(i) => ApplyInput(s, i)
  }

  lemma ApplyTimerKeepsInv(s: FocusState, e: TimerEvent)
    requires Inv(s)
    ensures Inv(ApplyTimer(s, e))
  {
    match e
    case TickEvent(sessionId, date) =>
      if s.phase.isRunning {
        TickKeepsInv(s, sessionId, date);
      }
    case StopEvent => StopKeepsInv(s);
    case AutoStartEvent(resume) =>
    case StartEvent =>
    case PauseEvent =>
    case ResetEvent =>
    case StartEditEvent =>
    case EditKeyEvent(key) =>
    case SaveEditEvent =>
    case CancelEditEvent =>
    case SpaceKeyEvent(code, isTyping) =>
  }

  lemma ApplyTaskKeepsInv(s: FocusState, e: TaskEvent)
    requires Inv(s)
    ensures Inv(ApplyTask(s, e))
  {
    match e
    case AddTaskEvent(id) => AddTaskKeepsInv(s, id);
    case ToggleTaskEvent(id) => ToggleTaskKeepsInv(s, id);
    case DeleteTaskEvent(id) => DeleteTaskKeepsInv(s, id);
    case ClearCompletedEvent =>
    case SelectTaskEvent(id) =>
    case ClearNotepadEvent =>
  }

  lemma ApplyInputKeepsInv(s: FocusState, e: InputEvent)
    requires Inv(s)
    ensures Inv(ApplyInput(s, e))
  {
  }

  /** Every event keeps the invariant. */
  lemma ApplyKeepsInv(s: FocusState, e: Event)
    requires Inv(s)
    ensures Inv(Apply(s, e))
  {
    match e
    case Timer(t) => ApplyTimerKeepsInv(s, t);
    case TaskAction(t) => ApplyTaskKeepsInv(s, t);
    case Input(i) => ApplyInputKeepsInv(s, i);
  }

  /** The state after a sequence of events, oldest first. */
  function Run(s: FocusState, events: seq<Event>): FocusState
    decreases |events|
  {
    if events == [] then s else Run(Apply(s, events[0]), events[1..])
  }

  /** Whatever happens from the start, the countdown stays within its phase
      and no completed task is selected. */
  lemma {:induction false} RunKeepsInv(s: FocusState, events: seq<Event>)
    requires Inv(s)
    ensures Inv(Run(s, events))
    decreases |events|
  {
    if events != [] {
      ApplyKeepsInv(s, events[0]);
      RunKeepsInv(Apply(s, events[0]), events[1..]);
    }
  }

  /** Every reachable state satisfies the invariant. */
  lemma ReachableInv(events: seq<Event>)
    ensures Inv(Run(Initial(), events))
  {
    RunKeepsInv(Initial(), events);
  }
}
