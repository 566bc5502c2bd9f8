/** The focus module as an object. The component's state cells are its
    fields, kept in the blocks the component declares them in (one record
    of `FocusSpec` per block, the notes pad on its own). React applies the
    setter calls a handler makes together, once the handler returns, and
    every read inside the handler sees the values it started with; so each
    handler is a method that reads the fields it starts with and writes each
    block it touches once, with the cells its setters write. Every handler
    leaves the object in the state the matching `FocusSpec` transition
    computes from the state it started in, and keeps `Valid`. */
module FocusModule {
  import opened Wrappers
  import opened Tasks
  import opened Timing
  import JsText
  import FocusSpec

  class FocusTimer {
    var phase: FocusSpec.Phase
    var settings: FocusSpec.Settings
    var memory: FocusSpec.TimerMemory
    var taskList: FocusSpec.TaskList
    var history: FocusSpec.History
    var view: FocusSpec.View
    var notepadContent: string

    /** The cells as one value. */
    ghost function Snapshot(): FocusSpec.FocusState
      reads this
    {
      FocusSpec.FocusState(phase, settings, memory, taskList, history, view, notepadContent)
    }

    /** The object's cells keep `FocusSpec.Inv`. */
    ghost predicate Valid()
      reads this
    {
      FocusSpec.Inv(Snapshot())
    }

    /** The state cells' initial values. */
    constructor ()
      ensures Snapshot() == FocusSpec.Initial()
      ensures Valid()
    {
      phase := FocusSpec.Phase(DefaultFocusSeconds, false, false, 0, DefaultFocusSeconds);
      settings := FocusSpec.Settings(5, 15, 4, true);
      memory := FocusSpec.TimerMemory(false, DefaultFocusSeconds, None, None);
      taskList := FocusSpec.TaskList([], "", None);
      history := FocusSpec.History([], 0);
      view := FocusSpec.View(false, false, false, "");
      notepadContent := "";
    }

    // ----- completion and the tick -----

    /** `handleSessionComplete`; returns what the scheduled auto-start will do. */
    method SessionComplete(sessionId: string, date: string) returns (resume: FocusSpec.Resume)
      requires Valid()
      modifies this
      ensures (Snapshot(), resume) == FocusSpec.SessionComplete(old(Snapshot()), sessionId, date)
      ensures Valid()
    {
      FocusSpec.CreditSelectedKeepsSelection(taskList.tasks, taskList.selectedTaskId, history.currentSessionTime);
      var origTime := phase.originalSessionTime;
      var nextFocusTime := StoredOr(memory.initialCycle1Timer, origTime);
      var seconds := history.currentSessionTime;
      if !phase.isBreak {
        var newCompletedCycles := phase.completedCycles + 1;
        if newCompletedCycles == 1 {
          memory := memory.(cycle1FocusTime := Some(origTime), initialCycle1Timer := Some(origTime));
        }
        if taskList.selectedTaskId.Some? {
          taskList := taskList.(tasks := CreditTime(taskList.tasks, taskList.selectedTaskId.value, seconds));
        }
        history := FocusSpec.History([FocusSession(sessionId, date, seconds, 0, newCompletedCycles)] + history.sessions, 0);
        if settings.enableBreaks {
          var breakTime := BreakSeconds(newCompletedCycles, settings.cyclesUntilLongBreak, settings.shortBreak, settings.longBreak);
          phase := FocusSpec.Phase(breakTime, false, true, newCompletedCycles, breakTime);
          resume := FocusSpec.ResumeBreak;
        } else {
          phase := FocusSpec.Phase(nextFocusTime, false, false, newCompletedCycles, nextFocusTime);
          resume := FocusSpec.ResumeFocus(taskList.selectedTaskId.Some?);
        }
      } else {
        phase := FocusSpec.Phase(nextFocusTime, false, false, phase.completedCycles, nextFocusTime);
        history := history.(currentSessionTime := 0);
        resume := FocusSpec.ResumeFocus(taskList.selectedTaskId.Some?);
      }
      view := view.(showFocusPopup := false);
    }

    /** One firing of the interval: the countdown's functional updates, with
        the completion run first when the countdown reaches its end. */
    method Tick(sessionId: string, date: string) returns (resume: Option<FocusSpec.Resume>)
      requires Valid() && phase.isRunning
      modifies this
      ensures (Snapshot(), resume) == FocusSpec.Tick(old(Snapshot()), sessionId, date)
      ensures Valid()
    {
      if phase.timeLeft <= 1 {
        var k := SessionComplete(sessionId, date);
        phase := phase.(timeLeft := 0);
        resume := Some(k);
      } else {
        phase := phase.(timeLeft := phase.timeLeft - 1);
        resume := None;
      }
      history := history.(currentSessionTime := history.currentSessionTime + 1);
    }

    /** The auto-start that a completion scheduled. */
    method AutoStart(resume: FocusSpec.Resume)
      requires Valid()
      modifies this
      ensures Snapshot() == FocusSpec.AutoStart(old(Snapshot()), resume)
      ensures Valid()
    {
      phase := phase.(isRunning := true);
      if resume == FocusSpec.ResumeFocus(true) {
        view := view.(showFocusPopup := true, isMinimized := false);
      }
    }

    // ----- the timer controls -----

    /** `startTimer` */
    method Start()
      requires Valid()
      modifies this
      ensures Snapshot() == FocusSpec.Start(old(Snapshot()))
      ensures Valid()
    {
      if phase.completedCycles == 0 && Unset(memory.initialCycle1Timer) {
        memory := memory.(initialCycle1Timer := Some(phase.originalSessionTime), cycle1FocusTime := Some(phase.originalSessionTime));
      }
      if taskList.selectedTaskId.Some? && !phase.isBreak {
        view := view.(showFocusPopup := true, isMinimized := false);
      }
      phase := phase.(isRunning := true);
    }

    /** `pauseTimer` */
    method Pause()
      requires Valid()
      modifies this
      ensures Snapshot() == FocusSpec.Pause(old(Snapshot()))
      ensures Valid()
    {
      if !phase.isBreak {
        view := view.(showFocusPopup := false);
      }
      phase := phase.(isRunning := false);
    }

    /** `stopTimer` */
    method Stop()
      requires Valid()
      modifies this
      ensures Snapshot() == FocusSpec.Stop(old(Snapshot()))
      ensures Valid()
    {
      FocusSpec.CreditSelectedKeepsSelection(taskList.tasks, taskList.selectedTaskId, history.currentSessionTime);
      if taskList.selectedTaskId.Some? && history.currentSessionTime > 0 && !phase.isBreak {
        taskList := taskList.(tasks := CreditTime(taskList.tasks, taskList.selectedTaskId.value, history.currentSessionTime));
      }
      var resetTime := if phase.isBreak
                       then BreakSeconds(phase.completedCycles, settings.cyclesUntilLongBreak, settings.shortBreak, settings.longBreak)
                       else DefaultFocusSeconds;
      phase := phase.(isRunning := false, timeLeft := resetTime, originalSessionTime := resetTime);
      history := history.(currentSessionTime := 0);
      view := view.(showFocusPopup := false);
    }

    /** `resetTimer` */
    method Reset()
      requires Valid()
      modifies this
      ensures Snapshot() == FocusSpec.Reset(old(Snapshot()))
      ensures Valid()
    {
      var resetTime := StoredOr(memory.initialCycle1Timer, phase.originalSessionTime);
      phase := FocusSpec.Phase(resetTime, false, false, 0, resetTime);
      history := history.(currentSessionTime := 0);
      view := view.(showFocusPopup := false);
    }

    // ----- the timer editor -----

    /** `startEditingTimer` */
    method StartEditing()
      requires Valid()
      modifies this
      ensures Snapshot() == FocusSpec.StartEditing(old(Snapshot()))
      ensures Valid()
    {
      if !phase.isRunning {
        view := view.(isEditingTimer := true, editTimeValue := "");
      }
    }

    /** `saveTimerEdit` */
    method SaveEdit()
      requires Valid()
      modifies this
      ensures Snapshot() == FocusSpec.SaveEdit(old(Snapshot()))
      ensures Valid()
    {
      var newMinutes := JsText.ParseInt(view.editTimeValue);
      if newMinutes.Some? && newMinutes.value > 0 && newMinutes.value <= MaxEditMinutes as int {
        var newTime: nat := newMinutes.value * SecondsPerMinute;
        phase := phase.(timeLeft := newTime, originalSessionTime := newTime);
        history := history.(currentSessionTime := 0);
        memory := FocusSpec.TimerMemory(true, newTime, Some(newTime), Some(newTime));
      }
      view := view.(isEditingTimer := false);
    }

    /** `cancelTimerEdit` */
    method CancelEdit()
      requires Valid()
      modifies this
      ensures Snapshot() == FocusSpec.CancelEdit(old(Snapshot()))
      ensures Valid()
    {
      view := view.(isEditingTimer := false, editTimeValue := "");
    }

    /** `handleTimerEditKeyDown` */
    method EditKey(key: string)
      requires Valid()
      modifies this
      ensures Snapshot() == FocusSpec.EditKey(old(Snapshot()), key)
      ensures Valid()
    {
      if key == "Enter" {
        SaveEdit();
      } else if key == "Escape" {
        CancelEdit();
      }
    }

    /** The window's Space handler. */
    method SpaceKey(code: string, isTyping: bool)
      requires Valid()
      modifies this
      ensures Snapshot() == FocusSpec.SpaceKey(old(Snapshot()), code, isTyping)
      ensures Valid()
    {
      if code == "Space" && !view.isEditingTimer && !isTyping {
        if phase.isRunning {
          Pause();
        } else {
          Start();
        }
      }
    }

    // ----- the task handlers -----

    /** `addTask` */
    method AddTask(id: TaskId)
      requires Valid()
      modifies this
      ensures Snapshot() == FocusSpec.AddTask(old(Snapshot()), id)
      ensures Valid()
    {
      var text := JsText.Trim(taskList.newTask);
      if text != [] {
        PrependKeepsSelection(Task(id, text, false, 0), taskList.tasks, taskList.selectedTaskId);
        taskList := taskList.(tasks := [Task(id, text, false, 0)] + taskList.tasks, newTask := "");
      }
    }

    /** `toggleTask` */
    method ToggleTask(id: TaskId)
      requires Valid()
      modifies this
      ensures Snapshot() == FocusSpec.ToggleTask(old(Snapshot()), id)
      ensures Valid()
    {
      ToggleKeepsSelection(taskList.tasks, id, taskList.selectedTaskId);
      var selected := if taskList.selectedTaskId == Some(id) then None else taskList.selectedTaskId;
      taskList := taskList.(tasks := ToggleById(taskList.tasks, id), selectedTaskId := selected);
    }

    /** `deleteTask` */
    method DeleteTask(id: TaskId)
      requires Valid()
      modifies this
      ensures Snapshot() == FocusSpec.DeleteTask(old(Snapshot()), id)
      ensures Valid()
    {
      RemoveKeepsSelection(taskList.tasks, id, taskList.selectedTaskId);
      var selected := if taskList.selectedTaskId == Some(id) then None else taskList.selectedTaskId;
      taskList := taskList.(tasks := WithoutId(taskList.tasks, id), selectedTaskId := selected);
    }

    /** `clearCompletedTasks` */
    method ClearCompleted()
      requires Valid()
      modifies this
      ensures Snapshot() == FocusSpec.ClearCompleted(old(Snapshot()))
      ensures Valid()
    {
      taskList := taskList.(tasks := Incomplete(taskList.tasks));
    }

    /** `selectTask` */
    method SelectTask(id: TaskId)
      requires Valid()
      modifies this
      ensures Snapshot() == FocusSpec.SelectTask(old(Snapshot()), id)
      ensures Valid()
    {
      var found := Find(taskList.tasks, id);
      if found.Some? && found.value.completed {
        return;
      }
      taskList := taskList.(selectedTaskId := if taskList.selectedTaskId == Some(id) then None else Some(id));
    }

    /** `clearNotepad` */
    method ClearNotepad()
      requires Valid()
      modifies this
      ensures Snapshot() == FocusSpec.ClearNotepad(old(Snapshot()))
      ensures Valid()
    {
      notepadContent := "";
    }
  }
}
