/** What the timer panel derives from its props: the seconds on the big
    display, which control is offered, the phase badge and the cycle label. */
module TimerSection {
  import opened Wrappers
  import opened JsText
  import opened Timing

  /** The seconds the display shows. During a break with breaks enabled it
      shows the break's nominal length, chosen by the same rule as the
      completion that started it, rather than the countdown. */
  function DisplayedSeconds(timeLeft: nat, isBreak: bool, enableBreaks: bool, completedCycles: nat,
                            cyclesUntilLongBreak: nat, shortBreak: nat, longBreak: nat): nat
  {
    if isBreak then
      if enableBreaks then BreakSeconds(completedCycles, cyclesUntilLongBreak, shortBreak, longBreak)
      else timeLeft
    else timeLeft
  }

  /** The display follows the countdown except during an enabled break,
      where it is pinned to the break length and does not move when a tick
      lowers `timeLeft`. */
  lemma DisplayedSecondsRule(timeLeft: nat, isBreak: bool, enableBreaks: bool, completedCycles: nat,
                             cyclesUntilLongBreak: nat, shortBreak: nat, longBreak: nat, later: nat)
    ensures !(isBreak && enableBreaks) ==>
              DisplayedSeconds(timeLeft, isBreak, enableBreaks, completedCycles, cyclesUntilLongBreak, shortBreak, longBreak) == timeLeft
    ensures isBreak && enableBreaks ==>
              DisplayedSeconds(later, isBreak, enableBreaks, completedCycles, cyclesUntilLongBreak, shortBreak, longBreak)
              == DisplayedSeconds(timeLeft, isBreak, enableBreaks, completedCycles, cyclesUntilLongBreak, shortBreak, longBreak)
    ensures isBreak && enableBreaks ==>
              DisplayedSeconds(timeLeft, isBreak, enableBreaks, completedCycles, cyclesUntilLongBreak, shortBreak, longBreak)
              == (if IsLongBreak(completedCycles, cyclesUntilLongBreak) then longBreak else shortBreak) * SecondsPerMinute
  {
  }

  /** The Start control is offered while stopped. */
  predicate ShowsStart(isRunning: bool)
  {
    !isRunning
  }

  /** The Pause control is offered while running. */
  predicate ShowsPause(isRunning: bool)
  {
    isRunning
  }

  /** A click on the display asks to edit only while stopped. */
  predicate ClickStartsEdit(isRunning: bool)
  {
    !isRunning
  }

  /** The phase badge. */
  function PhaseBadge(isBreak: bool): (r: string)
    ensures r == "Break Time" <==> isBreak
    ensures r == "Focus Time" <==> !isBreak
  {
    if isBreak then "Break Time" else "Focus Time"
  }

  /** The cycle label: the number of the cycle in progress, one more than
      the completed ones. */
  function CycleLabel(completedCycles: nat): string
  {
    "Cycle " + NatToString(completedCycles + 1)
  }

  /** The number in the cycle label reads back as `completedCycles + 1`, so
      different counts give different labels. */
  lemma CycleLabelNumber(completedCycles: nat)
    ensures CycleLabel(completedCycles)[..6] == "Cycle "
    ensures ParseInt(CycleLabel(completedCycles)[6..]) == Some(completedCycles as int + 1)
  {
    var ds := NatToString(completedCycles + 1);
    assert CycleLabel(completedCycles)[6..] == [] + ds + [];
    ParseIntOfDecimal([], completedCycles + 1, []);
  }

  /** Labels of different counts differ. */
  lemma CycleLabelInjective(a: nat, b: nat)
    requires CycleLabel(a) == CycleLabel(b)
    ensures a == b
  {
    CycleLabelNumber(a);
    CycleLabelNumber(b);
  }

  /** The control that resets the cycle count appears from the first
      completed cycle on. */
  predicate ShowResetCycles(completedCycles: nat)
  {
    completedCycles >= 1
  }

  /** The reset control is offered exactly when the label is past cycle 1. */
  lemma ShowResetCyclesIff(completedCycles: nat)
    ensures ShowResetCycles(completedCycles) <==> CycleLabel(completedCycles) != "Cycle 1"
  {
    CycleLabelNumber(completedCycles);
    CycleLabelNumber(0);
    assert NatToString(1) == "1";
    if CycleLabel(completedCycles) == CycleLabel(0) {
      CycleLabelInjective(completedCycles, 0);
    }
  }
}
