/**
 * The component around the pure updaters: one state cell that the
 * handlers and the interval replace step by step, and the session switches
 * that the effect has scheduled but that have not fired yet.
 */
module Component {
  import Pomodoro
  import TimeFormat

  /**
   * The effect re-runs when `timerStatus` or `currentTime` changed; when it
   * then finds the clock at zero it sounds the alarm and schedules a session
   * switch seven seconds later.
   */
  predicate SchedulesSwitch(before: Pomodoro.PomodoroState, after: Pomodoro.PomodoroState): (b: bool)
    ensures b ==> after.currentTime == 0 && after != before
  {
    after.currentTime == 0
    && (after.currentTime != before.currentTime || after.timerStatus != before.timerStatus)
  }

  /**
   * Which updates make the effect schedule a switch: a tick that takes a
   * running clock from one to zero, and a start/pause press while the clock
   * shows zero; from valid durations, reset, a duration change and a switch
   * never do.
   */
  lemma SchedulingRules(s: Pomodoro.PomodoroState, increment: bool)
    requires Pomodoro.ValidDurations(s) && s.currentTime >= 0
    ensures SchedulesSwitch(s, Pomodoro.Tick(s)) <==> Pomodoro.TickEnabled(s) && s.currentTime == 1
    ensures SchedulesSwitch(s, Pomodoro.ToggleStartPause(s)) <==> s.currentTime == 0
    ensures !SchedulesSwitch(s, Pomodoro.Reset(s))
    ensures !SchedulesSwitch(s, Pomodoro.ChangeDuration(s, increment))
    ensures !SchedulesSwitch(s, Pomodoro.SessionSwitch(s))
  {
  }

  class PomodoroTimer {
    var state: Pomodoro.PomodoroState
    /** Session switches scheduled by the effect that have not fired yet; no handle to them is kept. */
    var pendingSwitches: nat

    /** The state invariant, and a clock stuck at zero always has a switch on its way. */
    ghost predicate Valid()
      reads this
    {
      Pomodoro.Valid(state) && (state.currentTime == 0 ==> pendingSwitches > 0)
    }

    constructor ()
      ensures Valid()
      ensures state == Pomodoro.Initial() && pendingSwitches == 0
    {
      state := Pomodoro.Initial();
      pendingSwitches := 0;
    }

    /** Stores `next` in the state cell and lets the effect react to the change. */
    method Commit(next: Pomodoro.PomodoroState)
      modifies this
      ensures state == next
      ensures pendingSwitches == old(pendingSwitches) + if SchedulesSwitch(old(state), next) then 1 else 0
    {
      if SchedulesSwitch(state, next) {
        pendingSwitches := pendingSwitches + 1;
      }
      state := next;
    }

    /** One second passes; reaching zero schedules the end-of-session switch. */
    method Tick()
      requires Valid()
      modifies this
      ensures Valid()
      ensures state == Pomodoro.Tick(old(state))
      ensures pendingSwitches == old(pendingSwitches) + if old(state).currentTime == 1 && Pomodoro.TickEnabled(old(state)) then 1 else 0
    {
      Commit(Pomodoro.Tick(state));
    }

    /** The oldest scheduled switch fires, whatever happened to the timer since it was scheduled. */
    method FireSwitch()
      requires Valid() && pendingSwitches > 0
      modifies this
      ensures Valid()
      ensures state == Pomodoro.SessionSwitch(old(state))
      ensures pendingSwitches == old(pendingSwitches) - 1
    {
      pendingSwitches := pendingSwitches - 1;
      state := Pomodoro.SessionSwitch(state);
    }

    /** The start/pause button; pressed while the clock shows zero it makes the effect schedule one more switch. */
    method StartPause()
      requires Valid()
      modifies this
      ensures Valid()
      ensures state == Pomodoro.ToggleStartPause(old(state))
      ensures pendingSwitches == old(pendingSwitches) + if old(state).currentTime == 0 then 1 else 0
    {
      Commit(Pomodoro.ToggleStartPause(state));
    }

    /** The reset button: the state goes back to a stopped work session, pending switches stay pending. */
    method Reset()
      requires Valid()
      modifies this
      ensures Valid()
      ensures state == Pomodoro.Reset(old(state))
      ensures pendingSwitches == old(pendingSwitches)
    {
      Commit(Pomodoro.Reset(state));
    }

    /** The plus or minus button. */
    method ChangeDuration(increment: bool)
      requires Valid()
      modifies this
      ensures Valid()
      ensures state == Pomodoro.ChangeDuration(old(state), increment)
      ensures pendingSwitches == old(pendingSwitches)
    {
      Commit(Pomodoro.ChangeDuration(state, increment));
    }

    /** The clock face shown for the current state; it reads back as the seconds left. */
    method Display() returns (text: string)
      requires Valid()
      ensures text == TimeFormat.FormatTime(state.currentTime)
      ensures TimeFormat.ParseTime(text) == TimeFormat.Some(state.currentTime)
      ensures state.currentTime < 6000 ==> |text| == 5
    {
      text := TimeFormat.FormatTime(state.currentTime);
      TimeFormat.FormatRoundTrip(state.currentTime);
    }
  }

  /**
   * Start, let the work session run out, press reset during the alarm: the
   * switch scheduled at zero still fires and moves the stopped timer to a break.
   */
  method ResetDuringAlarm()
    returns (afterReset: Pomodoro.PomodoroState, pendingAfterReset: nat, afterSwitch: Pomodoro.PomodoroState)
    ensures afterReset == Pomodoro.Initial() && pendingAfterReset == 1
    ensures afterSwitch == Pomodoro.PomodoroState(1500, 300, 300, Pomodoro.Break, Pomodoro.Idle)
  {
    var timer := new PomodoroTimer();
    timer.StartPause();
    var i := 0;
    while i < 1500
      invariant 0 <= i <= 1500
      invariant timer.Valid()
      invariant timer.state == Pomodoro.PomodoroState(1500, 300, 1500 - i, Pomodoro.Work, Pomodoro.Running)
      invariant timer.pendingSwitches == if i == 1500 then 1 else 0
    {
      timer.Tick();
      i := i + 1;
    }
    timer.Reset();
    afterReset, pendingAfterReset := timer.state, timer.pendingSwitches;
    timer.FireSwitch();
    afterSwitch := timer.state;
  }

  /**
   * Pausing while the alarm sounds changes `timerStatus` with the clock at
   * zero, so the effect schedules a second switch: the break is skipped and
   * the paused timer lands on a fresh work session.
   */
  method PauseDuringAlarm()
    returns (pendingAfterPause: nat, afterFirst: Pomodoro.PomodoroState, afterSecond: Pomodoro.PomodoroState)
    ensures pendingAfterPause == 2
    ensures afterFirst == Pomodoro.PomodoroState(1500, 300, 300, Pomodoro.Break, Pomodoro.Paused)
    ensures afterSecond == Pomodoro.PomodoroState(1500, 300, 1500, Pomodoro.Work, Pomodoro.Paused)
  {
    var timer := new PomodoroTimer();
    timer.StartPause();
    var i := 0;
    while i < 1500
      invariant 0 <= i <= 1500
      invariant timer.Valid()
      invariant timer.state == Pomodoro.PomodoroState(1500, 300, 1500 - i, Pomodoro.Work, Pomodoro.Running)
      invariant timer.pendingSwitches == if i == 1500 then 1 else 0
    {
      timer.Tick();
      i := i + 1;
    }
    timer.StartPause();
    pendingAfterPause := timer.pendingSwitches;
    timer.FireSwitch();
    afterFirst := timer.state;
    timer.FireSwitch();
    afterSecond := timer.state;
    assert timer.pendingSwitches == 0;
  }
}
