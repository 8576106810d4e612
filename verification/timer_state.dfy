/**
 * The Pomodoro timer's state record and the pure updaters that the
 * component hands to `setState`. Times are whole seconds.
 */
module Pomodoro {

  datatype Session = Work | Break
  datatype Status = Idle | Running | Paused

  /** The component's single state cell. */
  datatype PomodoroState = PomodoroState(
    workDuration: int,
    breakDuration: int,
    currentTime: int,
    currentSession: Session,
    timerStatus: Status)

  /** The floor of a configured duration and the size of one adjustment. */
  const MinDuration: int := 60
  const DurationStep: int := 60

  function Other(session: Session): Session {
    if session == Work then Break else Work
  }

  /** The configured length of `session`. */
  function DurationOf(s: PomodoroState, session: Session): int {
    if session == Work then s.workDuration else s.breakDuration
  }

  function CurrentDuration(s: PomodoroState): int {
    DurationOf(s, s.currentSession)
  }

  predicate SameDurations(s: PomodoroState, t: PomodoroState) {
    s.workDuration == t.workDuration && s.breakDuration == t.breakDuration
  }

  predicate ValidDurations(s: PomodoroState) {
    s.workDuration >= MinDuration && s.breakDuration >= MinDuration
  }

  /** Both durations respect the floor and the countdown lies within the current session. */
  predicate Valid(s: PomodoroState) {
    ValidDurations(s) && 0 <= s.currentTime <= CurrentDuration(s)
  }

  /** The state the component is mounted with: 25 minutes of work, 5 of break, not started. */
  function Initial(): (r: PomodoroState)
    ensures Valid(r)
    ensures r.currentSession == Work && r.timerStatus == Idle
    ensures r.currentTime == CurrentDuration(r) == 25 * 60 && r.breakDuration == 5 * 60
  {
    PomodoroState(25 * 60, 5 * 60, 25 * 60, Work, Idle)
  }

  // ---------------------------------------------------------------- tick

  /** The effect keeps a one-second interval alive exactly when this holds. */
  predicate TickEnabled(s: PomodoroState) {
    s.timerStatus == Running && s.currentTime > 0
  }

  /**
   * One firing of the interval: the updater decrements `currentTime`; the
   * interval only exists while the timer runs with time left, so in any
   * other state a second passes without a change.
   */
  function Tick(s: PomodoroState): (r: PomodoroState)
    ensures r.currentTime == s.currentTime - (if TickEnabled(s) then 1 else 0)
    ensures r.(currentTime := s.currentTime) == s
    ensures s.currentTime >= 0 ==> r.currentTime >= 0
    ensures Valid(s) ==> Valid(r)
  {
    if TickEnabled(s) then s.(currentTime := s.currentTime - 1) else s
  }

  /** `k` consecutive seconds of the interval. */
  function Ticks(s: PomodoroState, k: nat): PomodoroState
    decreases k
  {
    if k == 0 then s else Tick(Ticks(s, k - 1))
  }

  function Max(a: int, b: int): int {
    if a >= b then a else b
  }

  /** A running countdown loses one second per tick until it stops at zero; nothing else moves. */
  lemma {:induction false} Countdown(s: PomodoroState, k: nat)
    requires s.timerStatus == Running && s.currentTime >= 0
    ensures Ticks(s, k).currentTime == Max(0, s.currentTime - k)
    ensures Ticks(s, k) == s.(currentTime := Ticks(s, k).currentTime)
    decreases k
  {
    if k > 0 {
      Countdown(s, k - 1);
    }
  }

  /** From `n` seconds left a running timer shows zero after exactly `n` ticks and not before. */
  lemma ReachesZeroInExactly(s: PomodoroState)
    requires s.timerStatus == Running && s.currentTime >= 0
    ensures Ticks(s, s.currentTime).currentTime == 0
    ensures forall k: nat :: k < s.currentTime ==> Ticks(s, k).currentTime > 0
  {
    Countdown(s, s.currentTime);
    forall k: nat | k < s.currentTime
      ensures Ticks(s, k).currentTime > 0
    {
      Countdown(s, k);
    }
  }

  /** Ticks never raise the countdown: later is never larger. */
  lemma {:induction false} CountdownNonIncreasing(s: PomodoroState, j: nat, k: nat)
    requires s.currentTime >= 0
    requires j <= k
    ensures 0 <= Ticks(s, k).currentTime <= Ticks(s, j).currentTime
    decreases k
  {
    if k > j {
      CountdownNonIncreasing(s, j, k - 1);
    } else {
      TicksNonNegative(s, k);
    }
  }

  lemma {:induction false} TicksNonNegative(s: PomodoroState, k: nat)
    requires s.currentTime >= 0
    ensures Ticks(s, k).currentTime >= 0
    decreases k
  {
    if k > 0 {
      TicksNonNegative(s, k - 1);
    }
  }

  /** Without a running status the interval does not exist and time stands still. */
  lemma {:induction false} StoppedTimerDoesNotTick(s: PomodoroState, k: nat)
    requires s.timerStatus != Running
    ensures Ticks(s, k) == s
    decreases k
  {
    if k > 0 {
      StoppedTimerDoesNotTick(s, k - 1);
    }
  }

  // ------------------------------------------------------ session switch

  /** The updater of `handleSessionSwitch`: flip the session and load its configured length. */
  function SessionSwitch(s: PomodoroState): (r: PomodoroState)
    ensures r.currentSession == Other(s.currentSession)
    ensures r.currentTime == CurrentDuration(r)
    ensures SameDurations(r, s) && r.timerStatus == s.timerStatus
    ensures ValidDurations(s) ==> Valid(r)
  {
    var isWorkSession := s.currentSession == Work;
    s.(currentSession := if isWorkSession then Break else Work,
       currentTime := if isWorkSession then s.breakDuration else s.workDuration)
  }

  /** Two switches come back to the original session with its full configured length. */
  lemma SwitchTwice(s: PomodoroState)
    ensures SessionSwitch(SessionSwitch(s)) == s.(currentTime := CurrentDuration(s))
  {
  }

  /**
   * The alarm window seen as one atomic step: it is entered only once the
   * countdown shows zero, and ends with a session switch.
   */
  function Complete(s: PomodoroState): (r: PomodoroState)
    requires s.currentTime == 0
    ensures r.currentSession == Other(s.currentSession) && r.currentTime == CurrentDuration(r)
    ensures SameDurations(r, s)
    ensures ValidDurations(s) ==> Valid(r) && r.currentTime >= MinDuration
    ensures r.timerStatus == s.timerStatus
    ensures ValidDurations(s) ==> (TickEnabled(r) <==> s.timerStatus == Running)
  {
    SessionSwitch(s)
  }

  // --------------------------------------------------- start/pause toggle

  /** `handleStartPause`: a running timer pauses; an idle or paused one runs. */
  function ToggleStartPause(s: PomodoroState): (r: PomodoroState)
    ensures s.timerStatus == Running ==> r.timerStatus == Paused
    ensures s.timerStatus != Running ==> r.timerStatus == Running
    ensures r.(timerStatus := s.timerStatus) == s
    ensures Valid(s) ==> Valid(r)
  {
    if s.timerStatus == Running then s.(timerStatus := Paused) else s.(timerStatus := Running)
  }

  /** Pressing the button twice restores the state exactly when the timer had been started. */
  lemma ToggleTwice(s: PomodoroState)
    ensures ToggleStartPause(ToggleStartPause(s)) == s <==> s.timerStatus != Idle
    ensures ToggleStartPause(ToggleStartPause(s)).timerStatus != Idle
  {
  }

  // --------------------------------------------------------------- reset

  /** `handleReset`: back to a full, stopped work session; the configuration is kept. */
  function Reset(s: PomodoroState): (r: PomodoroState)
    ensures r.currentSession == Work && r.timerStatus == Idle
    ensures r.currentTime == CurrentDuration(r)
    ensures SameDurations(r, s)
    ensures ValidDurations(s) ==> Valid(r)
  {
    s.(currentTime := s.workDuration, currentSession := Work, timerStatus := Idle)
  }

  /** Reset forgets everything but the configuration, so it is idempotent and undoes any history. */
  lemma ResetForgetsHistory(s: PomodoroState, t: PomodoroState)
    requires SameDurations(s, t)
    ensures Reset(s) == Reset(t)
    ensures Reset(Reset(s)) == Reset(s)
    ensures Reset(Initial()) == Initial()
  {
  }

  /**
   * Reset leaves an already scheduled session switch in place; when it fires
   * the stopped timer is moved to a full break it did not ask for.
   */
  lemma ResetDoesNotCancelSwitch(s: PomodoroState)
    requires ValidDurations(s)
    ensures SessionSwitch(Reset(s)).currentSession == Break
    ensures SessionSwitch(Reset(s)).timerStatus == Idle
    ensures SessionSwitch(Reset(s)).currentTime == s.breakDuration
  {
  }

  // ---------------------------------------------------- duration change

  /**
   * `handleDurationChange`: one minute more or less, measured from the time
   * on the clock (not from the configured length), floored at one minute,
   * becomes both the countdown and the current session's duration.
   */
  function ChangeDuration(s: PomodoroState, increment: bool): (r: PomodoroState)
    ensures r.currentTime == CurrentDuration(r) >= MinDuration
    ensures r.currentTime == Max(MinDuration, s.currentTime + (if increment then DurationStep else -DurationStep))
    ensures r.currentSession == s.currentSession && r.timerStatus == s.timerStatus
    ensures DurationOf(r, Other(s.currentSession)) == DurationOf(s, Other(s.currentSession))
    ensures ValidDurations(s) ==> Valid(r)
  {
    var durationChange := if increment then DurationStep else -DurationStep;
    var newTime := Max(MinDuration, s.currentTime + durationChange);
    if s.currentSession == Work then
      s.(workDuration := newTime, currentTime := newTime)
    else
      s.(breakDuration := newTime, currentTime := newTime)
  }

  /** Even from an empty clock a decrement leaves one minute; an increment adds exactly a minute. */
  lemma ChangeDurationBounds(s: PomodoroState)
    requires s.currentTime >= 0
    ensures ChangeDuration(s, true).currentTime == s.currentTime + 60
    ensures ChangeDuration(s, false).currentTime == if s.currentTime >= 120 then s.currentTime - 60 else 60
    ensures ChangeDuration(s, false).currentTime <= ChangeDuration(s, true).currentTime
  {
  }

  /**
   * On an untouched session (clock equals configured length, at least one
   * minute) a plus followed by a minus gives back the very same state.
   */
  lemma IncrementThenDecrement(s: PomodoroState)
    requires s.currentTime == CurrentDuration(s) >= MinDuration
    ensures ChangeDuration(ChangeDuration(s, true), false) == s
  {
  }

  /** A minus followed by a plus restores the state exactly when the minus was not clamped. */
  lemma DecrementThenIncrement(s: PomodoroState)
    requires s.currentTime == CurrentDuration(s) >= 0
    ensures ChangeDuration(ChangeDuration(s, false), true) == s <==> s.currentTime >= 2 * MinDuration
  {
    var r := ChangeDuration(ChangeDuration(s, false), true);
    if s.currentTime < 2 * MinDuration {
      assert r.currentTime == 2 * MinDuration != s.currentTime;
    }
  }

  /** The change follows the clock, not the configuration: 2:05 left on a 25-minute session becomes 1:05. */
  lemma ChangeFollowsClock()
    ensures ChangeDuration(Initial().(currentTime := 125), false).workDuration == 65
    ensures ChangeDuration(Initial(), true).workDuration == 1560
  {
  }

  // ------------------------------------------------------------- traces

  /** Everything that can update the state cell. */
  datatype Event =
    | TickEvent                         // the one-second interval fires
    | SwitchEvent                       // a scheduled session switch fires
    | StartPauseEvent                   // the start/pause button
    | ResetEvent                        // the reset button
    | DurationEvent(increment: bool)    // the plus or minus button

  function Apply(s: PomodoroState, e: Event): (r: PomodoroState)
    ensures Valid(s) ==> Valid(r)
  {
    match e
    case TickEvent => Tick(s)
    case SwitchEvent => SessionSwitch(s)
    case StartPauseEvent => ToggleStartPause(s)
    case ResetEvent => Reset(s)
    case DurationEvent(increment) => ChangeDuration(s, increment)
  }

  function Run(s: PomodoroState, events: seq<Event>): PomodoroState
    decreases |events|
  {
    if events == [] then s else Run(Apply(s, events[0]), events[1..])
  }

  /** Every transition keeps the invariant, so any sequence of them does. */
  lemma {:induction false} RunPreservesValid(s: PomodoroState, events: seq<Event>)
    requires Valid(s)
    ensures Valid(Run(s, events))
    decreases |events|
  {
    if events != [] {
      RunPreservesValid(Apply(s, events[0]), events[1..]);
    }
  }

  /** Every state reachable from mounting has durations of at least a minute and a clock within its session. */
  lemma ReachableStatesValid(events: seq<Event>)
    ensures Valid(Run(Initial(), events))
    ensures 0 <= Run(Initial(), events).currentTime
    ensures Run(Initial(), events).currentTime <= Max(Run(Initial(), events).workDuration, Run(Initial(), events).breakDuration)
  {
    RunPreservesValid(Initial(), events);
  }

  /** Start, 1500 seconds of work, the alarm: the break starts at 5:00 and keeps running. */
  lemma FirstPomodoro()
    ensures Ticks(ToggleStartPause(Initial()), 1500).currentTime == 0
    ensures Complete(Ticks(ToggleStartPause(Initial()), 1500)) == PomodoroState(1500, 300, 300, Break, Running)
  {
    Countdown(ToggleStartPause(Initial()), 1500);
  }
}
