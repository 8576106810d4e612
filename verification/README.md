# Pomodoro timer state machine

A Dafny model of the timer in `components/pomodoro-timer.tsx` from the
Pomodoro-Timer Next.js project. The component holds one record:
`workDuration`, `breakDuration`, `currentTime`, `currentSession` (work or
break) and `timerStatus` (idle, running or paused). It starts as 25 minutes of
work, 5 minutes of break, 25:00 on the clock, work, idle. Five updaters change
the record:

- a one-second tick;
- the session switch that follows the alarm once the clock shows zero;
- the start/pause toggle;
- reset;
- the plus/minus one-minute duration change.

A pure formatter renders the clock as `MM:SS`.

Files:

- `timer_state.dfy` (module `Pomodoro`): the record as a datatype, each updater
  as a function, and the invariant. `Valid` means both durations are at least 60
  and `0 <= currentTime <=` the current session's duration. The lemmas state what
  each updater promises, and that any sequence of updates from the initial state
  stays valid.
- `format_time.dfy` (module `TimeFormat`): `formatTime` and the pieces it is
  built from. These are `Math.floor`/`%`, `Number.prototype.toString` for
  non-negative integers, and `padStart`. A parser serves as its inverse and is
  proved to undo it for every input.
- `timer.dfy` (module `Component`): the class `PomodoroTimer` models the React
  component's state cell. It also counts the session switches the effect has
  scheduled that have not fired yet. Every method calls the matching pure
  updater. Two client methods run the alarm scenarios described below and return the states and pending counts they reach.

Where the code and the intended design disagree, the model follows the code:

- The duration change starts from `currentTime`, not from the configured
  duration (line 109). So a minus press with 2:05 left makes the work duration
  65 seconds, not 24 minutes (`Pomodoro.ChangeFollowsClock`).
- Start and pause are one toggle (lines 81-94).
- The 7-second timeout that performs the switch is never stored (line 71), so
  reset does not cancel it. A reset during the alarm leaves a switch pending.
  When it fires, the freshly reset timer moves to a full break while staying
  idle (`Pomodoro.ResetDoesNotCancelSwitch`, `Component.ResetDuringAlarm`).
- The effect re-runs whenever `timerStatus` or `currentTime` changes, and
  schedules a switch whenever it then finds the clock at zero. So pressing
  start/pause during the alarm schedules a second switch, and the break is
  skipped (`Component.PauseDuringAlarm`).

## Model

| member | source | states |
|---|---|---|
| `Pomodoro.Initial` | components/pomodoro-timer.tsx:36-42 | the mounted state is a valid, idle, full 25-minute work session with a 5-minute break |
| `Pomodoro.Tick` | components/pomodoro-timer.tsx:58-65 | only `currentTime` moves; it drops by exactly one when the timer runs with time left and stays put otherwise; it never goes negative and the invariant is kept |
| `Pomodoro.Countdown` | components/pomodoro-timer.tsx:59-64 | after k ticks a running timer shows max(0, n - k) and nothing else has changed |
| `Pomodoro.ReachesZeroInExactly` | components/pomodoro-timer.tsx:59-64 | from n seconds a running timer reaches zero after exactly n ticks and is positive before |
| `Pomodoro.CountdownNonIncreasing` | components/pomodoro-timer.tsx:61-64 | along any run of ticks the clock never rises and never drops below zero |
| `Pomodoro.StoppedTimerDoesNotTick` | components/pomodoro-timer.tsx:59 | an idle or paused timer is unchanged by any number of seconds |
| `Pomodoro.SessionSwitch` | components/pomodoro-timer.tsx:47-56 | the session flips, the clock shows the new session's full duration, durations and status are kept, validity follows from valid durations |
| `Pomodoro.SwitchTwice` | components/pomodoro-timer.tsx:47-56 | two switches return to the original session with its full configured duration |
| `Pomodoro.Complete` | components/pomodoro-timer.tsx:66-76 | the alarm step is entered only at zero and is the session switch: the session flips, the clock shows the new session's full duration (at least 60), durations and status are kept, and a running timer ticks again without a new start |
| `Pomodoro.ToggleStartPause` | components/pomodoro-timer.tsx:81-94 | running becomes paused, idle or paused becomes running, nothing else changes |
| `Pomodoro.ToggleTwice` | components/pomodoro-timer.tsx:81-94 | two presses restore the state if and only if the timer was not idle |
| `Pomodoro.Reset` | components/pomodoro-timer.tsx:96-104 | from any state: an idle work session at its full duration, both durations unchanged |
| `Pomodoro.ResetForgetsHistory` | components/pomodoro-timer.tsx:96-104 | states with equal durations reset to the same state; reset is idempotent and fixes the initial state |
| `Pomodoro.ResetDoesNotCancelSwitch` | components/pomodoro-timer.tsx:66-76 | a switch still pending after reset moves the stopped timer to a full break while it stays idle |
| `Pomodoro.ChangeDuration` | components/pomodoro-timer.tsx:106-125 | clock and current duration both become max(60, currentTime ± 60); session, status and the other duration are unchanged |
| `Pomodoro.ChangeDurationBounds` | components/pomodoro-timer.tsx:108-109 | plus adds exactly 60 and minus gives max(60, t - 60), so the result is at least 60 even from an empty clock |
| `Pomodoro.IncrementThenDecrement` | components/pomodoro-timer.tsx:106-125 | on an untouched session of at least a minute, plus then minus is the identity |
| `Pomodoro.DecrementThenIncrement` | components/pomodoro-timer.tsx:106-125 | minus then plus is the identity if and only if the session had at least two minutes |
| `Pomodoro.ChangeFollowsClock` | components/pomodoro-timer.tsx:109 | the change is computed from the clock: 125 s left gives a 65 s duration; plus from the initial state gives 1560 |
| `Pomodoro.Apply` | components/pomodoro-timer.tsx:47-125 | every updater keeps the invariant |
| `Pomodoro.RunPreservesValid` | components/pomodoro-timer.tsx:47-125 | any sequence of updates from a valid state ends in a valid state |
| `Pomodoro.ReachableStatesValid` | components/pomodoro-timer.tsx:36-42 | every reachable state has durations of at least 60 and a clock between 0 and the current session's duration |
| `Pomodoro.FirstPomodoro` | components/pomodoro-timer.tsx:58-76 | start plus 1500 ticks reaches zero; the alarm step then gives a running 5-minute break |
| `TimeFormat.MinutesAndSeconds` | components/pomodoro-timer.tsx:128-129 | minutes * 60 + seconds equals the input and seconds is below 60 |
| `TimeFormat.Decimal` | components/pomodoro-timer.tsx:130 | `toString()` of a non-negative integer: digits only, no leading zero, one digit exactly below 10, at most two below 100 |
| `TimeFormat.DecimalRoundTrip` | components/pomodoro-timer.tsx:130 | the numeral reads back as the number |
| `TimeFormat.PadStart` | components/pomodoro-timer.tsx:130 | `padStart`: the original string at the end, fill characters before it, length max(length, width) |
| `TimeFormat.PaddedNumeral` | components/pomodoro-timer.tsx:130 | a zero-padded numeral keeps its value, and below 100 it has exactly two digits |
| `TimeFormat.Field` | components/pomodoro-timer.tsx:130 | one field of the face: at least two digits, denoting the number, exactly two below 100, and no leading zero when longer than two |
| `TimeFormat.FormatTime` | components/pomodoro-timer.tsx:127-131 | digits, a colon, exactly two digits; exactly five characters `DD:DD` below 6000 seconds; from 100 minutes on, no leading zero |
| `TimeFormat.FormatRoundTrip` | components/pomodoro-timer.tsx:127-131 | parsing the formatted clock gives back the seconds for every input |
| `TimeFormat.FormatInjective` | components/pomodoro-timer.tsx:127-131 | different times never render the same |
| `TimeFormat.FormatFullWorkSession` | components/pomodoro-timer.tsx:127-131 | 1500 seconds render as `25:00` |
| `TimeFormat.FormatSingleDigits` | components/pomodoro-timer.tsx:127-131 | 65 seconds render as `01:05` |
| `Component.SchedulesSwitch` | components/pomodoro-timer.tsx:66-79 | the effect schedules a switch only when the committed state shows zero and differs from the previous one (its clock or status changed) |
| `Component.SchedulingRules` | components/pomodoro-timer.tsx:58-104 | a tick schedules a switch if and only if it takes a running clock from 1 to 0; a start/pause press if and only if the clock shows 0; reset, a duration change and a switch never do |
| `Component.PomodoroTimer.constructor` | components/pomodoro-timer.tsx:36-43 | the cell holds the initial state and no switch is pending |
| `Component.PomodoroTimer.Tick` | components/pomodoro-timer.tsx:58-79 | the cell takes the tick's result; reaching zero schedules exactly one switch; the invariant, including "at zero a switch is pending", is kept |
| `Component.PomodoroTimer.FireSwitch` | components/pomodoro-timer.tsx:71-76 | a pending switch applies the session switch to whatever the state is now and is consumed |
| `Component.PomodoroTimer.StartPause` | components/pomodoro-timer.tsx:81-94 | the cell is toggled; pressed at zero, the effect schedules one more switch |
| `Component.PomodoroTimer.Reset` | components/pomodoro-timer.tsx:96-104 | the cell is reset and the pending switches are left in place |
| `Component.PomodoroTimer.ChangeDuration` | components/pomodoro-timer.tsx:106-125 | the cell takes the clamped change; no switch is scheduled |
| `Component.PomodoroTimer.Commit` | components/pomodoro-timer.tsx:58-79 | the cell takes the new state, and the pending count grows by one exactly when the effect's rule schedules a switch |
| `Component.PomodoroTimer.Display` | components/pomodoro-timer.tsx:155-157 | the rendered clock is `formatTime` of the seconds left, reads back as those seconds and is five characters below 100 minutes |
| `Component.ResetDuringAlarm` | components/pomodoro-timer.tsx:66-104 | start, 1500 ticks, reset: the state is the initial one with one switch still pending, which then moves the idle timer to a full break |
| `Component.PauseDuringAlarm` | components/pomodoro-timer.tsx:66-94 | start, 1500 ticks, pause at zero: two switches are pending; the first gives a paused break, the second a paused full work session |

## Left out

- JSX markup, buttons, the explanatory dialog and its "4 rounds" text: presentation only.
- Audio: creating, playing, pausing and rewinding the alarm sound are calls into the browser. The alarm window is one step, `FireSwitch` (or `Complete` in the pure model).
- Real time: `setInterval`, `setTimeout`, `clearInterval`, `timerRef` and the 1000 ms and 7000 ms cadences. A tick is one discrete step that changes the state exactly when the effect would keep an interval alive. A scheduled switch is a counter; firing one is a step the environment may take at any time. Their order relative to other events, and the 7-second delay, are not modelled.
- React's batched, asynchronous `setState` and the effect's cleanup: each handler is modelled as applying its updater at once. The effect's re-run is reduced to the rule in `Component.SchedulesSwitch`.
- TimeFormat.FormatTime: takes only non-negative seconds. The component only ever passes `currentTime`, which the invariant keeps non-negative. The rendering of negative or fractional numbers is not modelled.
- JavaScript numbers are modelled as unbounded integers. Every value stays a small integer, so no rounding or overflow can occur.
