# FortyFiveSecondTimer — a verified model of the interval countdown

The `FortyFiveSecondTimer` React component counts down from 45 seconds, one
second per tick while it is running. When a tick finds one second (or less)
left it plays a short beep and restarts the 45-second period; it never stops
at zero. The user turns it on and off with a single toggle button that calls
`handleStart` or `handleStop`. An effect keyed on `running` installs the
one-second interval when the timer turns on (re-syncing the value to 45 first)
and clears it when the timer turns off.

`forty_five_second_timer.dfy` (module `FortyFiveSecondTimer`) models this in
two layers:

- **Pure layer.** The updaters handed to `setSecondsLeft` become `TickValue`
  (the tick, with `Beeps` saying when it calls `playBeep`) and `ResyncValue`
  (the re-sync when the timer turns on). `Ticks` and `BeepsIn` iterate the
  tick. The whole component state is the value `TimerState` (`secondsLeft`,
  `running`, `intervalSet` for a non-null `intervalRef.current`, and `beeps`
  for the number of wraps, each of which calls `playBeep`). `Started`,
  `Stopped`, `Toggled`, `Ticked`, `RunningEffect`, `Step` and `Run` give its
  transitions. The lemmas state what the component promises.

The pure transitions are characterised by these lemmas in the table below:
`Started` (handleStart) by `StartEffect`, `Stopped` (handleStop) by
`StopEffect`, `Toggled` (handleToggle) by `ToggleEffect`, `Ticked` (the
interval callback) by `TickEffect` and `StoppedTickIsNoop`, and
`RunningEffect` (the effect keyed on `running`) by `Timer.OnRunningChanged`
together with `StartEffect` and `StopEffect`.
- **Imperative layer.** The class `Timer` has the fields `secondsLeft`,
  `running` and `intervalSet`, plus a ghost `beepCount`. Its methods update
  the fields in place. `Start`, `Stop`, `Toggle`, `Tick` and `RunTicks` (which
  delivers `n` interval callbacks in a loop) are proved to move `Snapshot()`
  as the matching pure transition does and to keep `Valid()`.
  `OnRunningChanged` is proved equal to `RunningEffect`; it runs inside
  `Start` and `Stop`, where `Valid()` does not hold yet.

The React effect re-runs only when `running` changes. So `Start` runs
`OnRunningChanged` only when the timer was stopped, and `Stop` only when it
was running. A tick is delivered only while the interval is installed.

## Model

| member | source | states |
|---|---|---|
| `FortyFiveSecondTimer.TickValue` | src/FortyFiveSecondTimer.tsx:48-54 | the tick never yields a value below 1; it keeps 1..45; inside that range it returns 45 exactly when it beeps; otherwise it strictly decreases the value |
| `FortyFiveSecondTimer.ResyncValue` | src/FortyFiveSecondTimer.tsx:45 | the re-sync on turning on yields 45 whatever the previous value was, so it has no effect after `handleStart` |
| `FortyFiveSecondTimer.Ticks` | src/FortyFiveSecondTimer.tsx:47-55 | any number of ticks from a value in 1..45 stays in 1..45; at least one tick gives a value of at least 1 |
| `FortyFiveSecondTimer.BeepsIn` | src/FortyFiveSecondTimer.tsx:49-51 | `n` ticks beep at most `n` times |
| `FortyFiveSecondTimer.TicksClosedForm` | src/FortyFiveSecondTimer.tsx:47-55 | from any start value `s` in 1..45, after `n` ticks the value is `45 - (45 - s + n) % 45` and the beep count is `(45 - s + n) / 45` |
| `FortyFiveSecondTimer.FromFullPeriod` | src/FortyFiveSecondTimer.tsx:47-55 | from 45, after `n` ticks the value is `45 - n % 45` and there have been `n / 45` beeps |
| `FortyFiveSecondTimer.FullCycle` | src/FortyFiveSecondTimer.tsx:48-54 | from any value in 1..45, 45 ticks return to the same value with exactly one beep |
| `FortyFiveSecondTimer.Initial` | src/FortyFiveSecondTimer.tsx:31-33 | the mount state satisfies the invariant (value in 1..45, interval installed exactly while running), with the value 45, the timer stopped and no beeps yet |
| `FortyFiveSecondTimer.StartEffect` | src/FortyFiveSecondTimer.tsx:65-68 | Start sets the value to 45, sets running and installs the interval, whatever the previous value; nothing else changes |
| `FortyFiveSecondTimer.StopEffect` | src/FortyFiveSecondTimer.tsx:70-72 | Stop clears running and the interval, keeps the value and adds no beep |
| `FortyFiveSecondTimer.ToggleEffect` | src/FortyFiveSecondTimer.tsx:74-80 | Toggle flips running; turning on gives 45; turning off keeps the value; it adds no beep |
| `FortyFiveSecondTimer.TickEffect` | src/FortyFiveSecondTimer.tsx:48-54 | while running, a tick above 1 decreases the value by exactly one without a beep; a tick at 1 beeps once and resets the value to 45 |
| `FortyFiveSecondTimer.StoppedTickIsNoop` | src/FortyFiveSecondTimer.tsx:35-42 | while stopped no interval is installed, so a tick changes nothing |
| `FortyFiveSecondTimer.StepKeepsValid` | src/FortyFiveSecondTimer.tsx:35-80 | every single event keeps the value in 1..45 and keeps the interval installed exactly while running |
| `FortyFiveSecondTimer.RunKeepsValid` | src/FortyFiveSecondTimer.tsx:35-80 | every sequence of Start, Stop, Toggle and Tick events keeps that invariant |
| `FortyFiveSecondTimer.ReachableInRange` | src/FortyFiveSecondTimer.tsx:31-80 | from mount, through any sequence of events, the value stays in 1..45 and the interval is installed exactly while running |
| `FortyFiveSecondTimer.RunOfTicks` | src/FortyFiveSecondTimer.tsx:47-55 | `n` ticks while running move the value by `Ticks` and add `BeepsIn` beeps; nothing else changes |
| `FortyFiveSecondTimer.StartThenTicks` | src/FortyFiveSecondTimer.tsx:45-55 | Start and then `n` ticks leave the timer running with `45 - n % 45` seconds left and `n / 45` more beeps |
| `FortyFiveSecondTimer.Timer.constructor` | src/FortyFiveSecondTimer.tsx:31-33 | the new component is in the initial state and valid |
| `FortyFiveSecondTimer.Timer.OnRunningChanged` | src/FortyFiveSecondTimer.tsx:35-63 | the effect re-syncs the value and installs the interval when running, and clears the interval when stopped |
| `FortyFiveSecondTimer.Timer.Start` | src/FortyFiveSecondTimer.tsx:65-68 | the new state is `Started` of the old one: running, value 45, beep count unchanged, still valid |
| `FortyFiveSecondTimer.Timer.Stop` | src/FortyFiveSecondTimer.tsx:70-72 | the new state is `Stopped` of the old one: not running, value and beep count unchanged, still valid |
| `FortyFiveSecondTimer.Timer.Toggle` | src/FortyFiveSecondTimer.tsx:74-80 | the new state is `Toggled` of the old one: running flipped, value 45 when turned on and kept when turned off |
| `FortyFiveSecondTimer.Timer.Tick` | src/FortyFiveSecondTimer.tsx:47-54 | requires running; the new state is `Ticked` of the old one: one less above 1 with no beep, 45 with one more beep at 1 |
| `FortyFiveSecondTimer.Timer.RunTicks` | src/FortyFiveSecondTimer.tsx:47-55 | `n` ticks in a loop leave the state that `Run` gives for `n` tick events, with the value `Ticks(old value, n)` and `BeepsIn(old value, n)` more beeps |

## Left out

- `playBeep` (src/FortyFiveSecondTimer.tsx:7-28) uses Web Audio with floating-point gain and frequency, and logs any error to the console. It is modelled only as one more count in `beeps` (the class's ghost `beepCount`) per wrap.
- `setInterval`/`clearInterval` scheduling and wall-clock timing are not modelled. Each interval callback is an explicit `Tick` event or method call. The model also leaves out React's render and commit cycle: the effect runs right after the handler that changed `running`, and no tick falls in between.
- The unmount cleanup of the effect (src/FortyFiveSecondTimer.tsx:57-62) is not modelled on its own. Its only effect, clearing the interval, is part of `RunningEffect` when the timer turns off.
- The progress percentage and the SVG dash offset (src/FortyFiveSecondTimer.tsx:82, 109) are floating-point values used only for display.
- The JSX markup and the button labels (src/FortyFiveSecondTimer.tsx:84-137) are presentation only.
- `secondsLeft` is a JavaScript number. It only ever holds small integers (1 to 45), so it is modelled as `int`.
- The duration is the constant `DURATION_SECONDS = 45` (src/FortyFiveSecondTimer.tsx:5); the component has no configurable duration, presets or persistence.
- Ticked / Timer.Tick: the beep count counts wraps, and equals the number of playBeep calls only when React runs each queued updater once, as production builds do; in a development build under Strict Mode React calls the updater of src/FortyFiveSecondTimer.tsx:48-54 twice, so each wrap would call playBeep twice.
