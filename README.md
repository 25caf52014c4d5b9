# Tomidoro timer engine, in Dafny

Tomidoro is a desktop Pomodoro timer. This project models its core, the
timer component in `src/App.jsx`:

- the preset table (pomodoro 25:00, short break 5:00, long break 15:00,
  custom);
- `formatTime`, the clock face;
- the timer handlers: mode switch, start/pause, reset, stopping the alarm,
  adjusting the custom duration, the interval tick with the finish handler,
  and the resync when the window becomes visible again;
- the alarm settings handlers: deleting a custom alarm and uploading one
  (size check, append, select).

The countdown keeps an absolute end instant in milliseconds. Every tick
recomputes the seconds left as `max(0, ceil((end - now) / 1000))`; nothing
is decremented. The current time `now` and the window's `hidden` flag are
parameters.

Layout:

- `optional.dfy`: `Option`, which stands for JavaScript's `null`.
- `clock.dfy` (module `Clock`): `FormatTime` and `ParseClock`, which reads a
  display back. Two lemmas prove the two functions are inverse to each other.
- `timer.dfy` (module `Timer`): the timer state as a value (`TimerState`),
  one function per handler, the invariant `Inv`, and the lemmas: anti-drift,
  monotone countdown, rings exactly once, start/pause behaviour and clamping.
- `engine.dfy` (module `Engine`): class `TimerEngine`. It holds the
  component's state fields and the `endTimeRef` ref. Its methods follow the
  handlers statement by statement. Each method is proved to produce the
  state that the matching `Timer` function gives, and to keep `Inv`.
- `alarms.dfy` (module `Alarms`): class `AlarmSettings` (the custom alarm
  list and the selected id), the filter `Without`, and lemmas about it.

React state setters take effect only after a handler returns, so every
handler reads the state it started with. `toggleTimer` reads `isActive`
after calling `setIsActive(!isActive)` and still sees the old value; the
model branches on that old value.

The code, as written, settles three points:

- The end instant is `now + timeLeft * 1000` in milliseconds.
- The display after a tick is exact: `timeLeft` minus the whole seconds
  elapsed (`Timer.RemainingAfterStart`).
- A custom duration of 0 can never be started. A stopped custom timer of
  duration 0 always shows 00:00, and from 00:00 the auto-start path refuses
  a duration that is not positive (`Timer.ZeroCustomNeverStarts`). More
  generally, no start ever begins at 00:00 (`Timer.StartIsPositive`).

## Model

| member | source | states |
|---|---|---|
| `Clock.FormatTime` | src/App.jsx:28-37 | the display is 5 characters (`MM:SS`) exactly when under one hour, longer (`H:MM:SS`) otherwise; a `:` always precedes the two seconds digits |
| `Clock.Render` | src/App.jsx:33-36 | hours are shown exactly when there is at least one; the seconds are always the last two characters after a `:` |
| `Clock.Decimal` | src/App.jsx:34 | `toString` of a non-negative integer: digits only, one digit exactly below 10, at most two below 100, no leading zero |
| `Clock.Pad2` | src/App.jsx:34 | `padStart(2, '0')`: the empty string becomes `"00"`, a one-character string gets one `'0'` in front, and a string of two or more characters is returned unchanged |
| `Clock.DecimalValue` | src/App.jsx:34 | reading the numeral `toString` produces gives the number back |
| `Clock.ValueDecimal` | src/App.jsx:34 | every numeral without a leading zero is what `toString` produces for its value |
| `Clock.TwoDigits` | src/App.jsx:34-36 | a padded minutes or seconds field is two digits and reads back as its value |
| `Clock.ParseFormat` | src/App.jsx:28-37 | every display reads back as the seconds it shows: `h*3600 + m*60 + s`, with minutes and seconds below 60 and zero-padded |
| `Clock.FormatParse` | src/App.jsx:28-37 | every canonical `MM:SS` / `H:MM:SS` string is exactly the display of its value, so the display is onto the canonical forms |
| `Clock.FormatInjective` | src/App.jsx:28-37 | different numbers of seconds never show the same display |
| `Timer.BaseTime` | src/App.jsx:5-26 | every preset lasts a positive whole number of minutes; custom starts at 0 |
| `Timer.Duration` | src/App.jsx:178-182 | the duration a mode starts from is non-negative whenever the custom duration is, and it is non-positive only for a custom timer whose duration is non-positive |
| `Timer.Initial` | src/App.jsx:40-44 | the component starts idle in pomodoro mode at 25:00 with custom duration 0, and the invariant holds |
| `Timer.Remaining` | src/App.jsx:110-111 | the seconds left are zero exactly when the end instant has passed; otherwise they are the milliseconds left divided by 1000, rounded up |
| `Timer.SwitchMode` | src/App.jsx:172-183 | after a switch the timer is idle (not running, not ringing, no end instant) and shows the full duration of the new mode; custom duration kept |
| `Timer.StopAlarm` | src/App.jsx:220-224 | the alarm is silenced and every other field is unchanged |
| `Timer.Toggle` | src/App.jsx:185-207 | mode and custom duration are kept; a ringing alarm is only silenced; a start (only when not ringing) sets the end `timeLeft` seconds ahead; a pause clears the end instant and keeps the display; the invariant is kept |
| `Timer.Reset` | src/App.jsx:209-218 | the timer becomes idle in the same mode, showing that mode's full duration; custom duration kept |
| `Timer.Finish` | src/App.jsx:150-154 | the timer stops, rings and shows 00:00 with no end instant; mode and custom duration are kept, and so is the invariant |
| `Timer.Adjust` | src/App.jsx:227-233 | no effect unless the mode is custom and stopped; otherwise custom duration and display both become `max(0, customTime + amount)` and nothing else changes |
| `Timer.Tick` | src/App.jsx:108-125 | the timer keeps running exactly while `now` is before the end instant, and the end instant is never moved; a visible tick shows the remaining seconds and a hidden tick that does not finish changes nothing; a tick that stops the timer gives exactly `Finish` of the state before |
| `Timer.Resync` | src/App.jsx:137-143 | on becoming visible while running, the display becomes the remaining seconds from the end instant; otherwise nothing changes |
| `Timer.RunPolls` | src/App.jsx:102-133 | over any sequence of interval firings, a timer still running has the end instant it started with |
| `Timer.InvariantKept` | src/App.jsx:172-233 | every handler keeps the durations non-negative, the end instant present exactly while running, a ringing timer stopped, and a custom timer of duration 0 stopped at 00:00 |
| `Timer.SwitchToShortBreak` | src/App.jsx:172-183 | switching to the short break gives 5:00, stopped and silent, from any state |
| `Timer.ResetIsSwitchToSameMode` | src/App.jsx:209-218 | resetting gives the same state as switching to the current mode |
| `Timer.ToggleWhileRinging` | src/App.jsx:185-188 | while the alarm rings, start/pause only silences it; running flag, display, end instant and mode are unchanged |
| `Timer.ToggleFromZero` | src/App.jsx:189-195 | from 00:00 while stopped, a non-positive mode duration means no change; otherwise the timer runs with that duration and an end instant that many seconds ahead |
| `Timer.ToggleStartsOrPauses` | src/App.jsx:196-205 | otherwise the running flag flips, the display is kept; starting sets the end `timeLeft` seconds ahead and pausing clears it |
| `Timer.StartIsPositive` | src/App.jsx:189-205 | a start always counts down from a positive number of seconds to an end instant at least one second ahead, so no start begins at 00:00 |
| `Timer.ZeroCustomNeverStarts` | src/App.jsx:189-195 | start/pause on a custom timer whose duration is 0 never sets it running |
| `Timer.PauseUndoesStart` | src/App.jsx:196-205 | pausing right after starting gives back the paused state |
| `Timer.AdjustNeverNegative` | src/App.jsx:230 | the custom duration never becomes negative |
| `Timer.AdjustUndo` | src/App.jsx:227-233 | `+a` then `-a` on a stopped custom timer gives back its duration |
| `Timer.RemainingMonotone` | src/App.jsx:110-111 | the remaining seconds never grow as the clock advances |
| `Timer.RemainingAfterStart` | src/App.jsx:108-111 | started with `T` seconds at `now0`, the remaining time at `now` is `max(0, T - floor((now - now0)/1000))`, whatever ticks came in between |
| `Timer.CountdownFromStart` | src/App.jsx:185-207 | start, then a visible tick `e` ms later: the display is `T` minus the whole seconds elapsed; the alarm rings and the timer stops exactly when that reaches zero |
| `Timer.RingsExactlyOnce` | src/App.jsx:108-154 | any sequence of firings rings once if one comes at or after the end instant, never otherwise; without a ring only the display changed; after it the final state is exactly `Finish` of the starting state |
| `Timer.NoDrift` | src/App.jsx:108-143 | while the timer runs, a visible tick or a resync gives the same state whatever firings came before |
| `Engine.TimerEngine.constructor` | src/App.jsx:40-44 | the fields start in `Timer.Initial()` and the invariant holds |
| `Engine.TimerEngine.StopAlarm` | src/App.jsx:220-224 | only the ringing flag is cleared |
| `Engine.TimerEngine.SwitchMode` | src/App.jsx:172-183 | the new fields are `Timer.SwitchMode` of the old ones; invariant kept |
| `Engine.TimerEngine.ToggleTimer` | src/App.jsx:185-207 | the new fields are `Timer.Toggle` of the old ones, branching on the `isActive` read before the toggle; invariant kept |
| `Engine.TimerEngine.ResetTimer` | src/App.jsx:209-218 | the new fields are `Timer.Reset` of the old ones; invariant kept |
| `Engine.TimerEngine.AdjustTime` | src/App.jsx:227-233 | the new fields are `Timer.Adjust` of the old ones; invariant kept |
| `Engine.TimerEngine.HandleTimerFinished` | src/App.jsx:150-154 | the timer stops, shows 00:00 and rings; the end instant is cleared, as the activity effect at src/App.jsx:127-130 does |
| `Engine.TimerEngine.Tick` | src/App.jsx:108-125 | the new fields are `Timer.Tick` of the old ones; invariant kept |
| `Engine.TimerEngine.HandleVisibilityChange` | src/App.jsx:137-143 | the new fields are `Timer.Resync` of the old ones; invariant kept |
| `Alarms.Without` | src/App.jsx:258 | an alarm is in the filtered list exactly when it was in the list and its id differs; the list never grows |
| `Alarms.WithoutAppend` | src/App.jsx:258 | filtering distributes over concatenation, so the kept alarms stay in their order |
| `Alarms.WithoutAbsent` | src/App.jsx:258 | a list with no alarm of that id is unchanged |
| `Alarms.WithoutCount` | src/App.jsx:258 | exactly the alarms with that id are removed; every other alarm keeps its number of copies |
| `Alarms.DeleteKeepsSelectionResolved` | src/App.jsx:257-262 | if the selection named the default or a listed alarm before a delete, it still does afterwards |
| `Alarms.AlarmSettings.constructor` | src/App.jsx:48-54 | a missing stored list is empty; a missing or empty stored selection is `'default'` |
| `Alarms.AlarmSettings.DeleteAlarm` | src/App.jsx:257-262 | the list is filtered by id; the selection becomes `'default'` exactly when it was the deleted id, otherwise it is unchanged |
| `Alarms.AlarmSettings.HandleFileChange` | src/App.jsx:235-255 | no file or a file over 2 MiB leaves list and selection unchanged; otherwise the new alarm is appended at the end and selected |

## Left out

- Audio playback (`Audio`, `play`, `pause`, `currentTime`, loop and volume, and the effect that sets the sound source). These are foreign side effects. The model keeps only the `isAlarmRinging` flag.
- Desktop notifications and `document.title` writes: side effects with no state.
- `localStorage` and JSON persistence. `AlarmSettings` takes the already-loaded values as constructor parameters.
- `FileReader` and data-URL encoding. The file's encoded contents are an opaque string.
- `HandleFileChange`: the reader's `onload` is taken to run right after the size check. Another handler running between the check and `onload` is not modelled, nor is the stale list such a callback would append to.
- Alarm ids: the new id (`Date.now().toString()`) is a parameter. The source does not guarantee it is unique, and the model does not assume it.
- `setInterval`/`clearInterval` scheduling and the 200 ms period. A tick is a call at any instant. `Tick` requires a running timer, because the interval exists only then. `RunPolls` models that the interval is cleared once the timer stops.
- The fallback at src/App.jsx:104-106 that sets the end instant when activating without one. Every start path already sets it, so the model leaves it out.
- JavaScript truthiness of `endTimeRef.current`: an end instant of exactly 0 ms would read as absent. Integers are unbounded here; in the source they are doubles, exact at timestamp magnitudes.
- `FormatTime`: takes a `nat`. Negative or fractional seconds are not modelled, because `timeLeft` is never negative (`Timer.InvariantKept`).
- Mode labels and colours, the options-menu flag, rendering (src/App.jsx:264-651), and choosing an alarm in the list, which calls the setter directly.
