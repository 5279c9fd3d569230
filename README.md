# Pomodoro timer state machine in Dafny

This project models the timer engine of a desktop Pomodoro study timer (`timer_logic.py`):
the `Mode` enumeration (STUDY, BREAK) and the `PomodoroTimer` class, which alternates study
and break sessions, counts a session down against an absolute deadline taken from a
monotonic clock, supports pause/resume/reset and reconfiguration, accumulates the time
spent studying, and renders the remaining time and the total study time as clock texts.

Files and modules:

- `wrappers.dfy` — `Wrappers.Option`, used for the two optional timestamps (`end_time`,
  `last_tick_time`) and for parse results.
- `time_format.dfy` — `TimeFormat`: Python's `int(x)` on a float (`Trunc`, truncation toward
  zero), `format(n, "02d")` (`Pad2`), the "MM:SS" and "HH:MM:SS" renderings, and a parser
  `ParseClock` that reads a clock text back into its integer fields. The renderings are
  specified by their shape and by what the parser recovers: every field is decimal digits
  zero-padded to two places (`Padded2`), the fields recombine to the number of whole seconds,
  and the minute and second fields lie in [0, 60).
- `timer_model.dfy` — `TimerModel`: the timer's state as a datatype `TimerState` and every
  operation of the class as a pure transition on it, with the invariant `Valid()` that every
  public operation keeps and `WithinSession()` (remaining time at most the session length),
  which the polling and pausing operations keep whenever the clock has not gone backwards
  (`NotBefore(now)`).
- `timer_properties.dfy` — `TimerProperties`: runs of several operations: polls at
  non-decreasing times keep remaining time in [0, session length]; while a study session
  counts, polls before the deadline add exactly the time between polls; polls during a break
  that do not reach its deadline never add study time; pausing and resuming at one instant
  before the deadline equals a poll (and at the last tick's instant is the identity); start
  is idempotent; a poll that does not complete the session, at a time not before the last
  tick, never moves progress backwards; and concrete sessions.
- `timer_logic.dfy` — `TimerLogic.PomodoroTimer`: the class itself, with the source's fields,
  whose methods update them in place and are each proved to reach exactly
  `old(State()).<transition>(now)`. The read-only views `GetProgress`, `FormatRemaining` and
  `FormatTotalStudyTime` return the corresponding `TimerState` view of the current fields.
  `StudyBreakRun` is a host that drives a fresh timer through a whole study session using only
  the class's contracts.

Every call of `time.monotonic()` in the source becomes a `now: real` parameter, as `tick`
already takes one. Seconds and timestamps are `real` numbers.

Two behaviours of the code worth noting:

- Pausing does not clear `end_time` (timer_logic.py:70-75); the stale deadline is overwritten
  on resume. So `end_time` is set exactly while the timer is running, paused or not.
- When a poll arrives after the deadline, the next session starts in full at the poll's time
  (timer_logic.py:120-123 through `_switch_mode` and `start`); the lateness is not subtracted
  from the next session, and the late seconds of a study session are counted as study time
  (`TimerProperties.LateTickScenario`).

## Model

| member | source | states |
|---|---|---|
| `TimeFormat.Trunc` | timer_logic.py:170 | `int(x)` truncates toward zero: for x >= 0 the result is the largest integer not above x, for x < 0 the smallest not below it |
| `TimeFormat.Pad2` | timer_logic.py:173 | `"02d"` gives at least two characters, exactly two for 0..99; a non-negative number becomes decimal digits with a leading zero only in a two-digit field, a negative one a minus sign and digits without a leading zero; no colon; it parses back to the same integer |
| `TimeFormat.MinutesSeconds` | timer_logic.py:170-173 | "MM:SS" is two colon-separated fields, each zero-padded to two digits (minutes may grow past two digits, without leading zeros); they parse back to m, s with m*60 + s == t and 0 <= s < 60; five characters when t < 6000 |
| `TimeFormat.HoursMinutesSeconds` | timer_logic.py:184-191 | "HH:MM:SS" is three colon-separated fields, each zero-padded to two digits; they parse back to h, m, s with h*3600 + m*60 + s == t, m and s in [0, 60); eight characters when t < 360000 |
| `TimerModel.Flip` | timer_logic.py:139-144 | switching mode always yields the other mode |
| `TimerModel.Max0` | timer_logic.py:73 | `max(0, x)` is 0 or x, non-negative, at least x, and x itself when x >= 0 |
| `TimerModel.Initial` | timer_logic.py:22-45 | a new timer is in STUDY, stopped, unpaused, with no timestamps and a full study session (minutes * 60) left; it satisfies the invariant for non-negative minutes |
| `TimerModel.TimerState.Start` | timer_logic.py:47-55 | afterwards the timer is counting; a counting timer is unchanged; otherwise the deadline is now + remaining and the last tick is now; nothing else changes; the invariant is kept |
| `TimerModel.TimerState.TrackStudyTime` | timer_logic.py:128-135 | study time grows by now - last tick exactly when in STUDY, running, unpaused with a last tick, and not otherwise; never shrinks for a clock that has not gone back; the last tick is always set to now; nothing else changes |
| `TimerModel.TimerState.SwitchMode` | timer_logic.py:137-149 | mode flips, duration and remaining become the new mode's minutes * 60, the timer is stopped with no deadline; total, last tick and minutes are kept |
| `TimerModel.TimerState.Reset` | timer_logic.py:77-85 | stopped, unpaused, both timestamps cleared, remaining == duration == the current mode's minutes * 60; mode, total and minutes kept; the invariant and remaining <= duration hold afterwards |
| `TimerModel.TimerState.SetConfig` | timer_logic.py:87-97 | the two minute fields take the new values and the timer is reset against them; mode and total kept; invariant and bound hold for non-negative minutes |
| `TimerModel.TimerState.PauseToggle` | timer_logic.py:57-75 | stopped: same as start; paused: counting again with the same remaining and deadline now + remaining, total unchanged; counting: paused with remaining = max(0, deadline - now) and the study time up to now booked; invariant, remaining bound and non-decreasing total kept |
| `TimerModel.TimerState.Tick` | timer_logic.py:99-126 | not counting: no change and no switch; counting: switch exactly when the deadline has passed; on a switch the other mode starts a full session at now; otherwise remaining == deadline - now > 0 with mode and deadline kept; study time grows by now - last tick in STUDY only, never in BREAK; invariant and remaining bound kept |
| `TimerModel.TimerState.ResetTotalStudyTime` | timer_logic.py:195-197 | the total becomes 0 and nothing else changes; the invariant is kept |
| `TimerModel.TimerState.Progress` | timer_logic.py:151-161 | 0 when the duration is 0, always within [0, 1], 0 at full remaining time, 1 when nothing remains, and exactly elapsed / duration inside the session |
| `TimerModel.TimerState.RemainingText` | timer_logic.py:163-173 | the "MM:SS" text has two fields zero-padded to two digits, which parse back to minutes and seconds with seconds < 60 whose total is the whole seconds remaining; five characters under 100 minutes |
| `TimerModel.TimerState.TotalStudyText` | timer_logic.py:184-191 | the "HH:MM:SS" text has three fields zero-padded to two digits, which recombine to the whole seconds studied, minutes and seconds below 60 |
| `TimerProperties.TicksStayWithinSession` | timer_logic.py:109-124 | any sequence of polls at non-decreasing times keeps the invariant and keeps 0 <= remaining <= duration |
| `TimerProperties.StudyTimeAccruesExactly` | timer_logic.py:112-117 | polls during a counting study session that do not reach the deadline add exactly final poll - last tick to the total: nothing lost or counted twice |
| `TimerProperties.BreakTicksKeepTotal` | timer_logic.py:128-135 | polls during a break never change the total study time |
| `TimerProperties.PauseResumeIsTick` | timer_logic.py:57-75 | pausing and resuming at one instant before the deadline gives the same state as one poll at that instant |
| `TimerProperties.PauseResumeKeepsRemaining` | timer_logic.py:65-75 | pausing then resuming at once keeps the remaining time and re-arms the deadline at now + remaining |
| `TimerProperties.PauseResumeAtLastTick` | timer_logic.py:57-75 | pausing and resuming at the instant of the last tick restores the previous state exactly |
| `TimerProperties.StartIdempotent` | timer_logic.py:47-55 | starting twice is the same as starting once |
| `TimerProperties.TickNeverLosesProgress` | timer_logic.py:151-161 | a poll that does not complete the session never lowers the progress fraction |
| `TimerProperties.StudyBreakScenario` | timer_logic.py:47-126 | 25/5-minute sessions: start at 0, poll at 10 (1490 s left), pause at 10, resume at 100 (deadline 1590), poll at 1590 switches to a full 300 s break with 1500 s studied |
| `TimerProperties.LateTickScenario` | timer_logic.py:119-124 | a poll 5 s after a 60 s study deadline switches to a full 60 s break starting at the poll and books 65 s of study |
| `TimerProperties.RemainingTextExample` | timer_logic.py:163-173 | 125.9 s left is shown as "02:05" |
| `TimerProperties.TotalStudyTextExample` | timer_logic.py:184-191 | 5400 s studied is shown as "01:30:00" |
| `TimerLogic.PomodoroTimer.constructor` | timer_logic.py:22-45 | the new object holds the initial state; invariant and bound hold for non-negative minutes |
| `TimerLogic.PomodoroTimer.Start` | timer_logic.py:47-55 | fields updated exactly as `TimerState.Start`; afterwards running and unpaused |
| `TimerLogic.PomodoroTimer.PauseToggle` | timer_logic.py:57-75 | fields updated exactly as `TimerState.PauseToggle`; invariant kept |
| `TimerLogic.PomodoroTimer.Reset` | timer_logic.py:77-85 | fields updated exactly as `TimerState.Reset`; stopped with remaining == duration |
| `TimerLogic.PomodoroTimer.SetConfig` | timer_logic.py:87-97 | fields updated exactly as `TimerState.SetConfig`; invariant and bound hold for non-negative minutes |
| `TimerLogic.PomodoroTimer.Tick` | timer_logic.py:99-126 | fields and result exactly as `TimerState.Tick`; invariant kept; remaining bound kept for a clock that has not gone back |
| `TimerLogic.PomodoroTimer.TrackStudyTime` | timer_logic.py:128-135 | fields updated exactly as `TimerState.TrackStudyTime` |
| `TimerLogic.PomodoroTimer.SwitchMode` | timer_logic.py:137-149 | fields updated exactly as `TimerState.SwitchMode` |
| `TimerLogic.PomodoroTimer.GetProgress` | timer_logic.py:151-161 | the object's progress is within [0, 1], 0 for a zero duration, and exactly elapsed / duration inside the session |
| `TimerLogic.PomodoroTimer.FormatRemaining` | timer_logic.py:163-173 | the object's "MM:SS" text has two fields zero-padded to two digits that parse back to the whole seconds remaining, seconds below 60 |
| `TimerLogic.PomodoroTimer.FormatTotalStudyTime` | timer_logic.py:184-191 | the object's "HH:MM:SS" text has three fields zero-padded to two digits that recombine to the whole seconds studied |
| `TimerLogic.PomodoroTimer.ResetTotalStudyTime` | timer_logic.py:195-197 | fields updated exactly as `TimerState.ResetTotalStudyTime` |
| `TimerLogic.StudyBreakRun` | timer_logic.py:47-126 | a host driving the object through the 25/5-minute session above ends in BREAK with 300 s left and 1500 s studied, using only the class's contracts |

## Left out

- The clock: `time.monotonic()` inside `start` and `pause_toggle` is replaced by a `now` parameter. When `tick` completes a session, the source's `start` reads the clock again a moment after the poll; the model starts the next session at the poll's own `now`.
- Default arguments of `__init__` (30 study minutes, 5 break minutes, 0 seconds studied; timer_logic.py:22-23): `Initial` and the constructor take all three values explicitly, as the application's only caller passes all three (main.py:24-28).
- Floating point: seconds and timestamps are exact `real` numbers, so float rounding in `end_time - now` and in the study-time sum is not modelled. Python's distinction between the integer `0` and `0.0` (from `max(0, ...)` and `reset_total_study_time`) is not kept.
- Python truthiness of `end_time` (timer_logic.py:72, 116): a deadline equal to `0.0` would count as absent in the source; the model treats any present deadline as present.
- The short form `"X.XX h"` of `format_total_study_time` (timer_logic.py:189-190): it rests on float division and float rounding. `FormatTotalStudyTime` returns only the long form.
- `TimerModel.TimerState.Valid`: the invariant assumes non-negative minutes; the settings dialog limits them to 1..180 and 1..60 (ui.py:120, 130). With negative minutes the operations are still modelled, but the remaining time can be negative and no invariant is claimed.
- `TimerModel.TimerState.Tick`: `remaining <= duration` is kept only when `now` is not earlier than the last recorded tick; with a clock that goes backwards the source can report more time left than the session length.
- The GUI (ui.py), the Qt application loop that polls every 200 ms and autosaves every 30 s (main.py), and JSON settings storage (storage.py) are not part of this model.
