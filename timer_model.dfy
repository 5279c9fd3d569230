/**
  The Pomodoro timer as a value: its state and every transition of the
  `PomodoroTimer` class as a pure function. The class in module TimerLogic is
  proved to move between exactly these states; the lemmas at the end of this
  module are about runs of several transitions.

  Timestamps are readings of a monotonic clock in seconds, modelled as `real`.
*/
module TimerModel {
  import opened Wrappers
  import TimeFormat

  datatype Mode = Study | Break

  /** The other mode: a completed study session is followed by a break and the other way round. */
  function Flip(m: Mode): (r: Mode)
    ensures r != m
  {
    if m == Study then Break else Study
  }

  /** Configured length in seconds of a session of the given mode. */
  function SessionSeconds(mode: Mode, studyMinutes: int, breakMinutes: int): int {
    if mode == Study then studyMinutes * 60 else breakMinutes * 60
  }

  /** Python's `max(0, x)`. */
  function Max0(x: real): (r: real)
    ensures 0.0 <= r && x <= r
    ensures r == 0.0 || r == x
    ensures 0.0 <= x ==> r == x
  {
    if x < 0.0 then 0.0 else x
  }

  datatype TimerState = TimerState(
    studyMinutes: int,
    breakMinutes: int,
    totalStudySeconds: real,
    mode: Mode,
    running: bool,
    paused: bool,
    durationSeconds: int,
    remainingSeconds: real,
    endTime: Option<real>,
    lastTickTime: Option<real>)
  {
    /** Counting down: started and not paused. */
    predicate Counting() {
      running && !paused
    }

    /**
      What holds between public operations: the session length belongs to the
      current mode, the remaining time is never negative, a paused timer is a
      running one, both timestamps are set exactly while running, and while
      counting the deadline is the last tick plus the remaining time.
    */
    predicate Valid() {
      && 0 <= studyMinutes && 0 <= breakMinutes
      && durationSeconds == SessionSeconds(mode, studyMinutes, breakMinutes)
      && 0.0 <= remainingSeconds
      && (paused ==> running)
      && (running <==> endTime.Some?)
      && (running <==> lastTickTime.Some?)
      && (Counting() ==> endTime.value == lastTickTime.value + remainingSeconds)
    }

    /** The remaining time does not exceed the session length. */
    predicate WithinSession() {
      remainingSeconds <= durationSeconds as real
    }

    /** `now` is not earlier than the last timestamp the timer recorded, as a monotonic clock guarantees. */
    predicate NotBefore(now: real) {
      lastTickTime.Some? ==> lastTickTime.value <= now
    }

    /** Start or resume (timer_logic.py `start`), with the clock reading passed in. */
    function Start(now: real): (r: TimerState)
      ensures r.Counting()
      ensures Counting() ==> r == this
      ensures !Counting() ==> r.endTime == Some(now + remainingSeconds) && r.lastTickTime == Some(now)
      ensures r.remainingSeconds == remainingSeconds && r.durationSeconds == durationSeconds
      ensures r.mode == mode && r.totalStudySeconds == totalStudySeconds
      ensures r.studyMinutes == studyMinutes && r.breakMinutes == breakMinutes
      ensures Valid() ==> r.Valid()
    {
      if !running || paused then
        this.(running := true, paused := false, endTime := Some(now + remainingSeconds), lastTickTime := Some(now))
      else
        this
    }

    /** Study-time accounting: only time spent counting down in STUDY is added; the tick is always recorded. */
    function TrackStudyTime(now: real): (r: TimerState)
      ensures r.lastTickTime == Some(now)
      ensures mode == Study && Counting() && lastTickTime.Some? ==>
                r.totalStudySeconds == totalStudySeconds + (now - lastTickTime.value)
      ensures !(mode == Study && Counting() && lastTickTime.Some?) ==> r.totalStudySeconds == totalStudySeconds
      ensures NotBefore(now) ==> totalStudySeconds <= r.totalStudySeconds
      ensures r == this.(totalStudySeconds := r.totalStudySeconds, lastTickTime := Some(now))
    {
      var total :=
        if mode == Study && running && !paused && lastTickTime.Some? then
          totalStudySeconds + (now - lastTickTime.value)
        else
          totalStudySeconds;
      this.(totalStudySeconds := total, lastTickTime := Some(now))
    }

    /** Flip the mode and stop with a full session of the new mode; the accumulated total is kept. */
    function SwitchMode(): (r: TimerState)
      ensures r.mode == Flip(mode)
      ensures r.durationSeconds == SessionSeconds(r.mode, studyMinutes, breakMinutes)
      ensures r.remainingSeconds == r.durationSeconds as real
      ensures !r.running && !r.paused && r.endTime.None?
      ensures r.totalStudySeconds == totalStudySeconds && r.lastTickTime == lastTickTime
      ensures r.studyMinutes == studyMinutes && r.breakMinutes == breakMinutes
    {
      var next := Flip(mode);
      var duration := SessionSeconds(next, studyMinutes, breakMinutes);
      this.(mode := next, durationSeconds := duration, remainingSeconds := duration as real,
            running := false, paused := false, endTime := None)
    }

    /** Stop and restore the full session of the current mode; mode and total are kept. */
    function Reset(): (r: TimerState)
      ensures !r.running && !r.paused && r.endTime.None? && r.lastTickTime.None?
      ensures r.durationSeconds == SessionSeconds(mode, studyMinutes, breakMinutes)
      ensures r.remainingSeconds == r.durationSeconds as real
      ensures r.mode == mode && r.totalStudySeconds == totalStudySeconds
      ensures r.studyMinutes == studyMinutes && r.breakMinutes == breakMinutes
      ensures 0 <= studyMinutes && 0 <= breakMinutes ==> r.Valid() && r.WithinSession()
    {
      var duration := SessionSeconds(mode, studyMinutes, breakMinutes);
      this.(running := false, paused := false, durationSeconds := duration,
            remainingSeconds := duration as real, endTime := None, lastTickTime := None)
    }

    /** New session lengths; the session in progress is discarded by a reset. */
    function SetConfig(newStudyMinutes: int, newBreakMinutes: int): (r: TimerState)
      ensures r.studyMinutes == newStudyMinutes && r.breakMinutes == newBreakMinutes
      ensures !r.running && !r.paused && r.endTime.None? && r.lastTickTime.None?
      ensures r.durationSeconds == SessionSeconds(mode, newStudyMinutes, newBreakMinutes)
      ensures r.remainingSeconds == r.durationSeconds as real
      ensures r.mode == mode && r.totalStudySeconds == totalStudySeconds
      ensures 0 <= newStudyMinutes && 0 <= newBreakMinutes ==> r.Valid() && r.WithinSession()
    {
      this.(studyMinutes := newStudyMinutes, breakMinutes := newBreakMinutes).Reset()
    }

    /**
      Pause when counting, resume when paused, start when stopped. Pausing freezes the
      time left at the deadline minus `now` and books the study time up to `now`.
    */
    function PauseToggle(now: real): (r: TimerState)
      ensures !running ==> r == Start(now)
      ensures running && paused ==>
                r.Counting() && r.remainingSeconds == remainingSeconds
                && r.endTime == Some(now + remainingSeconds) && r.lastTickTime == Some(now)
                && r.totalStudySeconds == totalStudySeconds
      ensures Valid() && Counting() ==>
                r.running && r.paused && r.remainingSeconds == Max0(endTime.value - now)
                && r.lastTickTime == Some(now) && r.endTime == endTime
                && r.totalStudySeconds ==
                   totalStudySeconds + (if mode == Study then now - lastTickTime.value else 0.0)
      ensures r.mode == mode && r.durationSeconds == durationSeconds
      ensures r.studyMinutes == studyMinutes && r.breakMinutes == breakMinutes
      ensures Valid() ==> r.Valid()
      ensures Valid() && WithinSession() && NotBefore(now) ==> r.WithinSession()
      ensures NotBefore(now) ==> totalStudySeconds <= r.totalStudySeconds
    {
      if !running then
        Start(now)
      else if paused then
        this.(paused := false, endTime := Some(now + remainingSeconds), lastTickTime := Some(now))
      else
        var frozen := if endTime.Some? then this.(remainingSeconds := Max0(endTime.value - now)) else this;
        frozen.TrackStudyTime(now).(paused := true)
    }

    /**
      One poll of the host's clock (timer_logic.py `tick`). Returns the new state and
      whether the session completed, in which case the other mode's session starts at `now`.
    */
    function Tick(now: real): (r: (TimerState, bool))
      ensures !Counting() ==> r == (this, false)
      ensures Valid() && Counting() ==> (r.1 <==> endTime.value <= now)
      ensures r.1 ==>
                r.0.mode == Flip(mode) && r.0.Counting()
                && r.0.durationSeconds == SessionSeconds(r.0.mode, studyMinutes, breakMinutes)
                && r.0.remainingSeconds == r.0.durationSeconds as real
                && r.0.endTime == Some(now + r.0.remainingSeconds) && r.0.lastTickTime == Some(now)
      ensures Valid() && Counting() && !r.1 ==>
                r.0.mode == mode && r.0.Counting() && r.0.durationSeconds == durationSeconds
                && r.0.remainingSeconds == endTime.value - now && 0.0 < r.0.remainingSeconds
                && r.0.endTime == endTime && r.0.lastTickTime == Some(now)
      ensures Valid() && Counting() ==>
                r.0.totalStudySeconds ==
                totalStudySeconds + (if mode == Study then now - lastTickTime.value else 0.0)
      ensures mode == Break ==> r.0.totalStudySeconds == totalStudySeconds
      ensures r.0.studyMinutes == studyMinutes && r.0.breakMinutes == breakMinutes
      ensures r.0.lastTickTime == lastTickTime || r.0.lastTickTime == Some(now)
      ensures Valid() ==> r.0.Valid()
      ensures Valid() && WithinSession() && NotBefore(now) ==> r.0.WithinSession()
    {
      if !running || paused then
        (this, false)
      else
        var tracked := TrackStudyTime(now);
        var updated :=
          if tracked.endTime.Some? then tracked.(remainingSeconds := Max0(tracked.endTime.value - now))
          else tracked;
        if updated.remainingSeconds <= 0.0 then
          (updated.SwitchMode().Start(now), true)
        else
          (updated, false)
    }

    /** Forget the accumulated study time; the session is not touched. */
    function ResetTotalStudyTime(): (r: TimerState)
      ensures r.totalStudySeconds == 0.0
      ensures r == this.(totalStudySeconds := 0.0)
      ensures Valid() ==> r.Valid()
    {
      this.(totalStudySeconds := 0.0)
    }

    /** Fraction of the session done (timer_logic.py `get_progress`). */
    function Progress(): (p: real)
      ensures durationSeconds == 0 ==> p == 0.0
      ensures 0.0 <= p <= 1.0
      ensures durationSeconds != 0 && remainingSeconds == durationSeconds as real ==> p == 0.0
      ensures 0 < durationSeconds && remainingSeconds <= 0.0 ==> p == 1.0
      ensures 0 < durationSeconds && 0.0 <= remainingSeconds <= durationSeconds as real ==>
                p * durationSeconds as real == durationSeconds as real - remainingSeconds
    {
      if durationSeconds == 0 then 0.0
      else
        var elapsed := durationSeconds as real - remainingSeconds;
        var ratio := elapsed / durationSeconds as real;
        if ratio < 0.0 then 0.0 else if 1.0 < ratio then 1.0 else ratio
    }

    /** "MM:SS" of the whole seconds left (timer_logic.py `format_remaining`). */
    function RemainingText(): (s: string)
      ensures TimeFormat.ParseClock(s).Some? && |TimeFormat.ParseClock(s).value| == 2
      ensures var f := TimeFormat.ParseClock(s).value;
                0 <= f[1] < 60 && (0.0 <= remainingSeconds ==> f[0] * 60 + f[1] == remainingSeconds.Floor)
      ensures var fs := TimeFormat.Fields(s);
                |fs| == 2 && TimeFormat.Padded2(fs[1])
                && (0.0 <= remainingSeconds ==> TimeFormat.Padded2(fs[0]))
      ensures 0.0 <= remainingSeconds < 6000.0 ==> |s| == 5
    {
      TimeFormat.MinutesSeconds(TimeFormat.Trunc(remainingSeconds))
    }

    /** "HH:MM:SS" of the whole seconds studied: the long form of timer_logic.py `format_total_study_time`. */
    function TotalStudyText(): (s: string)
      ensures TimeFormat.ParseClock(s).Some? && |TimeFormat.ParseClock(s).value| == 3
      ensures var f := TimeFormat.ParseClock(s).value;
                0 <= f[1] < 60 && 0 <= f[2] < 60
                && (0.0 <= totalStudySeconds ==> 0 <= f[0] && f[0] * 3600 + f[1] * 60 + f[2] == totalStudySeconds.Floor)
      ensures var fs := TimeFormat.Fields(s);
                |fs| == 3 && TimeFormat.Padded2(fs[1]) && TimeFormat.Padded2(fs[2])
                && (0.0 <= totalStudySeconds ==> TimeFormat.Padded2(fs[0]))
      ensures 0.0 <= totalStudySeconds < 360000.0 ==> |s| == 8
    {
      TimeFormat.HoursMinutesSeconds(TimeFormat.Trunc(totalStudySeconds))
    }
  }

  /** A new timer (timer_logic.py `__init__`): STUDY, stopped, a full study session left. */
  function Initial(studyMinutes: int, breakMinutes: int, totalStudySeconds: real): (r: TimerState)
    ensures r.mode == Study && !r.running && !r.paused && r.endTime.None? && r.lastTickTime.None?
    ensures r.durationSeconds == studyMinutes * 60 && r.remainingSeconds == r.durationSeconds as real
    ensures r.studyMinutes == studyMinutes && r.breakMinutes == breakMinutes
    ensures r.totalStudySeconds == totalStudySeconds
    ensures 0 <= studyMinutes && 0 <= breakMinutes ==> r.Valid() && r.WithinSession()
  {
    TimerState(studyMinutes, breakMinutes, totalStudySeconds, Study, false, false,
               studyMinutes * 60, (studyMinutes * 60) as real, None, None)
  }
}
