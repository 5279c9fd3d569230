/**
  The Pomodoro timer object (timer_logic.py `PomodoroTimer`). Its methods update the
  fields in place; each is proved to move the object to exactly the state that the
  corresponding transition of TimerModel.TimerState gives, so the properties proved
  in TimerModel and TimerProperties hold of the object. Every clock reading is a
  `now` parameter.
*/
module TimerLogic {
  import opened Wrappers
  import opened TimerModel
  import TimeFormat

  class PomodoroTimer {
    var studyMinutes: int
    var breakMinutes: int
    var totalStudySeconds: real
    var mode: Mode
    var running: bool
    var paused: bool
    var durationSeconds: int
    var remainingSeconds: real
    var endTime: Option<real>
    var lastTickTime: Option<real>

    /** The value this object currently holds. */
    function State(): TimerState
      reads this
    {
      TimerState(studyMinutes, breakMinutes, totalStudySeconds, mode, running, paused,
                 durationSeconds, remainingSeconds, endTime, lastTickTime)
    }

    constructor (studyMinutes: int, breakMinutes: int, totalStudySeconds: real)
      ensures State() == Initial(studyMinutes, breakMinutes, totalStudySeconds)
      ensures 0 <= studyMinutes && 0 <= breakMinutes ==> State().Valid() && State().WithinSession()
    {
      this.studyMinutes := studyMinutes;
      this.breakMinutes := breakMinutes;
      this.totalStudySeconds := totalStudySeconds;
      mode := Study;
      running := false;
      paused := false;
      durationSeconds := studyMinutes * 60;
      remainingSeconds := (studyMinutes * 60) as real;
      endTime := None;
      lastTickTime := None;
    }

    method Start(now: real)
      modifies this
      ensures State() == old(State()).Start(now)
      ensures running && !paused
    {
      if !running || paused {
        running := true;
        paused := false;
        endTime := Some(now + remainingSeconds);
        lastTickTime := Some(now);
      }
    }

    method PauseToggle(now: real)
      modifies this
      ensures State() == old(State()).PauseToggle(now)
      ensures old(State().Valid()) ==> State().Valid()
    {
      if !running {
        Start(now);
        return;
      }
      if paused {
        paused := false;
        endTime := Some(now + remainingSeconds);
        lastTickTime := Some(now);
      } else {
        if endTime.Some? {
          remainingSeconds := Max0(endTime.value - now);
        }
        TrackStudyTime(now);
        paused := true;
      }
    }

    method Reset()
      modifies this
      ensures State() == old(State()).Reset()
      ensures !running && !paused && remainingSeconds == durationSeconds as real
    {
      running := false;
      paused := false;
      durationSeconds := SessionSeconds(mode, studyMinutes, breakMinutes);
      remainingSeconds := durationSeconds as real;
      endTime := None;
      lastTickTime := None;
    }

    method SetConfig(studyMinutes: int, breakMinutes: int)
      modifies this
      ensures State() == old(State()).SetConfig(studyMinutes, breakMinutes)
      ensures 0 <= studyMinutes && 0 <= breakMinutes ==> State().Valid() && State().WithinSession()
    {
      this.studyMinutes := studyMinutes;
      this.breakMinutes := breakMinutes;
      Reset();
    }

    /** One poll of the clock; `switched` reports a completed session. */
    method Tick(now: real) returns (switched: bool)
      modifies this
      ensures (State(), switched) == old(State()).Tick(now)
      ensures old(State().Valid()) ==> State().Valid()
      ensures old(State().Valid() && State().WithinSession() && State().NotBefore(now)) ==> State().WithinSession()
    {
      if !running || paused {
        return false;
      }
      TrackStudyTime(now);
      if endTime.Some? {
        remainingSeconds := Max0(endTime.value - now);
      }
      if remainingSeconds <= 0.0 {
        SwitchMode();
        Start(now);
        return true;
      }
      return false;
    }

    method TrackStudyTime(now: real)
      modifies this
      ensures State() == old(State()).TrackStudyTime(now)
    {
      if mode == Study && running && !paused && lastTickTime.Some? {
        var elapsed := now - lastTickTime.value;
        totalStudySeconds := totalStudySeconds + elapsed;
      }
      lastTickTime := Some(now);
    }

    method SwitchMode()
      modifies this
      ensures State() == old(State()).SwitchMode()
    {
      if mode == Study {
        mode := Break;
        durationSeconds := breakMinutes * 60;
      } else {
        mode := Study;
        durationSeconds := studyMinutes * 60;
      }
      remainingSeconds := durationSeconds as real;
      running := false;
      paused := false;
      endTime := None;
    }

    /** Fraction of the session done; see `TimerState.Progress`. */
    function GetProgress(): (p: real)
      reads this
      ensures 0.0 <= p <= 1.0
      ensures durationSeconds == 0 ==> p == 0.0
      ensures 0 < durationSeconds && 0.0 <= remainingSeconds <= durationSeconds as real ==>
                p * durationSeconds as real == durationSeconds as real - remainingSeconds
    {
      State().Progress()
    }

    /** "MM:SS" of the whole seconds left; see `TimerState.RemainingText`. */
    function FormatRemaining(): (text: string)
      reads this
      ensures TimeFormat.ParseClock(text).Some? && |TimeFormat.ParseClock(text).value| == 2
      ensures var f := TimeFormat.ParseClock(text).value;
                0 <= f[1] < 60 && (0.0 <= remainingSeconds ==> f[0] * 60 + f[1] == remainingSeconds.Floor)
      ensures var fs := TimeFormat.Fields(text);
                |fs| == 2 && TimeFormat.Padded2(fs[1])
                && (0.0 <= remainingSeconds ==> TimeFormat.Padded2(fs[0]))
    {
      State().RemainingText()
    }

    /** The long form "HH:MM:SS" of the total study time; see `TimerState.TotalStudyText`. */
    function FormatTotalStudyTime(): (text: string)
      reads this
      ensures TimeFormat.ParseClock(text).Some? && |TimeFormat.ParseClock(text).value| == 3
      ensures var f := TimeFormat.ParseClock(text).value;
                0 <= f[1] < 60 && 0 <= f[2] < 60
                && (0.0 <= totalStudySeconds ==> 0 <= f[0] && f[0] * 3600 + f[1] * 60 + f[2] == totalStudySeconds.Floor)
      ensures var fs := TimeFormat.Fields(text);
                |fs| == 3 && TimeFormat.Padded2(fs[1]) && TimeFormat.Padded2(fs[2])
                && (0.0 <= totalStudySeconds ==> TimeFormat.Padded2(fs[0]))
    {
      State().TotalStudyText()
    }

    method ResetTotalStudyTime()
      modifies this
      ensures State() == old(State()).ResetTotalStudyTime()
    {
      totalStudySeconds := 0.0;
    }
  }

  /**
    A host driving a fresh timer with 25-minute study and 5-minute break sessions:
    start at 0, poll at 10, pause at 10, resume at 100, poll at the deadline 1590.
    The last poll completes the study session and starts a full break.
  */
  method StudyBreakRun() returns (switched: bool, mode: Mode, remaining: real, studied: real)
    ensures switched && mode == Break && remaining == 300.0 && studied == 1500.0
  {
    var timer := new PomodoroTimer(25, 5, 0.0);
    timer.PauseToggle(0.0);
    var early := timer.Tick(10.0);
    assert !early && timer.remainingSeconds == 1490.0;
    timer.PauseToggle(10.0);
    assert timer.paused && timer.remainingSeconds == 1490.0;
    timer.PauseToggle(100.0);
    assert timer.endTime == Some(1590.0);
    switched := timer.Tick(1590.0);
    mode, remaining, studied := timer.mode, timer.remainingSeconds, timer.totalStudySeconds;
  }
}
