/**
  Properties of runs of the timer: what a sequence of polls does to the remaining
  time and to the accumulated study time, how pausing relates to polling, and the
  behaviour of a few concrete sessions.
*/
module TimerProperties {
  import opened Wrappers
  import opened TimerModel
  import TimeFormat

  /** The state after polling at each of `nows` in turn. */
  function RunTicks(s: TimerState, nows: seq<real>): TimerState
    decreases |nows|
  {
    if nows == [] then s else RunTicks(s.Tick(nows[0]).0, nows[1..])
  }

  predicate NonDecreasing(nows: seq<real>) {
    forall i, j :: 0 <= i <= j < |nows| ==> nows[i] <= nows[j]
  }

  /** Polls at non-decreasing times keep the invariant and keep the remaining time within [0, session length]. */
  lemma {:induction false} TicksStayWithinSession(s: TimerState, nows: seq<real>)
    requires s.Valid() && s.WithinSession()
    requires NonDecreasing(nows)
    requires |nows| > 0 ==> s.NotBefore(nows[0])
    ensures RunTicks(s, nows).Valid() && RunTicks(s, nows).WithinSession()
    ensures 0.0 <= RunTicks(s, nows).remainingSeconds <= RunTicks(s, nows).durationSeconds as real
    decreases |nows|
  {
    if nows != [] {
      var next := s.Tick(nows[0]).0;
      assert |nows[1..]| > 0 ==> next.NotBefore(nows[1..][0]);
      TicksStayWithinSession(next, nows[1..]);
    }
  }

  /**
    While a study session is counting and no poll reaches the deadline, the total grows by
    exactly the time between the last recorded tick and the final poll: study time is the
    sum of the intervals between polls, with nothing lost or counted twice.
  */
  lemma {:induction false} StudyTimeAccruesExactly(s: TimerState, nows: seq<real>)
    requires s.Valid() && s.mode == Study && s.Counting()
    requires |nows| > 0
    requires forall i :: 0 <= i < |nows| ==> nows[i] < s.endTime.value
    ensures var r := RunTicks(s, nows);
              r.mode == Study && r.Counting() && r.endTime == s.endTime
              && r.lastTickTime == Some(nows[|nows| - 1])
              && r.totalStudySeconds == s.totalStudySeconds + (nows[|nows| - 1] - s.lastTickTime.value)
    decreases |nows|
  {
    var next := s.Tick(nows[0]).0;
    if |nows| > 1 {
      StudyTimeAccruesExactly(next, nows[1..]);
    }
  }

  /** Polls during a break never change the accumulated study time, whether or not the break is counting. */
  lemma {:induction false} BreakTicksKeepTotal(s: TimerState, nows: seq<real>)
    requires s.Valid() && s.mode == Break
    requires s.Counting() ==> forall i :: 0 <= i < |nows| ==> nows[i] < s.endTime.value
    ensures RunTicks(s, nows).mode == Break
    ensures RunTicks(s, nows).totalStudySeconds == s.totalStudySeconds
    decreases |nows|
  {
    if nows != [] {
      BreakTicksKeepTotal(s.Tick(nows[0]).0, nows[1..]);
    }
  }

  /** Pausing and resuming at the same instant before the deadline has the effect of a single poll. */
  lemma PauseResumeIsTick(s: TimerState, now: real)
    requires s.Valid() && s.Counting() && now < s.endTime.value
    ensures s.PauseToggle(now).PauseToggle(now) == s.Tick(now).0
  {
  }

  /** Pausing and resuming at once keeps the remaining time and re-arms the deadline from it. */
  lemma PauseResumeKeepsRemaining(s: TimerState, now: real)
    requires s.Valid() && s.Counting()
    ensures var p := s.PauseToggle(now);
              var q := p.PauseToggle(now);
              p.paused && q.Counting() && q.remainingSeconds == p.remainingSeconds
              && q.endTime == Some(now + p.remainingSeconds) && q.Valid()
  {
  }

  /** Pausing and resuming at the instant of the last tick gives back exactly the state before. */
  lemma PauseResumeAtLastTick(s: TimerState)
    requires s.Valid() && s.Counting()
    ensures s.PauseToggle(s.lastTickTime.value).PauseToggle(s.lastTickTime.value) == s
  {
  }

  /** Starting twice is starting once, whatever the two clock readings. */
  lemma StartIdempotent(s: TimerState, first: real, second: real)
    ensures s.Start(first).Start(second) == s.Start(first)
  {
  }

  /** A poll that does not complete the session never moves the progress bar backwards. */
  lemma TickNeverLosesProgress(s: TimerState, now: real)
    requires s.Valid() && s.WithinSession() && s.NotBefore(now)
    requires !s.Tick(now).1
    ensures s.Progress() <= s.Tick(now).0.Progress()
  {
    if s.Counting() && 0 < s.durationSeconds {
      ProgressMonotone(s, s.Tick(now).0);
    }
  }

  /** Within one session, less remaining time means at least as much progress. */
  lemma ProgressMonotone(a: TimerState, b: TimerState)
    requires 0 < a.durationSeconds == b.durationSeconds
    requires 0.0 <= b.remainingSeconds <= a.remainingSeconds <= a.durationSeconds as real
    ensures a.Progress() <= b.Progress()
  {
    var d, pa, pb := a.durationSeconds as real, a.Progress(), b.Progress();
    assert pa * d == d - a.remainingSeconds && pb * d == d - b.remainingSeconds;
    PositiveFactor(pb - pa, d);
  }

  lemma PositiveFactor(x: real, d: real)
    requires 0.0 < d && 0.0 <= x * d
    ensures 0.0 <= x
  {
  }

  /**
    25-minute study, 5-minute break: start at 0, poll at 10, pause at 10, resume at 100,
    poll at the deadline 1590. The poll completes the session and a full break starts.
  */
  lemma StudyBreakScenario()
    ensures var s0 := Initial(25, 5, 0.0).Start(0.0);
            var t1 := s0.Tick(10.0);
            var s2 := t1.0.PauseToggle(10.0);
            var s3 := s2.PauseToggle(100.0);
            var t4 := s3.Tick(1590.0);
            !t1.1 && t1.0.remainingSeconds == 1490.0
            && s2.paused && s2.remainingSeconds == 1490.0
            && s3.Counting() && s3.endTime == Some(1590.0)
            && t4.1 && t4.0.mode == Break && t4.0.Counting() && t4.0.remainingSeconds == 300.0
            && t4.0.totalStudySeconds == 1500.0
  {
  }

  /**
    One-minute sessions: a poll 5 seconds after the deadline still completes the session,
    but the break starts in full at the poll, and the 5 late seconds count as study time.
  */
  lemma LateTickScenario()
    ensures var t := Initial(1, 1, 0.0).Start(0.0).Tick(65.0);
            t.1 && t.0.mode == Break && t.0.remainingSeconds == 60.0
            && t.0.endTime == Some(125.0) && t.0.totalStudySeconds == 65.0
  {
  }

  /** The "MM:SS" text for 125.9 seconds left. */
  lemma RemainingTextExample()
    ensures Initial(25, 5, 0.0).(remainingSeconds := 125.9).RemainingText() == "02:05"
  {
    assert TimeFormat.Trunc(125.9) == 125;
    assert TimeFormat.Pad2(2) == "02" && TimeFormat.Pad2(5) == "05";
    assert TimeFormat.MinutesSeconds(125) == "02:05";
  }

  /** The "HH:MM:SS" text for 5400 seconds studied. */
  lemma TotalStudyTextExample()
    ensures Initial(25, 5, 5400.0).TotalStudyText() == "01:30:00"
  {
    assert TimeFormat.Trunc(5400.0) == 5400;
    LongFormExample();
  }

  lemma LongFormExample()
    ensures TimeFormat.HoursMinutesSeconds(5400) == "01:30:00"
  {
    assert TimeFormat.Decimal(1) == "1" && TimeFormat.Decimal(0) == "0";
    assert TimeFormat.Decimal(30) == TimeFormat.Decimal(3) + "0" == "30";
    assert TimeFormat.Pad2(1) == "01" && TimeFormat.Pad2(0) == "00" && TimeFormat.Pad2(30) == "30";
    assert 5400 / 3600 == 1 && (5400 % 3600) / 60 == 30 && 5400 % 60 == 0;
    assert TimeFormat.HoursMinutesSeconds(5400)
        == TimeFormat.Pad2(1) + ":" + TimeFormat.Pad2(30) + ":" + TimeFormat.Pad2(0);
  }
}
