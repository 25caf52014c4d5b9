/**
 * The timer engine's transitions as functions on a state value. Each
 * handler of the timer component (switching mode, start/pause, reset,
 * stopping the alarm, adjusting the custom duration, the interval tick and
 * the resync when the window becomes visible) is a function from the state
 * before to the state after; `Engine.TimerEngine` runs the same handlers
 * step by step on fields and is proved to agree with these functions.
 *
 * Times: `timeLeft` and `customTime` are whole seconds, `endTime` and `now`
 * are wall-clock instants in milliseconds.
 */
module Timer {
  import opened Optional

  datatype Mode = Pomodoro | Short | Long | Custom

  /** The fixed duration of each preset, in seconds (custom's 0 is only its initial duration). */
  function BaseTime(m: Mode): (r: nat)
    ensures m != Custom ==> r > 0 && r % 60 == 0
    ensures m == Custom ==> r == 0
  {
    match m
    case Pomodoro => 25 * 60
    case Short => 5 * 60
    case Long => 15 * 60
    case Custom => 0
  }

  datatype TimerState = TimerState(
    mode: Mode,
    timeLeft: int,
    customTime: int,
    isActive: bool,
    isAlarmRinging: bool,
    endTime: Option<int>)

  /**
   * What every reachable state satisfies: durations are never negative, an
   * end instant is stored exactly while the timer runs, a ringing alarm
   * means the timer has stopped, and a custom timer whose duration is zero
   * shows 00:00 and is stopped.
   */
  predicate Inv(s: TimerState) {
    && s.timeLeft >= 0
    && s.customTime >= 0
    && (s.endTime.Some? <==> s.isActive)
    && (s.isAlarmRinging ==> !s.isActive)
    && (s.mode == Custom && s.customTime == 0 ==> s.timeLeft == 0 && !s.isActive)
  }

  /** Not running, not ringing, no end instant. */
  predicate Idle(s: TimerState) {
    !s.isActive && !s.isAlarmRinging && s.endTime.None?
  }

  /** The duration the current mode starts from. */
  function Duration(s: TimerState): (r: int)
    ensures s.customTime >= 0 ==> r >= 0
    ensures r <= 0 <==> s.mode == Custom && s.customTime <= 0
  {
    if s.mode == Custom then s.customTime else BaseTime(s.mode)
  }

  /** The state the component starts in: pomodoro, 25:00, custom duration 0. */
  function Initial(): (s: TimerState)
    ensures Inv(s) && Idle(s)
    ensures s.timeLeft == Duration(s) == 1500
  {
    TimerState(Pomodoro, BaseTime(Pomodoro), BaseTime(Custom), false, false, None)
  }

  /**
   * `Math.max(0, Math.ceil((end - now) / 1000))`: the whole seconds left
   * until `end`, rounded up. Dafny's `/` floors for a positive divisor, so
   * the ceiling of d / 1000 is -((-d) / 1000).
   */
  function Remaining(end: int, now: int): (r: nat)
    ensures r == 0 <==> end <= now
    ensures r > 0 ==> (r - 1) * 1000 < end - now <= r * 1000
  {
    var secs := -((now - end) / 1000);
    if secs > 0 then secs else 0
  }

  /** switchMode: a fresh, idle timer showing the full duration of the new mode. */
  function SwitchMode(s: TimerState, m: Mode): (t: TimerState)
    ensures Idle(t) && t.mode == m && t.customTime == s.customTime
    ensures t.timeLeft == Duration(t)
  {
    TimerState(m, if m == Custom then s.customTime else BaseTime(m), s.customTime, false, false, None)
  }

  /** stopAlarm: silence the alarm, nothing else. */
  function StopAlarm(s: TimerState): (t: TimerState)
    ensures !t.isAlarmRinging
    ensures t.(isAlarmRinging := s.isAlarmRinging) == s
  {
    s.(isAlarmRinging := false)
  }

  /**
   * toggleTimer: a ringing alarm is only silenced; a stopped timer at zero
   * re-arms with its mode's duration (and stays put if that is not
   * positive); otherwise the timer starts from `timeLeft` or pauses.
   */
  function Toggle(s: TimerState, now: int): (t: TimerState)
    ensures t.mode == s.mode && t.customTime == s.customTime
    ensures s.isAlarmRinging ==> t == s.(isAlarmRinging := false)
    ensures t.isActive && !s.isActive ==>
      !s.isAlarmRinging && t.endTime == Some(now + t.timeLeft * 1000)
    ensures s.isActive && !s.isAlarmRinging ==>
      !t.isActive && t.endTime.None? && t.timeLeft == s.timeLeft
    ensures Inv(s) ==> Inv(t)
  {
    if s.isAlarmRinging then StopAlarm(s)
    else if !s.isActive && s.timeLeft == 0 then
      var duration := Duration(s);
      if duration <= 0 then s
      else s.(timeLeft := duration, endTime := Some(now + duration * 1000), isActive := true)
    else if !s.isActive then s.(isActive := true, endTime := Some(now + s.timeLeft * 1000))
    else s.(isActive := false, endTime := None)
  }

  /** resetTimer: idle again, showing the full duration of the current mode. */
  function Reset(s: TimerState): (t: TimerState)
    ensures Idle(t) && t.mode == s.mode && t.customTime == s.customTime
    ensures t.timeLeft == Duration(t)
  {
    s.(isAlarmRinging := false, isActive := false, endTime := None, timeLeft := Duration(s))
  }

  /**
   * adjustTime: only a stopped custom timer can be adjusted; its duration
   * moves by `amount` seconds but not below zero, and the display follows.
   */
  function Adjust(s: TimerState, amount: int): (t: TimerState)
    ensures s.mode != Custom || s.isActive ==> t == s
    ensures s.mode == Custom && !s.isActive ==>
      && t == s.(customTime := t.customTime, timeLeft := t.customTime)
      && t.customTime >= 0 && t.customTime >= s.customTime + amount
      && (t.customTime == 0 || t.customTime == s.customTime + amount)
  {
    if s.mode != Custom || s.isActive then s
    else
      var newTime := if s.customTime + amount > 0 then s.customTime + amount else 0;
      s.(customTime := newTime, timeLeft := newTime)
  }

  /** handleTimerFinished, with the end instant the activity effect clears once the timer stops. */
  function Finish(s: TimerState): (t: TimerState)
    ensures !t.isActive && t.isAlarmRinging && t.timeLeft == 0 && t.endTime.None?
    ensures t.mode == s.mode && t.customTime == s.customTime
    ensures s.customTime >= 0 ==> Inv(t)
  {
    s.(isActive := false, timeLeft := 0, isAlarmRinging := true, endTime := None)
  }

  /**
   * One firing of the interval, which exists only while the timer runs.
   * The display is refreshed only while the window is visible; reaching
   * zero finishes the timer whether visible or not.
   */
  function Tick(s: TimerState, now: int, hidden: bool): (t: TimerState)
    requires s.isActive && s.endTime.Some?
    ensures t.isActive <==> now < s.endTime.value
    ensures t.isActive ==> t == s.(timeLeft := t.timeLeft) && (hidden || t.timeLeft > 0)
    ensures !t.isActive ==> t == Finish(s)
    ensures hidden && t.isActive ==> t == s
    ensures !hidden ==> t.timeLeft == Remaining(s.endTime.value, now)
  {
    var secondsRemaining := Remaining(s.endTime.value, now);
    var shown := if hidden then s else s.(timeLeft := secondsRemaining);
    if secondsRemaining <= 0 then Finish(shown) else shown
  }

  /** The visibilitychange handler: on becoming visible, recompute the display from the end instant. */
  function Resync(s: TimerState, now: int, hidden: bool): (t: TimerState)
    ensures s.isActive && s.endTime.Some? && !hidden ==> t == s.(timeLeft := Remaining(s.endTime.value, now))
    ensures !(s.isActive && s.endTime.Some? && !hidden) ==> t == s
  {
    if !hidden && s.isActive && s.endTime.Some? then s.(timeLeft := Remaining(s.endTime.value, now))
    else s
  }

  /** One delivery of the interval: the instant it fires and whether the window is hidden then. */
  datatype Poll = Poll(now: int, hidden: bool)

  /** The final state after a run of polls, and how many of them rang the alarm. */
  datatype Run = Run(final: TimerState, rings: nat)

  /**
   * The interval firing at each poll in turn. Once the timer is no longer
   * active the interval is cleared, so later polls are not delivered.
   */
  function RunPolls(s: TimerState, polls: seq<Poll>): (r: Run)
    requires s.isActive ==> s.endTime.Some?
    ensures r.final.isActive ==> r.final.endTime == s.endTime && s.isActive
    decreases |polls|
  {
    if polls == [] || !s.isActive then Run(s, 0)
    else
      var t := Tick(s, polls[0].now, polls[0].hidden);
      var rest := RunPolls(t, polls[1..]);
      Run(rest.final, rest.rings + if t.isActive then 0 else 1)
  }

  // ---------------------------------------------------------------------
  // The invariant is kept by every handler.

  lemma InvariantKept(s: TimerState, m: Mode, now: int, amount: int, hidden: bool)
    requires Inv(s)
    ensures Inv(SwitchMode(s, m)) && Inv(StopAlarm(s)) && Inv(Toggle(s, now))
    ensures Inv(Reset(s)) && Inv(Adjust(s, amount)) && Inv(Resync(s, now, hidden))
    ensures s.isActive ==> Inv(Tick(s, now, hidden))
  {
  }

  // ---------------------------------------------------------------------
  // Mode switch and reset.

  /** Switching to the short break gives 5:00, stopped and silent, from any state. */
  lemma SwitchToShortBreak(s: TimerState)
    ensures SwitchMode(s, Short).timeLeft == 300 && Idle(SwitchMode(s, Short))
  {
  }

  /** Resetting is switching to the mode already selected. */
  lemma ResetIsSwitchToSameMode(s: TimerState)
    ensures Reset(s) == SwitchMode(s, s.mode)
  {
  }

  // ---------------------------------------------------------------------
  // Start, pause and the alarm.

  /** While the alarm rings, the start button only silences it. */
  lemma ToggleWhileRinging(s: TimerState, now: int)
    requires s.isAlarmRinging
    ensures Toggle(s, now) == s.(isAlarmRinging := false)
  {
  }

  /** From 00:00, start re-arms with the mode's duration, or does nothing if it is not positive. */
  lemma ToggleFromZero(s: TimerState, now: int)
    requires !s.isAlarmRinging && !s.isActive && s.timeLeft == 0
    ensures Duration(s) <= 0 ==> Toggle(s, now) == s
    ensures Duration(s) > 0 ==>
      Toggle(s, now) == s.(timeLeft := Duration(s), endTime := Some(now + Duration(s) * 1000), isActive := true)
  {
  }

  /** Otherwise start sets the end instant `timeLeft` seconds ahead, and pause keeps `timeLeft`. */
  lemma ToggleStartsOrPauses(s: TimerState, now: int)
    requires !s.isAlarmRinging && (s.isActive || s.timeLeft != 0)
    ensures Toggle(s, now).isActive == !s.isActive
    ensures Toggle(s, now).timeLeft == s.timeLeft
    ensures Toggle(s, now).endTime == if s.isActive then None else Some(now + s.timeLeft * 1000)
  {
  }

  /**
   * A start always counts down from a positive number of seconds to an end
   * instant in the future: no start ever begins at 00:00.
   */
  lemma StartIsPositive(s: TimerState, now: int)
    requires Inv(s) && !s.isActive && Toggle(s, now).isActive
    ensures Toggle(s, now).timeLeft > 0
    ensures Toggle(s, now).endTime.Some? && Toggle(s, now).endTime.value >= now + 1000
  {
  }

  /** A custom timer whose duration is zero can never be started. */
  lemma ZeroCustomNeverStarts(s: TimerState, now: int)
    requires Inv(s) && s.mode == Custom && s.customTime == 0
    ensures !Toggle(s, now).isActive
  {
  }

  /** Pausing right after starting (no tick in between) gives back the paused state. */
  lemma PauseUndoesStart(s: TimerState, t0: int, t1: int)
    requires Inv(s) && !s.isActive && !s.isAlarmRinging && s.timeLeft > 0
    ensures Toggle(Toggle(s, t0), t1) == s
  {
  }

  // ---------------------------------------------------------------------
  // Custom duration.

  /** The custom duration never goes negative, however far it is turned down. */
  lemma AdjustNeverNegative(s: TimerState, amount: int)
    requires s.customTime >= 0
    ensures Adjust(s, amount).customTime >= 0
  {
  }

  /** A `+a` followed by `-a` on a stopped custom timer restores its duration. */
  lemma AdjustUndo(s: TimerState, amount: int)
    requires s.mode == Custom && !s.isActive && s.customTime >= 0 && amount >= 0
    ensures Adjust(Adjust(s, amount), -amount) == s.(timeLeft := s.customTime)
  {
  }

  // ---------------------------------------------------------------------
  // The countdown: remaining time from the end instant.

  /** The remaining time never grows as the clock advances. */
  lemma RemainingMonotone(end: int, now1: int, now2: int)
    requires now1 <= now2
    ensures Remaining(end, now2) <= Remaining(end, now1)
  {
  }

  /**
   * No drift: started at `now0` with `seconds` on the clock, the remaining
   * time at any later instant is `seconds` minus the whole seconds elapsed,
   * however many ticks came in between.
   */
  lemma RemainingAfterStart(now0: int, seconds: nat, now: int)
    requires now0 <= now
    ensures Remaining(now0 + seconds * 1000, now)
         == if (now - now0) / 1000 >= seconds then 0 else seconds - (now - now0) / 1000
  {
  }

  /**
   * Start a stopped timer showing `timeLeft` at `now0`; a tick while the
   * window is visible `elapsed` milliseconds later shows `timeLeft` minus
   * the whole seconds elapsed, and rings exactly when that reaches zero.
   */
  lemma CountdownFromStart(s: TimerState, now0: int, elapsed: nat)
    requires Inv(s) && !s.isActive && !s.isAlarmRinging && s.timeLeft > 0
    ensures var t := Tick(Toggle(s, now0), now0 + elapsed, false);
      && t.timeLeft == (if elapsed / 1000 >= s.timeLeft then 0 else s.timeLeft - elapsed / 1000)
      && (t.isAlarmRinging <==> elapsed / 1000 >= s.timeLeft)
      && (t.isActive <==> !t.isAlarmRinging)
  {
    RemainingAfterStart(now0, s.timeLeft, now0 + elapsed);
  }

  /**
   * Ringing exactly once: a running timer delivered any polls rings once
   * if some poll comes at or after its end instant and never otherwise; the
   * end instant is never moved while it runs, and after ringing it is stopped
   * at 00:00.
   */
  lemma {:induction false} RingsExactlyOnce(s: TimerState, polls: seq<Poll>)
    requires s.isActive && s.endTime.Some? && !s.isAlarmRinging
    ensures var run := RunPolls(s, polls);
      && run.rings == (if exists i :: 0 <= i < |polls| && polls[i].now >= s.endTime.value then 1 else 0)
      && (run.rings == 0 ==> run.final == s.(timeLeft := run.final.timeLeft))
      && (run.rings == 1 ==> run.final == Finish(s))
    decreases |polls|
  {
    if polls != [] {
      var t := Tick(s, polls[0].now, polls[0].hidden);
      if t.isActive {
        RingsExactlyOnce(t, polls[1..]);
        assert forall i :: 1 <= i < |polls| ==> polls[i] == polls[1..][i - 1];
      }
    }
  }

  /**
   * The display after a visible tick or a resync depends only on the end
   * instant and the current time: the same whatever polls came before, as
   * long as the timer is still running.
   */
  lemma NoDrift(s: TimerState, polls: seq<Poll>, now: int)
    requires s.isActive && s.endTime.Some? && !s.isAlarmRinging
    requires RunPolls(s, polls).final.isActive
    ensures Tick(RunPolls(s, polls).final, now, false) == Tick(s, now, false)
    ensures Resync(RunPolls(s, polls).final, now, false) == Resync(s, now, false)
  {
    RingsExactlyOnce(s, polls);
  }
}
