/**
 * The timer component's state and handlers, run step by step on fields as
 * the component does. Each handler is proved to produce the state the
 * matching function of module `Timer` gives, and to keep `Timer.Inv`.
 *
 * React state setters take effect after the handler returns, so a handler
 * reads the values it started with; where the component reads a field after
 * "setting" it, the method reads a copy of the old value.
 */
module Engine {
  import opened Optional
  import opened Timer

  class TimerEngine {
    var mode: Mode
    var timeLeft: int
    var customTime: int
    var isActive: bool
    var isAlarmRinging: bool
    /** endTimeRef: the wall-clock instant (ms) the countdown ends, while it runs. */
    var endTime: Option<int>

    function State(): TimerState
      reads this
    {
      TimerState(mode, timeLeft, customTime, isActive, isAlarmRinging, endTime)
    }

    ghost predicate Valid()
      reads this
    {
      Inv(State())
    }

    constructor ()
      ensures Valid() && State() == Initial()
    {
      mode := Pomodoro;
      timeLeft := BaseTime(Pomodoro);
      customTime := BaseTime(Custom);
      isActive := false;
      isAlarmRinging := false;
      endTime := None;
    }

    method StopAlarm()
      modifies this
      ensures old(Valid()) ==> Valid()
      ensures State() == Timer.StopAlarm(old(State()))
    {
      isAlarmRinging := false;
    }

    method SwitchMode(newMode: Mode)
      requires Valid()
      modifies this
      ensures Valid() && State() == Timer.SwitchMode(old(State()), newMode)
    {
      mode := newMode;
      StopAlarm();
      isActive := false;
      endTime := None;
      if newMode == Custom {
        timeLeft := customTime;
      } else {
        timeLeft := BaseTime(newMode);
      }
    }

    method ToggleTimer(now: int)
      requires Valid()
      modifies this
      ensures Valid() && State() == Toggle(old(State()), now)
    {
      if isAlarmRinging {
        StopAlarm();
      } else {
        if !isActive && timeLeft == 0 {
          var duration := if mode == Custom then customTime else BaseTime(mode);
          if duration <= 0 {
            return;
          }
          timeLeft := duration;
          endTime := Some(now + duration * 1000);
          isActive := true;
        } else {
          var wasActive := isActive;
          isActive := !wasActive;
          if !wasActive {
            endTime := Some(now + timeLeft * 1000);
          } else {
            endTime := None;
          }
        }
      }
    }

    method ResetTimer()
      requires Valid()
      modifies this
      ensures Valid() && State() == Reset(old(State()))
    {
      StopAlarm();
      isActive := false;
      endTime := None;
      if mode == Custom {
        timeLeft := customTime;
      } else {
        timeLeft := BaseTime(mode);
      }
    }

    method AdjustTime(amount: int)
      requires Valid()
      modifies this
      ensures Valid() && State() == Adjust(old(State()), amount)
    {
      if mode != Custom || isActive {
        return;
      }
      var newTime := if customTime + amount > 0 then customTime + amount else 0;
      customTime := newTime;
      timeLeft := newTime;
    }

    method HandleTimerFinished()
      requires Valid() && isActive
      modifies this
      ensures Valid() && State() == Finish(old(State()))
    {
      isActive := false;
      timeLeft := 0;
      isAlarmRinging := true;
      endTime := None;
    }

    /** The interval callback; the interval is only scheduled while the timer runs. */
    method Tick(now: int, hidden: bool)
      requires Valid() && isActive
      modifies this
      ensures Valid() && State() == Timer.Tick(old(State()), now, hidden)
    {
      var secondsRemaining := Remaining(endTime.value, now);
      if !hidden {
        timeLeft := secondsRemaining;
      }
      if secondsRemaining <= 0 {
        HandleTimerFinished();
      }
    }

    /** The visibilitychange listener. */
    method HandleVisibilityChange(now: int, hidden: bool)
      requires Valid()
      modifies this
      ensures Valid() && State() == Resync(old(State()), now, hidden)
    {
      if !hidden && isActive && endTime.Some? {
        timeLeft := Remaining(endTime.value, now);
      }
    }
  }
}
