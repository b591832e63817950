/** The pausable stopwatch of src/Timer.cpp. The steady clock is abstracted
    to an integer millisecond reading `now` that the caller passes in; time
    points are milliseconds on that clock. */
module Timing {

  class Timer {
    var startTime: int
    var pauseTime: int
    var timeLimit: int
    var isPaused: bool

    /** The limit is never negative: both constructors and the setter
        check it, and nothing else writes it. */
    ghost predicate Valid()
      reads this
    {
      timeLimit >= 0
    }

    /** `Timer()`: no limit (zero), not paused, started at `now`. */
    constructor (now: int)
      ensures Valid()
      ensures startTime == now && pauseTime == 0 && timeLimit == 0 && !isPaused
    {
      startTime, pauseTime, timeLimit, isPaused := now, 0, 0, false;
    }

    /** `Timer(msLimit)`: the limit must not be negative. */
    constructor WithLimit(msLimit: int, now: int)
      requires msLimit >= 0
      ensures Valid()
      ensures startTime == now && pauseTime == 0 && timeLimit == msLimit && !isPaused
    {
      startTime, pauseTime, timeLimit, isPaused := now, 0, msLimit, false;
    }

    /** `start`: restarts the measurement at `now`; nothing else changes. */
    method Start(now: int)
      requires Valid()
      modifies this`startTime
      ensures Valid() && startTime == now
      ensures !isPaused ==> Duration(now) == 0
    {
      startTime := now;
    }

    /** `duration`: frozen at pauseTime - startTime while paused, otherwise
        the time since the (shifted) start. */
    function Duration(now: int): (d: int)
      reads this
      ensures isPaused ==> d == pauseTime - startTime
      ensures !isPaused ==> d + startTime == now
    {
      if isPaused then pauseTime - startTime else now - startTime
    }

    /** While paused the duration does not depend on the clock. */
    lemma PausedDurationFrozen(now1: int, now2: int)
      requires isPaused
      ensures Duration(now1) == Duration(now2)
    {
    }

    /** `timeRanOut`: a zero limit has always run out; otherwise the limit
        has run out once the duration reaches it. */
    function TimeRanOut(now: int): (r: bool)
      reads this
      ensures timeLimit == 0 ==> r
      ensures timeLimit != 0 ==> (r <==> Duration(now) >= timeLimit)
    {
      if timeLimit == 0 then true else Duration(now) >= timeLimit
    }

    /** `timeElapsed`: the duration in milliseconds. */
    function TimeElapsed(now: int): (ms: int)
      reads this
      ensures ms == Duration(now)
    {
      Duration(now)
    }

    /** `getTimeLimit`. */
    function GetTimeLimit(): (ms: int)
      reads this
      ensures ms == timeLimit
      ensures Valid() ==> ms >= 0
    {
      timeLimit
    }

    /** `setTimeLimit`: the limit must not be negative; only the limit
        changes. */
    method SetTimeLimit(msLimit: int)
      requires msLimit >= 0
      modifies this`timeLimit
      ensures Valid() && timeLimit == msLimit
    {
      timeLimit := msLimit;
    }

    /** `pause` toggles the paused state. Pausing records the clock, which
        freezes the duration at its current value; resuming shifts the start
        by the length of the pause, so the pause does not count. */
    method Pause(now: int)
      requires Valid()
      modifies this`startTime, this`pauseTime, this`isPaused
      ensures Valid() && isPaused == !old(isPaused)
      ensures old(isPaused) ==> startTime == old(startTime) + (now - old(pauseTime)) && pauseTime == old(pauseTime)
      ensures !old(isPaused) ==> startTime == old(startTime) && pauseTime == now
      ensures !old(isPaused) ==> forall t :: Duration(t) == old(Duration(now))
      ensures old(isPaused) ==> forall t :: Duration(t) == t - now + old(Duration(now))
    {
      if isPaused {
        startTime := startTime + (now - pauseTime);
      } else {
        pauseTime := now;
      }
      isPaused := !isPaused;
    }
  }

  /** A timer started at t0, paused at t1 and resumed at t2 reports at t3
      the running time without the pause. */
  method PauseExcludesInterval(t0: int, t1: int, t2: int, t3: int) returns (elapsed: int)
    ensures elapsed == (t3 - t0) - (t2 - t1)
  {
    var timer := new Timer(t0);
    timer.Pause(t1);
    timer.Pause(t2);
    elapsed := timer.TimeElapsed(t3);
  }

  /** While paused, readings at different clock values agree and equal the
      time up to the pause. */
  method PausedReadingsAgree(t0: int, t1: int, t2: int, t3: int) returns (d2: int, d3: int)
    ensures d2 == d3 == t1 - t0
  {
    var timer := new Timer(t0);
    timer.Pause(t1);
    d2 := timer.TimeElapsed(t2);
    d3 := timer.TimeElapsed(t3);
  }

  /** A timer without a limit has run out at once. */
  method NoLimitHasRunOut(t0: int, t1: int) returns (ranOut: bool)
    ensures ranOut
  {
    var timer := new Timer(t0);
    ranOut := timer.TimeRanOut(t1);
  }

  /** With a positive limit the timer runs out exactly once the limit has
      passed since the start. */
  method LimitRunsOutOnTime(msLimit: int, t0: int, t1: int) returns (ranOut: bool)
    requires msLimit > 0
    ensures ranOut <==> t1 - t0 >= msLimit
  {
    var timer := new Timer.WithLimit(msLimit, t0);
    ranOut := timer.TimeRanOut(t1);
  }

  /** Restarting a running timer reads zero at the restart. */
  method RestartReadsZero(t0: int, t1: int) returns (elapsed: int)
    ensures elapsed == 0
  {
    var timer := new Timer(t0);
    timer.Start(t1);
    elapsed := timer.TimeElapsed(t1);
  }

  /** Setting the limit changes the limit and nothing the clock reads. */
  method SetLimitKeepsDuration(t0: int, msLimit: int, t1: int) returns (before: int, after: int, limit: int)
    requires msLimit >= 0
    ensures before == after == t1 - t0 && limit == msLimit
  {
    var timer := new Timer(t0);
    before := timer.TimeElapsed(t1);
    timer.SetTimeLimit(msLimit);
    after := timer.TimeElapsed(t1);
    limit := timer.GetTimeLimit();
  }
}
