/** The countdown of src/components/Timer.tsx: the seconds it holds and whether
    a one-second interval is live. Each firing of the interval, and each run of
    the component's effect, is an explicit method call; the scheduling itself
    is not modelled. */
module CountdownTimer {

  /** The value one firing of the interval stores and reports. */
  function TickValue(t: int): (r: int)
    ensures r >= 0
    ensures t >= 1 ==> r == t - 1
    ensures t <= 0 ==> r == 0
  {
    if t - 1 > 0 then t - 1 else 0
  }

  /** The value after k firings. */
  function Ticks(t: int, k: nat): int
    decreases k
  {
    if k == 0 then t else Ticks(TickValue(t), k - 1)
  }

  /** k firings count down by k and stop at zero (a negative start is
      lifted to zero by the first firing). */
  lemma {:induction false} TicksFloorAtZero(t: int, k: nat)
    ensures t >= 0 || k > 0 ==> Ticks(t, k) == if t - k > 0 then t - k else 0
    decreases k
  {
    if k > 0 {
      assert Ticks(t, k) == Ticks(TickValue(t), k - 1);
      TicksFloorAtZero(TickValue(t), k - 1);
    }
  }

  class Timer {
    var timeRemaining: int
    /** An interval is registered and not yet cleared. */
    var active: bool

    constructor (initialTime: int)
      ensures timeRemaining == initialTime && !active
    {
      timeRemaining := initialTime;
      active := false;
    }

    /** The effect on a new `initialTime`: start again from it. */
    method Reseed(initialTime: int)
      modifies this
      ensures timeRemaining == initialTime && active == old(active)
    {
      timeRemaining := initialTime;
    }

    /** The main effect: clear any live interval; at zero or below report that
        time is up and start nothing; otherwise start one interval unless
        paused. */
    method RunEffect(isPaused: bool) returns (timeUp: bool)
      modifies this
      ensures timeRemaining == old(timeRemaining)
      ensures timeUp <==> timeRemaining <= 0
      ensures active <==> !timeUp && !isPaused
    {
      active := false;
      if timeRemaining <= 0 {
        return true;
      }
      timeUp := false;
      if !isPaused {
        active := true;
      }
    }

    /** One firing of the live interval: count down with a floor at zero and
        report the new value. */
    method Tick() returns (reported: int)
      requires active
      modifies this
      ensures timeRemaining == TickValue(old(timeRemaining)) && active
      ensures reported == timeRemaining
    {
      var newTime := if timeRemaining - 1 > 0 then timeRemaining - 1 else 0;
      reported := newTime;
      timeRemaining := newTime;
    }

    /** The effect's cleanup: the live interval, if any, is cleared. */
    method Cleanup()
      modifies this
      ensures !active && timeRemaining == old(timeRemaining)
    {
      active := false;
    }
  }
}
