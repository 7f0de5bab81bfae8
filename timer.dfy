/**
 * The platform Timer that every junction owns (main.cpp:150): a stopwatch
 * with start/stop/reset and a read-out, measured here in whole milliseconds.
 * Real time is not observable in the model; it reaches a timer only through
 * `Elapse`, which adds the time that passed while the timer was running.
 */
module Timers {

  /** The abstract value of a timer: whether it counts, and what it reads. */
  datatype TimerState = TimerState(running: bool, elapsed: nat)

  /** A timer that is stopped and reads 0: fresh, or just stopped and reset. */
  const Idle := TimerState(false, 0)

  /**
   * The discipline the junction code keeps: it always resets a timer right
   * after stopping it, so a timer that is not running reads 0.
   */
  predicate Disciplined(t: TimerState) {
    !t.running ==> t.elapsed == 0
  }

  /** `dt` milliseconds of real time pass; only a running timer counts them. */
  function Elapse(t: TimerState, dt: nat): (r: TimerState)
    ensures r.running == t.running
    ensures !t.running ==> r == t
    ensures t.running ==> r.elapsed - t.elapsed == dt
    ensures Disciplined(t) ==> Disciplined(r)
  {
    if t.running then t.(elapsed := t.elapsed + dt) else t
  }

  class Timer {
    var running: bool
    var elapsed: nat

    function State(): TimerState
      reads this
    {
      TimerState(running, elapsed)
    }

    /** A default-constructed timer is stopped and reads 0. */
    constructor ()
      ensures State() == Idle
    {
      running, elapsed := false, 0;
    }

    /** Starts counting; the read-out is kept (starting a running timer does nothing). */
    method Start()
      modifies this
      ensures running && elapsed == old(elapsed)
    {
      running := true;
    }

    /** Stops counting; the read-out is kept. */
    method Stop()
      modifies this
      ensures !running && elapsed == old(elapsed)
    {
      running := false;
    }

    /** Sets the read-out to 0 without starting or stopping the timer. */
    method Reset()
      modifies this
      ensures elapsed == 0 && running == old(running)
    {
      elapsed := 0;
    }

    method Read() returns (e: nat)
      ensures e == elapsed
    {
      e := elapsed;
    }

    /** Real time passing between two polls of the control loop. */
    method Tick(dt: nat)
      modifies this
      ensures State() == Elapse(old(State()), dt)
    {
      if running {
        elapsed := elapsed + dt;
      }
    }
  }
}
