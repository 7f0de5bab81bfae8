/**
 * One approach road of the intersection (class Junction, main.cpp:144-203):
 * its signal, its wait limit and the timer that debounces the presence
 * sensor. The sensor itself is not modelled; each poll is given the
 * sensor's answer as the boolean `present`.
 */
module Junctions {
  import opened Timers
  import opened Signals

  /** What one poll of `isVehicleWaiting` reports, and the timer it leaves. */
  datatype PollResult = PollResult(waiting: bool, timer: TimerState)

  /**
   * The debounce decision of `isVehicleWaiting` (main.cpp:165-195) on a timer
   * that reads `t`, for a junction whose wait limit is `limit` milliseconds.
   * A timer that reads 0 counts as not started (main.cpp:174).
   */
  function Poll(t: TimerState, limit: nat, present: bool): (r: PollResult)
    // a vehicle counts as waiting exactly when it is seen after more than the limit
    ensures r.waiting <==> present && t.elapsed > limit
    // first detection: the timer is started, nothing is reported
    ensures present && t.elapsed == 0 ==> r.timer == TimerState(true, 0)
    // inside the debounce window: nothing is reported, the timer is left alone
    ensures present && 0 < t.elapsed <= limit ==> r.timer == t
    // a confirmation stops and clears the timer, so the next detection starts a new window
    ensures r.waiting ==> r.timer == Idle
    // no vehicle: the timer is stopped and cleared
    ensures !present ==> r.timer == Idle
    ensures Disciplined(t) ==> Disciplined(r.timer) && (r.timer.elapsed > 0 ==> r.timer == t)
  {
    if present then
      if t.elapsed == 0 then PollResult(false, t.(running := true))
      else if t.elapsed > limit then PollResult(true, Idle)
      else PollResult(false, t)
    else
      PollResult(false, Idle)
  }

  /** One poll of the sensor, `dt` milliseconds after the previous one. */
  datatype Sample = Sample(dt: nat, present: bool)

  /** The answers of successive polls of one junction, starting from timer `t`. */
  function Answers(t: TimerState, limit: nat, samples: seq<Sample>): (outs: seq<bool>)
    ensures |outs| == |samples|
    decreases |samples|
  {
    if samples == [] then []
    else
      var p := Poll(Elapse(t, samples[0].dt), limit, samples[0].present);
      [p.waiting] + Answers(p.timer, limit, samples[1..])
  }

  /** The timer after those polls. */
  function TimerAfter(t: TimerState, limit: nat, samples: seq<Sample>): TimerState
    decreases |samples|
  {
    if samples == [] then t
    else
      var p := Poll(Elapse(t, samples[0].dt), limit, samples[0].present);
      TimerAfter(p.timer, limit, samples[1..])
  }

  /** Total time between polls. */
  function TotalTime(samples: seq<Sample>): nat
    decreases |samples|
  {
    if samples == [] then 0 else samples[0].dt + TotalTime(samples[1..])
  }

  predicate AllPresent(samples: seq<Sample>) {
    forall i :: 0 <= i < |samples| ==> samples[i].present
  }

  /** Polling a run of samples in two parts is polling it in one. */
  lemma {:induction false} AnswersSplit(t: TimerState, limit: nat, a: seq<Sample>, b: seq<Sample>)
    ensures Answers(t, limit, a + b) == Answers(t, limit, a) + Answers(TimerAfter(t, limit, a), limit, b)
    ensures TimerAfter(t, limit, a + b) == TimerAfter(TimerAfter(t, limit, a), limit, b)
    decreases |a|
  {
    if a != [] {
      var p := Poll(Elapse(t, a[0].dt), limit, a[0].present);
      assert (a + b)[0] == a[0];
      assert (a + b)[1..] == a[1..] + b;
      AnswersSplit(p.timer, limit, a[1..], b);
    } else {
      assert a + b == b;
    }
  }

  /**
   * A vehicle seen on every poll, with the timer already running at `e`
   * (within the limit), is confirmed on some poll exactly when the time
   * that passes in all exceeds what is left of the limit.
   */
  lemma {:induction false} ContinuousPresence(e: nat, limit: nat, samples: seq<Sample>)
    requires e <= limit
    requires AllPresent(samples)
    ensures (true in Answers(TimerState(true, e), limit, samples)) <==> e + TotalTime(samples) > limit
    decreases |samples|
  {
    if samples != [] {
      var e1 := e + samples[0].dt;
      var outs := Answers(TimerState(true, e), limit, samples);
      if e1 > limit {
        assert outs[0];
      } else {
        assert AllPresent(samples[1..]) by {
          forall i | 0 <= i < |samples[1..]| ensures samples[1..][i].present {
            assert samples[1..][i] == samples[i + 1];
          }
        }
        ContinuousPresence(e1, limit, samples[1..]);
        assert outs == [false] + Answers(TimerState(true, e1), limit, samples[1..]);
      }
    }
  }

  /**
   * Debounce correctness from a stopped timer: the first poll only starts
   * the timer, and a vehicle seen on every poll is confirmed exactly when
   * the time after that first poll exceeds the limit. Present for at most
   * the limit: never confirmed; present for longer: confirmed.
   */
  lemma {:induction false} DebounceFromIdle(limit: nat, samples: seq<Sample>)
    requires AllPresent(samples)
    ensures samples != [] ==> !Answers(Idle, limit, samples)[0]
    ensures (true in Answers(Idle, limit, samples)) <==> samples != [] && TotalTime(samples[1..]) > limit
  {
    if samples != [] {
      assert AllPresent(samples[1..]) by {
        forall i | 0 <= i < |samples[1..]| ensures samples[1..][i].present {
          assert samples[1..][i] == samples[i + 1];
        }
      }
      ContinuousPresence(0, limit, samples[1..]);
      assert Answers(Idle, limit, samples) == [false] + Answers(TimerState(true, 0), limit, samples[1..]);
    }
  }

  /**
   * "Confirmed waiting" is throttled: between two confirmations at polls
   * `i` < `j` of a vehicle seen throughout, more than the limit passes
   * after the poll that restarts the timer.
   */
  lemma {:induction false} ConfirmationSpacing(t: TimerState, limit: nat, samples: seq<Sample>, i: nat, j: nat)
    requires AllPresent(samples)
    requires i < j < |samples|
    requires Answers(t, limit, samples)[i] && Answers(t, limit, samples)[j]
    ensures TotalTime(samples[i + 2..j + 1]) > limit
  {
    var a, b := samples[..i + 1], samples[i + 1..j + 1];
    assert samples[..j + 1] == a + b;
    AnswersSplit(t, limit, samples[..j + 1], samples[j + 1..]);
    assert samples[..j + 1] + samples[j + 1..] == samples;
    AnswersSplit(t, limit, a, b);
    AnswersSplit(t, limit, samples[..i], [samples[i]]);
    assert samples[..i] + [samples[i]] == a;
    var ti := TimerAfter(t, limit, samples[..i]);
    var outsA := Answers(t, limit, a);
    assert outsA[i] == Answers(ti, limit, [samples[i]])[0];
    var pi := Poll(Elapse(ti, samples[i].dt), limit, samples[i].present);
    assert TimerAfter(ti, limit, [samples[i]]) == pi.timer;
    assert pi.waiting;
    assert TimerAfter(t, limit, a) == Idle;
    var outsB := Answers(Idle, limit, b);
    assert outsB[j - i - 1] == Answers(t, limit, samples)[j];
    assert AllPresent(b) by {
      forall k | 0 <= k < |b| ensures b[k].present {
        assert b[k] == samples[i + 1 + k];
      }
    }
    DebounceFromIdle(limit, b);
    assert b[1..] == samples[i + 2..j + 1];
  }

  class Junction {
    /** Used only in log messages. */
    const name: string
    /** Milliseconds a vehicle must be seen before it counts as waiting. */
    const waitLimit: nat
    const signal: TLSignal
    const timer: Timer

    ghost predicate Valid()
      reads this, signal, timer
    {
      signal.Valid() && Disciplined(timer.State())
    }

    /** A new junction shows red and its timer is stopped at 0. */
    constructor (name: string, waitLimit: nat)
      ensures Valid() && fresh(signal) && fresh(timer)
      ensures this.name == name && this.waitLimit == waitLimit
      ensures !signal.isGreen && timer.State() == Idle
    {
      this.name := name;
      this.waitLimit := waitLimit;
      signal := new TLSignal();
      timer := new Timer();
    }

    method IsGreen() returns (g: bool)
      requires Valid()
      ensures g == signal.isGreen && g == signal.greenLamp && g != signal.redLamp
    {
      g := signal.isGreen;
    }

    /**
     * Polls the debounce timer with the sensor's answer `present`. Only the
     * timer changes; the signal is left as it is.
     */
    method IsVehicleWaiting(present: bool) returns (waiting: bool)
      requires Valid()
      modifies timer
      ensures Valid()
      ensures PollResult(waiting, timer.State()) == Poll(old(timer.State()), waitLimit, present)
    {
      if present {
        var e := timer.Read();
        if e == 0 {
          timer.Start();
          waiting := false;
        } else {
          e := timer.Read();
          if e > waitLimit {
            timer.Stop();
            timer.Reset();
            waiting := true;
          } else {
            waiting := false;
          }
        }
      } else {
        timer.Stop();
        timer.Reset();
        waiting := false;
      }
    }

    /** Shows red; the timer is left as it is. */
    method ChangeRed()
      requires Valid()
      modifies signal
      ensures Valid() && !signal.isGreen
    {
      signal.TurnRed();
    }

    /** Shows green; the timer is left as it is. */
    method ChangeGreen()
      requires Valid()
      modifies signal
      ensures Valid() && signal.isGreen
    {
      signal.TurnGreen();
    }
  }
}
