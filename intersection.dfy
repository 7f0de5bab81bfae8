/**
 * The two-junction intersection and one iteration of the `while(1)` loop
 * of `main` (main.cpp:206-271). Each iteration polls exactly one junction,
 * and only a red one: junction two when it is red, otherwise junction one
 * when it is red. If the polled junction has a vehicle waiting, the other
 * junction is turned red, the all-red interval is held (`wait(2)`), and
 * the polled junction is turned green. If both signals are green, junction
 * one is set green ("default Junction One to Green").
 */
module Intersections {
  import opened Timers
  import opened Junctions

  /** Wait limits of the two junctions, in milliseconds (main.cpp:216, 227). */
  const J1WaitLimit: nat := 2000
  const J2WaitLimit: nat := 5000

  datatype Id = One | Two

  function Other(k: Id): Id {
    if k == One then Two else One
  }

  /** The signal changes of one iteration, in the order the loop makes them. */
  datatype Action = TurnRed(k: Id) | AllRedHold | TurnGreen(k: Id)

  /** What the two signals show. */
  datatype Lights = Lights(green1: bool, green2: bool)

  /** The whole state the loop acts on: both signals and both debounce timers. */
  datatype Snapshot = Snapshot(green1: bool, green2: bool, timer1: TimerState, timer2: TimerState)

  /** Which branch of the loop body a state takes. */
  datatype Branch = PollTwo | PollOne | DefaultOne

  /** After construction both junctions show red and both timers are stopped at 0. */
  const Initial := Snapshot(false, false, Idle, Idle)

  function LightsOf(s: Snapshot): Lights {
    Lights(s.green1, s.green2)
  }

  predicate Exclusive(l: Lights) {
    !(l.green1 && l.green2)
  }

  function Apply(l: Lights, a: Action): Lights {
    match a
    case TurnRed(k) => if k == One then l.(green1 := false) else l.(green2 := false)
    case AllRedHold => l
    case TurnGreen(k) => if k == One then l.(green1 := true) else l.(green2 := true)
  }

  /** The lights after the given signal changes. */
  function Replay(l: Lights, acts: seq<Action>): Lights
    decreases |acts|
  {
    if acts == [] then l else Replay(Apply(l, acts[0]), acts[1..])
  }

  function BranchOf(s: Snapshot): Branch {
    if !s.green2 then PollTwo else if !s.green1 then PollOne else DefaultOne
  }

  /** `dt` milliseconds pass before the iteration; running timers count them. */
  function ElapseBoth(s: Snapshot, dt: nat): Snapshot {
    s.(timer1 := Elapse(s.timer1, dt), timer2 := Elapse(s.timer2, dt))
  }

  /** The loop body on state `s`; `present` is the polled junction's sensor answer. */
  function Decide(s: Snapshot, present: bool): (r: Snapshot)
    ensures BranchOf(s) == PollTwo ==>
      var p := Poll(s.timer2, J2WaitLimit, present);
      r.timer1 == s.timer1 && r.timer2 == p.timer
      && (r.green2 <==> p.waiting)
      && (if p.waiting then !r.green1 else r.green1 == s.green1)
    ensures BranchOf(s) == PollOne ==>
      var p := Poll(s.timer1, J1WaitLimit, present);
      r.timer2 == s.timer2 && r.timer1 == p.timer
      && (r.green1 <==> p.waiting)
      && (if p.waiting then !r.green2 else r.green2 == s.green2)
    ensures BranchOf(s) == DefaultOne ==> r == s
  {
    match BranchOf(s)
    case PollTwo =>
      var p := Poll(s.timer2, J2WaitLimit, present);
      if p.waiting then Snapshot(false, true, s.timer1, p.timer) else s.(timer2 := p.timer)
    case PollOne =>
      var p := Poll(s.timer1, J1WaitLimit, present);
      if p.waiting then Snapshot(true, false, p.timer, s.timer2) else s.(timer1 := p.timer)
    case DefaultOne =>
      s.(green1 := true)
  }

  /** The signal changes the loop body makes on state `s`. */
  function Actions(s: Snapshot, present: bool): (r: seq<Action>)
    ensures r == [] || |r| == 3 || r == [TurnGreen(One)]
    ensures r == [TurnGreen(One)] <==> BranchOf(s) == DefaultOne
    ensures |r| == 3 ==>
      r[2].TurnGreen? && r[0] == TurnRed(Other(r[2].k)) && r[1] == AllRedHold
      && r[2].k == (if BranchOf(s) == PollTwo then Two else One)
  {
    match BranchOf(s)
    case PollTwo =>
      if Poll(s.timer2, J2WaitLimit, present).waiting then [TurnRed(One), AllRedHold, TurnGreen(Two)] else []
    case PollOne =>
      if Poll(s.timer1, J1WaitLimit, present).waiting then [TurnRed(Two), AllRedHold, TurnGreen(One)] else []
    case DefaultOne =>
      [TurnGreen(One)]
  }

  /** One iteration, `dt` milliseconds after the previous one. */
  function Next(s: Snapshot, dt: nat, present: bool): Snapshot {
    Decide(ElapseBoth(s, dt), present)
  }

  function StepActions(s: Snapshot, dt: nat, present: bool): seq<Action> {
    Actions(ElapseBoth(s, dt), present)
  }

  /**
   * The invariant of the loop: never both green, both timers keep the
   * stop-then-reset discipline, and the junction the next iteration will
   * not poll has its timer stopped at 0 (so at most one timer runs).
   */
  predicate Inv(s: Snapshot) {
    Exclusive(LightsOf(s))
    && Disciplined(s.timer1) && Disciplined(s.timer2)
    && (!s.green2 ==> s.timer1 == Idle)
    && (s.green2 ==> s.timer2 == Idle)
  }

  /** The input of one iteration. */
  datatype Input = Input(dt: nat, present: bool)

  function Run(s: Snapshot, inputs: seq<Input>): Snapshot
    decreases |inputs|
  {
    if inputs == [] then s else Run(Next(s, inputs[0].dt, inputs[0].present), inputs[1..])
  }

  function RunActions(s: Snapshot, inputs: seq<Input>): seq<Action>
    decreases |inputs|
  {
    if inputs == [] then []
    else StepActions(s, inputs[0].dt, inputs[0].present) + RunActions(Next(s, inputs[0].dt, inputs[0].present), inputs[1..])
  }

  /** The history never shows both signals green, at any point. */
  predicate SafeHistory(l: Lights, acts: seq<Action>) {
    forall k :: 0 <= k <= |acts| ==> Exclusive(Replay(l, acts[..k]))
  }

  lemma InitialInv()
    ensures Inv(Initial) && BranchOf(Initial) == PollTwo
  {
  }

  /** Every iteration keeps the invariant. */
  lemma StepKeepsInv(s: Snapshot, dt: nat, present: bool)
    requires Inv(s)
    ensures Inv(Next(s, dt, present))
  {
  }

  /** The signal changes of an iteration account for its new lights. */
  lemma StepActionsExplainLights(s: Snapshot, dt: nat, present: bool)
    ensures Replay(LightsOf(s), StepActions(s, dt, present)) == LightsOf(Next(s, dt, present))
  {
    var acts := StepActions(s, dt, present);
    if acts != [] {
      ReplayPrefixes(LightsOf(s), acts);
    }
  }

  /** Replaying a change list of one or three changes, prefix by prefix. */
  lemma ReplayPrefixes(l: Lights, acts: seq<Action>)
    requires |acts| == 1 || |acts| == 3
    ensures Replay(l, acts[..0]) == l
    ensures Replay(l, acts[..1]) == Apply(l, acts[0])
    ensures |acts| == 1 ==> Replay(l, acts) == Apply(l, acts[0])
    ensures |acts| == 3 ==> Replay(l, acts[..2]) == Apply(Apply(l, acts[0]), acts[1])
    ensures |acts| == 3 ==> Replay(l, acts) == Apply(Apply(Apply(l, acts[0]), acts[1]), acts[2])
  {
    assert acts[..0] == [];
    ReplayOne(l, acts[..1]);
    if |acts| == 3 {
      var l1 := Apply(l, acts[0]);
      assert acts[..2][1..] == acts[1..2];
      ReplayOne(l1, acts[1..2]);
      ReplayOne(Apply(l1, acts[1]), acts[2..]);
      assert acts[1..][1..] == acts[2..];
    } else {
      ReplayOne(l, acts);
    }
  }

  lemma ReplayOne(l: Lights, acts: seq<Action>)
    requires |acts| == 1
    ensures Replay(l, acts) == Apply(l, acts[0])
  {
    assert acts[1..] == [];
  }

  /**
   * What one iteration does to the logged history: the log still explains
   * the lights, and from a safe state it stays safe.
   */
  lemma StepExtendsHistory(log: seq<Action>, s: Snapshot, dt: nat, present: bool)
    requires Replay(LightsOf(Initial), log) == LightsOf(s)
    ensures Replay(LightsOf(Initial), log + StepActions(s, dt, present)) == LightsOf(Next(s, dt, present))
    ensures Inv(s) && SafeHistory(LightsOf(Initial), log) ==>
      Inv(Next(s, dt, present)) && SafeHistory(LightsOf(Initial), log + StepActions(s, dt, present))
  {
    var acts := StepActions(s, dt, present);
    StepActionsExplainLights(s, dt, present);
    ReplayAppend(LightsOf(Initial), log, acts);
    if Inv(s) && SafeHistory(LightsOf(Initial), log) {
      StepKeepsInv(s, dt, present);
      StepTransitionsSafe(s, dt, present);
      SafeHistoryAppend(LightsOf(Initial), log, acts);
    }
  }

  /**
   * Within an iteration from an invariant state: both signals are never
   * green at once, and every change to green comes right after the
   * all-red hold, which comes right after the other junction turned red,
   * with both signals red at that point.
   */
  lemma StepTransitionsSafe(s: Snapshot, dt: nat, present: bool)
    requires Inv(s)
    ensures SafeHistory(LightsOf(s), StepActions(s, dt, present))
    ensures forall i :: 0 <= i < |StepActions(s, dt, present)| && StepActions(s, dt, present)[i].TurnGreen? ==>
      var acts := StepActions(s, dt, present);
      2 <= i && acts[i - 1] == AllRedHold && acts[i - 2] == TurnRed(Other(acts[i].k))
      && Replay(LightsOf(s), acts[..i]) == Lights(false, false)
  {
    var s' := ElapseBoth(s, dt);
    var acts := StepActions(s, dt, present);
    var l := LightsOf(s);
    assert LightsOf(s') == l;
    if acts != [] {
      assert |acts| == 3;
      ReplayPrefixes(l, acts);
      assert acts[..3] == acts;
    } else {
      assert acts[..0] == [];
    }
  }

  /** Under the invariant the "default Junction One to Green" branch is never taken. */
  lemma DefaultBranchUnreachable(s: Snapshot, dt: nat)
    requires Inv(s)
    ensures BranchOf(ElapseBoth(s, dt)) != DefaultOne
  {
  }

  /**
   * Only a red junction is polled: under the invariant the green junction's
   * timer is the same after the iteration as before it.
   */
  lemma GreenJunctionUntouched(s: Snapshot, dt: nat, present: bool)
    requires Inv(s)
    ensures s.green1 ==> Next(s, dt, present).timer1 == s.timer1
    ensures s.green2 ==> Next(s, dt, present).timer2 == s.timer2
  {
  }

  /** The "default Junction One to Green" branch does not end a both-green state. */
  lemma DefaultBranchKeepsBothGreen(s: Snapshot, dt: nat, present: bool)
    requires s.green1 && s.green2
    ensures !Exclusive(LightsOf(Next(s, dt, present)))
    ensures StepActions(s, dt, present) == [TurnGreen(One)]
  {
  }

  lemma {:induction false} ReplayAppend(l: Lights, a: seq<Action>, b: seq<Action>)
    ensures Replay(l, a + b) == Replay(Replay(l, a), b)
    decreases |a|
  {
    if a != [] {
      assert (a + b)[0] == a[0];
      assert (a + b)[1..] == a[1..] + b;
      ReplayAppend(Apply(l, a[0]), a[1..], b);
    } else {
      assert a + b == b;
    }
  }

  /** Any number of iterations keeps the invariant. */
  lemma {:induction false} RunKeepsInv(s: Snapshot, inputs: seq<Input>)
    requires Inv(s)
    ensures Inv(Run(s, inputs))
    decreases |inputs|
  {
    if inputs != [] {
      StepKeepsInv(s, inputs[0].dt, inputs[0].present);
      RunKeepsInv(Next(s, inputs[0].dt, inputs[0].present), inputs[1..]);
    }
  }

  /** The signal changes of any number of iterations account for the final lights. */
  lemma {:induction false} RunActionsExplainLights(s: Snapshot, inputs: seq<Input>)
    ensures Replay(LightsOf(s), RunActions(s, inputs)) == LightsOf(Run(s, inputs))
    decreases |inputs|
  {
    if inputs != [] {
      var i := inputs[0];
      var s' := Next(s, i.dt, i.present);
      StepActionsExplainLights(s, i.dt, i.present);
      ReplayAppend(LightsOf(s), StepActions(s, i.dt, i.present), RunActions(s', inputs[1..]));
      RunActionsExplainLights(s', inputs[1..]);
    }
  }

  /** Appending a safe step history to a safe history from where it ended stays safe. */
  lemma SafeHistoryAppend(l: Lights, a: seq<Action>, b: seq<Action>)
    requires SafeHistory(l, a)
    requires SafeHistory(Replay(l, a), b)
    ensures SafeHistory(l, a + b)
  {
    forall k | 0 <= k <= |a + b| ensures Exclusive(Replay(l, (a + b)[..k])) {
      if k <= |a| {
        assert (a + b)[..k] == a[..k];
      } else {
        assert (a + b)[..k] == a + b[..k - |a|];
        ReplayAppend(l, a, b[..k - |a|]);
      }
    }
  }

  /**
   * Mutual exclusion over the whole run: from an invariant state, no point
   * of any sequence of iterations ever shows both signals green.
   */
  lemma {:induction false} RunHistorySafe(s: Snapshot, inputs: seq<Input>)
    requires Inv(s)
    ensures SafeHistory(LightsOf(s), RunActions(s, inputs))
    decreases |inputs|
  {
    if inputs == [] {
      assert RunActions(s, inputs)[..0] == [];
    } else {
      var i := inputs[0];
      var s' := Next(s, i.dt, i.present);
      var a := StepActions(s, i.dt, i.present);
      StepTransitionsSafe(s, i.dt, i.present);
      StepActionsExplainLights(s, i.dt, i.present);
      StepKeepsInv(s, i.dt, i.present);
      RunHistorySafe(s', inputs[1..]);
      SafeHistoryAppend(LightsOf(s), a, RunActions(s', inputs[1..]));
    }
  }

  class Intersection {
    const junctionOne: Junction
    const junctionTwo: Junction
    /** Every signal change made so far, with the all-red holds between them. */
    ghost var log: seq<Action>

    ghost function Snap(): Snapshot
      reads this, junctionOne, junctionTwo, junctionOne.signal, junctionTwo.signal,
        junctionOne.timer, junctionTwo.timer
    {
      Snapshot(junctionOne.signal.isGreen, junctionTwo.signal.isGreen,
        junctionOne.timer.State(), junctionTwo.timer.State())
    }

    /**
     * Two separate junctions with the wait limits of `main`, whose logged
     * signal changes lead from the initial lights to the current ones.
     */
    ghost predicate Valid()
      reads this, junctionOne, junctionTwo, junctionOne.signal, junctionTwo.signal,
        junctionOne.timer, junctionTwo.timer
    {
      junctionOne != junctionTwo
      && junctionOne.signal != junctionTwo.signal && junctionOne.timer != junctionTwo.timer
      && junctionOne.Valid() && junctionTwo.Valid()
      && junctionOne.waitLimit == J1WaitLimit && junctionTwo.waitLimit == J2WaitLimit
      && Replay(LightsOf(Initial), log) == LightsOf(Snap())
    }

    /**
     * The loop invariant holds of the current state and the logged signal
     * changes have never shown both signals green.
     */
    ghost predicate Safe()
      reads this, junctionOne, junctionTwo, junctionOne.signal, junctionTwo.signal,
        junctionOne.timer, junctionTwo.timer
    {
      Inv(Snap()) && SafeHistory(LightsOf(Initial), log)
    }

    /** The two junctions of `main` (main.cpp:214-238), both red, timers stopped. */
    constructor ()
      ensures Valid() && Safe() && Snap() == Initial && log == []
      ensures fresh(junctionOne) && fresh(junctionTwo)
      ensures fresh(junctionOne.signal) && fresh(junctionOne.timer)
      ensures fresh(junctionTwo.signal) && fresh(junctionTwo.timer)
      ensures junctionOne.name == "Junction 1" && junctionTwo.name == "Junction 2"
    {
      junctionOne := new Junction("Junction 1", J1WaitLimit);
      junctionTwo := new Junction("Junction 2", J2WaitLimit);
      log := [];
      new;
      assert log[..0] == [];
    }

    /**
     * One iteration of the control loop, `dt` milliseconds after the last;
     * `present` is the sensor answer of the junction it polls.
     */
    method Step(dt: nat, present: bool)
      requires Valid()
      modifies this`log, junctionOne.signal, junctionOne.timer, junctionTwo.signal, junctionTwo.timer
      ensures Valid() && (old(Safe()) ==> Safe())
      ensures Snap() == Next(old(Snap()), dt, present)
      ensures log == old(log) + StepActions(old(Snap()), dt, present)
    {
      ghost var s0 := Snap();
      junctionOne.timer.Tick(dt);
      junctionTwo.timer.Tick(dt);
      ghost var s1 := Snap();
      assert s1 == ElapseBoth(s0, dt);
      var twoGreen := junctionTwo.IsGreen();
      if !twoGreen {
        var waiting := junctionTwo.IsVehicleWaiting(present);
        if waiting {
          junctionOne.ChangeRed();
          log := log + [TurnRed(One)];
          // wait(2): the all-red interval
          log := log + [AllRedHold];
          junctionTwo.ChangeGreen();
          log := log + [TurnGreen(Two)];
        }
        assert Snap() == Decide(s1, present) && log == old(log) + Actions(s1, present);
      } else {
        var oneGreen := junctionOne.IsGreen();
        if !oneGreen {
          var waiting := junctionOne.IsVehicleWaiting(present);
          if waiting {
            junctionTwo.ChangeRed();
            log := log + [TurnRed(Two)];
            // wait(2): the all-red interval
            log := log + [AllRedHold];
            junctionOne.ChangeGreen();
            log := log + [TurnGreen(One)];
          }
          assert Snap() == Decide(s1, present) && log == old(log) + Actions(s1, present);
        } else {
          junctionOne.ChangeGreen();
          log := log + [TurnGreen(One)];
          assert Snap() == Decide(s1, present) && log == old(log) + Actions(s1, present);
        }
      }
      StepExtendsHistory(old(log), s0, dt, present);
    }
  }
}
