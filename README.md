# Two-junction traffic-light controller

This project models the controller in `main.cpp` of a small mbed traffic-light
system. Two junctions share one intersection. Each junction has a two-lamp
signal (`TL_Signal`), an infrared presence sensor and a debounce timer
(`Junction`). The `while(1)` loop of `main` polls one red junction per
iteration. When that junction has had a vehicle waiting long enough, the loop
turns the other junction red, holds an all-red interval (`wait(2)`) and turns
the polled junction green.

Files, one module per component:

- `timer.dfy` (`Timers`): the platform stopwatch each junction owns. It is a class with start, stop, reset and read. Its abstract value `TimerState(running, elapsed)` is in whole milliseconds, and `Elapse` is real time passing.
- `signal.dfy` (`Signals`): `TLSignal`, which holds the two lamp outputs and the `isGreen` flag.
- `junction.dfy` (`Junctions`): `Junction`, plus `Poll`, the debounce decision of `isVehicleWaiting` as a function. It also holds lemmas about runs of polls (`Answers`).
- `intersection.dfy` (`Intersections`): the pure model of one loop iteration (`Next`, and `StepActions`, its signal changes in order). It holds the loop invariant `Inv` and its lemmas, and the class `Intersection`, whose `Step` method runs one iteration on the two `Junction` objects.

The sensor's answer is the boolean `present` given to the polled junction.
Time is the `dt` milliseconds given to each iteration; it is added to every
running timer before the iteration polls. A timer that reads 0 counts as not
started, as in the code. The all-red `wait(2)` appears only as the
`AllRedHold` entry in the ghost log of signal changes.

The invariant `Inv` has three parts. The two signals are never both green.
Every stopped timer reads 0. The junction that the next iteration will not
poll has its timer stopped at 0. From that invariant the lemmas show four
things. No point of any run shows both signals green (`RunHistorySafe`). Every
change to green comes right after the all-red hold, which comes right after
the other junction turned red. The fallback branch is never taken. The green
junction's timer is never touched.

Both junctions start red, and junction two is polled first (`InitialInv`).
The all-red interval is a fixed blocking delay, not a timer. A confirmation
only needs the wait limit to have passed; there is no minimum time on green.

## Model

| member | source | states |
|---|---|---|
| `Signals.TLSignal.constructor` | main.cpp:104-112 | a new signal shows red: red lamp on, green lamp off, `isGreen` false |
| `Signals.TLSignal.TurnGreen` | main.cpp:114-118 | from any prior state: green lamp on, red lamp off, `isGreen` true, so turning green twice is the same as once |
| `Signals.TLSignal.TurnRed` | main.cpp:119-123 | from any prior state: red lamp on, green lamp off, `isGreen` false, so idempotent |
| `Junctions.Junction.constructor` | main.cpp:153-158 | a new junction keeps its name and wait limit, shows red, and its timer is stopped at 0 |
| `Junctions.Junction.IsGreen` | main.cpp:161-163 | reports the signal's flag, which equals the green lamp and is the opposite of the red lamp |
| `Junctions.Junction.IsVehicleWaiting` | main.cpp:165-195 | changes only the timer, never the signal; its answer and new timer are exactly `Poll` of the old timer |
| `Junctions.Junction.ChangeRed` | main.cpp:196-198 | the junction shows red; only the signal changes and the timer is left alone |
| `Junctions.Junction.ChangeGreen` | main.cpp:199-201 | the junction shows green; only the signal changes and the timer is left alone |
| `Junctions.Poll` | main.cpp:165-195 | waiting exactly when presence is reported and elapsed time is above the limit. First detection (timer reads 0) starts the timer and reports nothing. Inside the window the timer is left unchanged. A confirmation stops and resets the timer. Absence stops and resets it. The "stopped reads 0" discipline is kept |
| `Junctions.ContinuousPresence` | main.cpp:174-187 | with the timer running at `e` within the limit and a vehicle seen on every poll: some poll confirms exactly when `e` plus the time that passes exceeds the limit |
| `Junctions.DebounceFromIdle` | main.cpp:169-187 | from a stopped timer with a vehicle seen on every poll: the first poll never confirms, and some poll confirms exactly when the time after the first poll exceeds the wait limit |
| `Junctions.ConfirmationSpacing` | main.cpp:179-184 | for a vehicle seen throughout, two confirmations are separated by more than the wait limit after the poll that restarts the timer, so each confirmation starts a fresh debounce window |
| `Junctions.AnswersSplit` | main.cpp:165-195 | polling a run of samples in two parts gives the same answers and final timer as polling it in one |
| `Intersections.Intersection.constructor` | main.cpp:214-238 | two distinct junctions with wait limits 2000 ms and 5000 ms, both red, timers stopped; the log is empty and the invariant holds |
| `Intersections.Decide` | main.cpp:240-266 | the loop body: junction two is polled when red, else junction one when red. Only the polled junction's timer changes, by `Poll`. The polled junction turns green exactly when `Poll` confirms, and the other junction is then red. Otherwise the lights stay as they are, except that in the both-green state junction one is set green |
| `Intersections.Actions` | main.cpp:240-266 | the signal changes of the loop body, in call order: none, or the other junction turned red, then the all-red hold, then the polled junction turned green; in the both-green state, only junction one turned green |
| `Intersections.Intersection.Step` | main.cpp:240-266 | one loop iteration. The new state is `Next` of the old one, and the log grows by exactly that iteration's signal changes. A safe state stays safe: invariant plus a history that never showed both green |
| `Intersections.InitialInv` | main.cpp:237-245 | the state after construction satisfies the invariant, and its first iteration polls junction two |
| `Intersections.StepKeepsInv` | main.cpp:240-266 | every iteration keeps the invariant: not both green, stopped timers read 0, and the junction not polled next has an idle timer |
| `Intersections.StepActionsExplainLights` | main.cpp:240-266 | replaying an iteration's signal changes on the old lights gives the new lights |
| `Intersections.StepTransitionsSafe` | main.cpp:245-262 | within an iteration from an invariant state, no point shows both green. Each turn to green comes right after the all-red hold, which comes right after the other junction turned red, and both signals are red at that point |
| `Intersections.DefaultBranchUnreachable` | main.cpp:263-266 | under the invariant the "default Junction One to Green" branch is never taken |
| `Intersections.DefaultBranchKeepsBothGreen` | main.cpp:263-266 | if that branch were taken (both green), it would only re-issue green to junction one and leave both signals green |
| `Intersections.GreenJunctionUntouched` | main.cpp:242-262 | under the invariant an iteration does not change the green junction's timer: only the red junction is polled |
| `Intersections.StepExtendsHistory` | main.cpp:240-266 | an iteration appended to a log that explains the lights still explains them, and from a safe state the longer log is still safe |
| `Intersections.RunKeepsInv` | main.cpp:240-271 | any number of iterations from an invariant state keeps the invariant |
| `Intersections.RunActionsExplainLights` | main.cpp:240-271 | the signal changes of any run, replayed, give the run's final lights |
| `Intersections.RunHistorySafe` | main.cpp:240-271 | mutual exclusion over a whole run: from an invariant state, no prefix of the run's signal changes shows both signals green |

## Left out

- Sensor internals (`TL_Sensor`, main.cpp:29-91): they read analog infrared values with `wait(0.1)` delays and compare a floating-point value against the sensitivity. Each poll gets the sensor's boolean answer `present` instead. The indicator LED is an output only.
- Pin declarations and the `JunctionParams` struct (main.cpp:6-26, 126-142) are hardware wiring. Only each junction's name and wait limit are kept.
- Timer resolution: the platform timer reads floating-point seconds, and the model reads whole milliseconds. A timer started less than 1 ms before a poll reads 0 here and counts as not started. Starting a running timer changes nothing, so the outcome is the same.
- Time inside an iteration: the sensor's reading delays and `wait(2)` are not modelled as time. Time passing is the `dt` given to the next iteration. After a handoff both timers are stopped (the `Inv` lemmas), so `wait(2)` could not have moved either timer. `wait(2)` is the `AllRedHold` entry of the ghost log.
- `printf` logging and the junction name have no effect on state.
- The `checkForVehicle` calls after the branch (main.cpp:268-269) only drive the indicator LEDs.
- The endless `while(1)` is one `Step` method, plus `Run` for finite sequences of iterations. Endless behaviour is covered by the invariant holding after every finite prefix.
