# FLL robot motion primitives and mission dispatch, in Dafny

This project models the control core of `v1.py`, a Pybricks program for a
LEGO SPIKE Prime competition robot. The robot has a left drive motor
(port A), a right drive motor (port E) and an accessory motor (port B).

The program offers seven motion primitives. Six are loops that read the
sensors on every pass; `drift` sets its wheel speeds once and then runs
open-loop on a timer:

- `gyro_straight` and `gyro_straight_accel` drive forward, steering by the
  IMU heading. The `_accel` form takes its speed from a trapezoidal profile.
- `gyro_back` and `gyro_back_accel` are their backward counterparts.
- `gyro_turn` turns on the spot.
- `drift` drives an arc on a timer.
- `rotate` drives one motor to an angle.

Inside every loop, `check_stop` watches the hub's CENTER button. When it is
pressed, `check_stop` brakes all three motors and raises `StopMission`. A
menu runs the selected mission inside `try`. It tells `StopMission` (the
operator stopped the mission) apart from any other exception (a failure).

## How the model is built

- **Speed** (`speed.dfy`) holds `map_value` and `get_trapezoid_speed` as
  functions over real numbers. Python's `ZeroDivisionError` is a `Result`
  constructor.
- **Hardware** (`hardware.dfy`) defines the motors and the recorded
  hardware calls. A motor's state is the last command it received. It also
  defines the per-tick sensor `Sample` and `check_stop`'s brake sequence.
- **Commands** (`commands.dfy`) holds the per-tick control laws as pure
  functions: heading correction, heading-error wrap, turn speed, drift
  speeds, the drift timer, and the rotate direction, stop test and speed.
- **Motion** (`motion.dfy`) runs a primitive as a tick loop over a finite
  sensor history, one `Sample` per loop iteration. Each tick either issues
  commands and continues, or leaves the loop with one of three outcomes:
  - normal exit (the primitive's exit commands);
  - `StopMission` (the three brakes);
  - another exception (no further calls).

  The result records the outcome, the number of commanding ticks, and the
  log of hardware calls. `Unfinished` marks a history that ran out while
  the loop was still running.
- **Primitives** (`primitives.dfy`) states, for each primitive, which
  readings let the loop continue. It also says which commands each tick
  issues, where they sit in the log, and exactly which reading ends the
  run and how.
- **Mission** (`mission.dfy`) runs missions as sequences of calls. The
  sequencing (`Sequence`) takes the run of a single call as a parameter, so
  its laws hold whatever the primitives do. Each call runs on its share of
  the sensor history (`Share`): the samples left after the earlier calls
  used theirs. `RunMission` instantiates `Sequence`
  with the primitives of Motion. It also models the menu's `try`/`except`
  dispatch and its LEFT/RIGHT selection arithmetic.

The heading error of `gyro_turn` is wrapped by subtracting or adding 360
once. The error therefore lands in [-180, 180], both ends included, and
only for a raw error in [-540, 540]; this is not the half-open (-180, 180]
of a full heading wrap. The model follows the code (`Commands.WrapError`).

## Model

| member | source | states |
|---|---|---|
| Speed.MapValue | v1.py:51-52 | fails with ZeroDivisionError exactly when in_min == in_max; otherwise the result lies on the line through (in_min, out_min) and (in_max, out_max) |
| Speed.MapValueEnds | v1.py:51-52 | the interpolation maps in_min to out_min and in_max to out_max |
| Speed.MapValueRoundTrip | v1.py:51-52 | mapping a value and then mapping it back with the ranges swapped returns the original value |
| Speed.MapValueBetween | v1.py:51-52 | a value between the input ends maps to a value between the output ends |
| Speed.TrapezoidSpeed | v1.py:55-61 | fails exactly when the ramp it uses has zero length; for progress within [0, total] it succeeds, and the speed lies between the smallest and largest of min, max and end speed |
| Speed.TrapezoidStart | v1.py:56-57 | with a positive ramp-up the profile starts at min_speed |
| Speed.TrapezoidCruise | v1.py:60-61 | between the end of the ramp-up and the start of the ramp-down the speed is max_speed |
| Speed.TrapezoidEnd | v1.py:58-59 | with a positive ramp-down (and the ramp-up over), the profile reaches end_speed at the distance |
| Speed.TrapezoidRampUpMonotone | v1.py:56-57 | with min_speed <= max_speed the ramp-up never slows down |
| Speed.TrapezoidRampDownMonotone | v1.py:58-59 | with end_speed <= max_speed the ramp-down never speeds up |
| Speed.TrapezoidExample | v1.py:55-61 | with the default profile over 1000 degrees: 100 at the start, 275 at 50 degrees, 800 while cruising, 100 at the end |
| Commands.StraightCommand | v1.py:71-74 | the two wheel speeds average the commanded speed and differ by twice gain times heading |
| Commands.StraightExample | v1.py:71-74 | speed 300, gain 3 and heading 10 give wheel speeds 330 and 270 |
| Commands.BackCommand | v1.py:108-111 | the wheel speeds average minus the speed and differ by twice gain times heading |
| Commands.BackMirrorsStraight | v1.py:108-111 | the backward command at heading h is the negated forward command at heading -h |
| Commands.WrapError | v1.py:145-150 | the wrapped error differs from the raw error by 0 or ±360; a raw error in [-540, 540] lands in [-180, 180]; an error already in [-180, 180] is unchanged |
| Commands.WrapIdempotent | v1.py:145-150 | wrapping an already wrapped error changes nothing |
| Commands.TurnSpeed | v1.py:155-160 | the turn speed lies in [35, 300]; it is 300 beyond 30 degrees of error and max(35, 2.5·\|error\|) otherwise |
| Commands.TurnSpeedMonotone | v1.py:155-160 | a larger error never gives a slower turn |
| Commands.TurnSpeedLimits | v1.py:155-160 | the speed is 35 exactly when \|error\| <= 14, and 300 exactly when \|error\| > 30 |
| Commands.TurnCommand | v1.py:162-167 | the wheels spin at opposite speeds; a positive error runs the right wheel forward at the turn speed, any other error runs the left wheel forward |
| Commands.DriftSpeeds | v1.py:177-184 | the outer wheel runs at ±speed (negative when backward) and the inner wheel at that speed scaled by 1 - \|turn_rate\| |
| Commands.DriftBackwardNegates | v1.py:177-184 | backward drift is forward drift with both speeds negated |
| Commands.DriftMirror | v1.py:179-184 | negating the turn rate swaps the two wheel speeds |
| Commands.DriftTicks | v1.py:190-194 | the timer loop waits the least number of 10 ms steps whose total reaches the duration, and none for a non-positive duration |
| Commands.RotateDirection | v1.py:203 | the direction is +1 exactly for a positive target and -1 otherwise |
| Commands.RotateSpeed | v1.py:214-219 | a zero target gives min_speed; while the angle's magnitude is at most the target's, the speed lies between min_speed and max_speed |
| Commands.RotateVelocity | v1.py:221 | the commanded speed is the rotate speed for a positive target and its negation otherwise |
| Commands.Reached | v1.py:210-211 | the target counts as reached exactly when the angle is at or above a positive target, or at or below any other target |
| Commands.RotateSpeedIsMapValue | v1.py:214-219 | for a non-zero target the rotate speed is the map_value interpolation of the distance covered onto [min_speed, max_speed] |
| Hardware.AbortLeavesAllBraked | v1.py:35-39 | whatever came before, a log ending in check_stop's three brakes leaves all three motors braked |
| Motion.Loop | v1.py:68-75 | the loop runs exactly the ticks before the first one that leaves it; that tick decides the outcome; the log is those ticks' commands followed by the closing calls |
| Motion.Step | v1.py:64-224 | a tick that commands and continues found CENTER released and issues two drive commands (none for drift, one for rotate); only the two profiled drives can fail with another exception |
| Motion.ExecuteRuns | v1.py:64-224 | a primitive run makes its setup calls before anything else, commands on at most one tick per sample, and is unfinished exactly when every sample let the loop go on |
| Motion.StopsAt | v1.py:68-75 | a run stops at tick n exactly when every earlier tick continues and tick n (if any) does not |
| Motion.PressedTickNeverIssues | v1.py:33-44 | a tick that finds CENTER pressed never issues commands; in the turn and rotate loops it always aborts |
| Motion.AbortWithinOneTick | v1.py:33-44 | a run never continues past a tick at which CENTER is pressed |
| Motion.AbortBrakesAll | v1.py:35-44 | after an abort the log ends with the three brakes, so all three motors end braked |
| Motion.SuccessEndsWithExit | v1.py:77-78 | after a normal loop exit the log ends with the primitive's exit commands |
| Primitives.GyroStraightTick | v1.py:68-75 | a commanding tick of gyro_straight had the angle short of the distance and CENTER released, and drove the wheels with that tick's heading correction, right after the two resets and two commands per earlier tick |
| Primitives.GyroStraightEnds | v1.py:64-78 | gyro_straight succeeds exactly at the first reading at or past the distance, and then ends with both brakes; it aborts exactly at a press before that, and never faults |
| Primitives.GyroBackTick | v1.py:105-112 | a commanding tick of gyro_back had the signed angle above -distance and CENTER released, and drove with the backward law for that tick's heading |
| Primitives.GyroBackEnds | v1.py:101-115 | gyro_back succeeds exactly at the first reading at or below -distance, and then ends with both brakes; it aborts exactly at a press before that, and never faults |
| Primitives.GyroStraightAccelTick | v1.py:86-95 | a commanding tick of gyro_straight_accel had the angle short of the distance, CENTER released and a profile speed without division by zero, and drove with that speed and tick's heading correction |
| Primitives.GyroStraightAccelEnds | v1.py:81-98 | success and abort as for gyro_straight; it faults exactly when the tick's profile call divides by zero, which needs a zero ramp-down and a progress reading past the distance |
| Primitives.GyroStraightAccelSteadyNoFault | v1.py:86-90 | when each progress reading equals its guard reading, gyro_straight_accel never faults |
| Primitives.GyroBackAccelTick | v1.py:123-132 | a commanding tick of gyro_back_accel had the signed angle above -distance, CENTER released and a profile speed without division by zero, and drove backward with that speed |
| Primitives.GyroBackAccelEnds | v1.py:118-135 | success and abort as for gyro_back; it faults exactly when the tick's profile call divides by zero |
| Primitives.GyroBackAccelCanFault | v1.py:123-127 | a backward profiled drive with no ramps, whose motor reads 100 degrees forward on a 50-degree run, faults on its first tick and leaves the drive motors running |
| Primitives.GyroTurnTick | v1.py:141-169 | a commanding tick of gyro_turn had CENTER released and the wrapped error outside the accuracy, and issued the turn command for that error, right after the heading reset and two commands per earlier tick |
| Primitives.GyroTurnEnds | v1.py:138-172 | gyro_turn succeeds exactly at the first reading within the accuracy, and then ends by stopping (not braking) both drive motors; it aborts exactly at a press before that, and never faults |
| Primitives.DriftLog | v1.py:176-197 | drift commands the wheels once, before its timer loop, and nothing else until the closing calls |
| Primitives.DriftEnds | v1.py:190-197 | drift succeeds exactly when CENTER stays released for all DriftTicks(duration) timer steps, having then waited exactly that many; an abort comes at a press within those steps; it never faults |
| Primitives.RotateTick | v1.py:205-222 | a commanding tick of rotate had CENTER released and the target not reached, and ran the motor at the signed rotate speed of that reading, right after the angle reset and one command per earlier tick |
| Primitives.RotateEnds | v1.py:200-224 | rotate succeeds exactly at the first reading at or past the target, and then ends by holding the motor; it aborts exactly at a press before that, and never faults |
| Primitives.RotateSpeedOnTheWay | v1.py:210-219 | while the motor is on the target's side of zero and has not reached the target, the rotate speed lies between the two speed limits |
| Mission.Sequence | v1.py:231-251 | running calls in order: the mission succeeds exactly when all calls complete normally; when every aborted call ends with the three brakes, so does an aborted mission |
| Mission.SequenceFollowsCalls | v1.py:231-251 | every call before the `completed`-th completed normally on its share of the samples; if a call did not, the mission takes the outcome of the first such call and its log ends with that call's log |
| Mission.SequenceLog | v1.py:231-251 | a mission's log is the logs of its completed calls in call order, followed by the log of the call that did not complete, if any |
| Mission.ShareIsSuffix | v1.py:231-251 | each call runs on a suffix of the sensor history: the samples left after the earlier calls |
| Mission.ExecuteAbortsBraked | v1.py:35-44 | every aborted primitive run ends with check_stop's three brakes |
| Mission.RunMission | v1.py:231-251 | a mission of primitive calls: the completed calls all completed normally on their shares of the samples; it succeeds exactly when every call did, otherwise it takes the first failing call's outcome; its log is the completed calls' logs in order followed by the failing call's log; an aborted mission ends with the three brakes |
| Mission.LaterCallsNeverRun | v1.py:231-251 | once a call aborts or fails, appending further calls to the mission changes nothing |
| Mission.MissionAbortBrakesAll | v1.py:331-339 | an aborted mission leaves all three motors braked, whatever they did before |
| Mission.Dispatch | v1.py:331-342 | the orange "stopped" signal exactly for StopMission, the failure beep exactly for any other exception, and the success beep exactly for normal completion |
| Mission.OperatorStopMeansBraked | v1.py:335-339 | when the menu shows the operator-stop signal, all three motors are braked |
| Mission.FirstUnfinishedCallDecides | v1.py:331-342 | when call i is the first that does not complete normally, the mission completed exactly i calls, and the menu shows "stopped by operator" exactly when call i aborted and gives the failure beep exactly when it failed otherwise |
| Mission.SuccessBeepIffAllComplete | v1.py:331-334 | the menu gives the success beep exactly when every call of the mission completes normally on its share of the samples |
| Mission.NextMission | v1.py:323-325 | RIGHT yields the index in [0, 8) congruent to current + 1 modulo 8: the next index, and 0 after the last |
| Mission.PreviousMission | v1.py:319-321 | LEFT yields the index in [0, 8) congruent to current - 1 modulo 8: the previous index, and 7 before the first |
| Mission.MenuRoundTrip | v1.py:319-325 | LEFT undoes RIGHT and RIGHT undoes LEFT on every valid index |
| Mission.MenuWraps | v1.py:319-325 | LEFT from the first mission gives the last, and RIGHT from the last gives the first |

## Left out

- Hardware setup (lines 5-21) and the start-up display, light and beep (lines 294-304) are not modelled. They have no effect on the logic modelled here.
- Motor and IMU dynamics are not modelled. The sensor history is an arbitrary input: any sequence of samples.
- `wait(...)` timing is left out. This covers the 10 ms loop waits, the 50 ms settle after `gyro_turn`, and the plain waits between calls in `mission_1`. None of these reads a sensor or calls `check_stop`.
- The busy-wait inside `check_stop` (lines 41-42), which waits until every hub button is released, is not modelled. It issues no motor command. A button that is held forever would make it run forever.
- The menu's button polling loop (lines 306-317) is not modelled, and neither are the display (`show_num`), the light and the speaker. The menu's decisions are modelled as `Mission.Dispatch`, `Mission.NextMission` and `Mission.PreviousMission`.
- The concrete missions (lines 231-286) are not modelled one by one. Any mission is a sequence of `Motion.Call` values, run by `Mission.RunMission`.
- Python floats are modelled as exact reals, so rounding is not modelled. Integer arguments such as `drift`'s duration are modelled as `int`.
- Mission.Dispatch: the only "other exception" a primitive can raise in the model is the profile's ZeroDivisionError. Faults from the hardware layer cannot be seen in this model.
- Motion.Loop: a primitive whose loop never ends (for example a turn that never reaches its accuracy) appears as `Unfinished` on every finite sensor history. The model says nothing about the infinite run itself.
- Motion.Step: `drift`'s timer test (line 191) reads no sensor, but the model gives every tick a sample, the loop-ending one included. So a finishing `drift` uses up one sample that nothing reads: with a non-positive duration it is Unfinished on an empty history, where the code finishes at once, and the next call's share starts one sample later. Sensor histories are arbitrary, so no behaviour is lost.
