/** What each motion primitive of v1.py does over a whole run: which ticks
    issue commands, what those commands are and where they sit in the log,
    and exactly which reading ends the loop and how. */
module Primitives {
  import opened Speed
  import opened Hardware
  import opened Commands
  import opened Motion

  /** The log holds, from position i, the left then the right drive
      command of the wheel pair w. */
  predicate DrivesAt(log: seq<Event>, i: nat, w: Wheels)
  {
    i + 1 < |log| && log[i] == Command(Left, Run(w.left)) && log[i + 1] == Command(Right, Run(w.right))
  }

  /** `gyro_straight`, per tick: each commanding tick found the left
      motor short of the distance and CENTER released, and ran the wheels
      with the forward heading correction of that tick's heading, right
      after the two reset calls and the commands of the ticks before it. */
  lemma GyroStraightTick(distance: real, speed: real, gain: real, trace: seq<Sample>, r: Execution, j: nat)
    requires r == Execute(GyroStraight(distance, speed, gain), trace) && j < r.ticks
    ensures Abs(trace[j].angle) < distance && !trace[j].center
    ensures DrivesAt(r.log, 2 + 2 * j, StraightCommand(speed, gain, trace[j].heading))
  {
    var c := GyroStraight(distance, speed, gain);
    CommandAt(c, trace, j, 0);
    CommandAt(c, trace, j, 1);
  }

  /** `gyro_straight`, its end: the run ends normally, braking both drive
      motors, at the first reading at or past the distance, and aborts at a
      CENTER press before it. It never faults. */
  lemma GyroStraightEnds(distance: real, speed: real, gain: real, trace: seq<Sample>, r: Execution)
    requires r == Execute(GyroStraight(distance, speed, gain), trace)
    ensures r.outcome == Success <==> r.ticks < |trace| && Abs(trace[r.ticks].angle) >= distance
    ensures r.outcome == Abort <==> r.ticks < |trace| && Abs(trace[r.ticks].angle) < distance && trace[r.ticks].center
    ensures r.outcome != Fault
    ensures r.outcome == Success ==> EndsWith(r.log, BrakeDrive)
  {
    var c := GyroStraight(distance, speed, gain);
    Ended(c, trace, r);
    if r.outcome == Success {
      SuccessEndsWithExit(c, trace);
    }
  }

  /** `gyro_back`, per tick: as `gyro_straight`, backward: every commanding
      tick found the signed angle above -distance and CENTER released, and
      steered with the backward law. */
  lemma GyroBackTick(distance: real, speed: real, gain: real, trace: seq<Sample>, r: Execution, j: nat)
    requires r == Execute(GyroBack(distance, speed, gain), trace) && j < r.ticks
    ensures trace[j].angle > -distance && !trace[j].center
    ensures DrivesAt(r.log, 2 + 2 * j, BackCommand(speed, gain, trace[j].heading))
  {
    var c := GyroBack(distance, speed, gain);
    CommandAt(c, trace, j, 0);
    CommandAt(c, trace, j, 1);
  }

  /** `gyro_back`, its end: normal end with both brakes at the first
      reading at or below -distance, abort at a CENTER press before it, and
      never a fault. */
  lemma GyroBackEnds(distance: real, speed: real, gain: real, trace: seq<Sample>, r: Execution)
    requires r == Execute(GyroBack(distance, speed, gain), trace)
    ensures r.outcome == Success <==> r.ticks < |trace| && trace[r.ticks].angle <= -distance
    ensures r.outcome == Abort <==> r.ticks < |trace| && trace[r.ticks].angle > -distance && trace[r.ticks].center
    ensures r.outcome != Fault
    ensures r.outcome == Success ==> EndsWith(r.log, BrakeDrive)
  {
    var c := GyroBack(distance, speed, gain);
    Ended(c, trace, r);
    if r.outcome == Success {
      SuccessEndsWithExit(c, trace);
    }
  }

  /** The speed the profiled loops command at a progress reading (only
      meaningful where the profile does not divide by zero). */
  function ProfileSpeed(s: Sample, distance: real, profile: Profile): real
    requires TrapezoidSpeed(Abs(s.progressAngle), distance, profile).Ok?
  {
    TrapezoidSpeed(Abs(s.progressAngle), distance, profile).value
  }

  /** `gyro_straight_accel`, per tick: as `gyro_straight`, with the speed
      of each tick taken from the trapezoid profile at that tick's progress
      reading, which did not divide by zero. */
  lemma GyroStraightAccelTick(distance: real, profile: Profile, gain: real, trace: seq<Sample>, r: Execution, j: nat)
    requires r == Execute(GyroStraightAccel(distance, profile, gain), trace) && j < r.ticks
    ensures Abs(trace[j].angle) < distance && !trace[j].center
            && TrapezoidSpeed(Abs(trace[j].progressAngle), distance, profile).Ok?
    ensures DrivesAt(r.log, 2 + 2 * j, StraightCommand(ProfileSpeed(trace[j], distance, profile), gain, trace[j].heading))
  {
    var c := GyroStraightAccel(distance, profile, gain);
    CommandAt(c, trace, j, 0);
    CommandAt(c, trace, j, 1);
  }

  /** `gyro_straight_accel`, its end: as `gyro_straight`, except that the
      run faults exactly when the profile divides by zero. That needs a
      zero ramp-down and a progress reading beyond the distance: the guard
      reading was short of it, so the angle must have moved on between the
      two reads of the same tick. */
  lemma GyroStraightAccelEnds(distance: real, profile: Profile, gain: real, trace: seq<Sample>, r: Execution)
    requires r == Execute(GyroStraightAccel(distance, profile, gain), trace)
    ensures r.outcome == Success <==> r.ticks < |trace| && Abs(trace[r.ticks].angle) >= distance
    ensures r.outcome == Abort <==> r.ticks < |trace| && Abs(trace[r.ticks].angle) < distance && trace[r.ticks].center
    ensures r.outcome == Fault <==>
              r.ticks < |trace| && Abs(trace[r.ticks].angle) < distance && !trace[r.ticks].center
              && TrapezoidSpeed(Abs(trace[r.ticks].progressAngle), distance, profile).ZeroDivisionError?
    ensures r.outcome == Fault ==> profile.decel == 0.0 && Abs(trace[r.ticks].progressAngle) > distance
    ensures r.outcome == Success ==> EndsWith(r.log, BrakeDrive)
  {
    var c := GyroStraightAccel(distance, profile, gain);
    Ended(c, trace, r);
    if r.outcome == Success {
      SuccessEndsWithExit(c, trace);
    }
  }

  /** When the progress reading of each tick agrees with its guard reading,
      the forward guard keeps the profile inside the travel range and the
      profiled forward drive cannot fault. */
  lemma GyroStraightAccelSteadyNoFault(distance: real, profile: Profile, gain: real, trace: seq<Sample>)
    requires forall j :: 0 <= j < |trace| ==> trace[j].progressAngle == trace[j].angle
    ensures Execute(GyroStraightAccel(distance, profile, gain), trace).outcome != Fault
  {
    GyroStraightAccelEnds(distance, profile, gain, trace, Execute(GyroStraightAccel(distance, profile, gain), trace));
  }

  /** `gyro_back_accel`, per tick: as `gyro_back`, with the trapezoid
      speed of each tick's progress reading. */
  lemma GyroBackAccelTick(distance: real, profile: Profile, gain: real, trace: seq<Sample>, r: Execution, j: nat)
    requires r == Execute(GyroBackAccel(distance, profile, gain), trace) && j < r.ticks
    ensures trace[j].angle > -distance && !trace[j].center
            && TrapezoidSpeed(Abs(trace[j].progressAngle), distance, profile).Ok?
    ensures DrivesAt(r.log, 2 + 2 * j, BackCommand(ProfileSpeed(trace[j], distance, profile), gain, trace[j].heading))
  {
    var c := GyroBackAccel(distance, profile, gain);
    CommandAt(c, trace, j, 0);
    CommandAt(c, trace, j, 1);
  }

  /** `gyro_back_accel`, its end: as `gyro_back`, except that it faults
      exactly when the profile divides by zero. */
  lemma GyroBackAccelEnds(distance: real, profile: Profile, gain: real, trace: seq<Sample>, r: Execution)
    requires r == Execute(GyroBackAccel(distance, profile, gain), trace)
    ensures r.outcome == Success <==> r.ticks < |trace| && trace[r.ticks].angle <= -distance
    ensures r.outcome == Abort <==> r.ticks < |trace| && trace[r.ticks].angle > -distance && trace[r.ticks].center
    ensures r.outcome == Fault <==>
              r.ticks < |trace| && trace[r.ticks].angle > -distance && !trace[r.ticks].center
              && TrapezoidSpeed(Abs(trace[r.ticks].progressAngle), distance, profile).ZeroDivisionError?
    ensures r.outcome == Success ==> EndsWith(r.log, BrakeDrive)
  {
    var c := GyroBackAccel(distance, profile, gain);
    Ended(c, trace, r);
    if r.outcome == Success {
      SuccessEndsWithExit(c, trace);
    }
  }

  /** The backward guard only bounds the angle from below, so even with
      steady readings a profile without ramp-down faults once the motor has
      turned forward past the distance; the fault leaves both drive motors
      running. */
  lemma GyroBackAccelCanFault()
    ensures var r := Execute(GyroBackAccel(50.0, Profile(0.0, 0.0, 100.0, 800.0, 100.0), 3.0),
                             [Sample(100.0, false, 100.0, 0.0)]);
      && r.outcome == Fault
      && ApplyAll(Motors(Run(300.0), Run(300.0), Brake), r.log) == Motors(Run(300.0), Run(300.0), Brake)
  {
    var c := GyroBackAccel(50.0, Profile(0.0, 0.0, 100.0, 800.0, 100.0), 3.0);
    var trace := [Sample(100.0, false, 100.0, 0.0)];
    var r := Execute(c, trace);
    assert Step(c, 0, trace[0]) == Failed;
    StopsAt(c, trace, 0);
    var m := Motors(Run(300.0), Run(300.0), Brake);
    assert r.log == [ResetHeading, ResetAngle(Left)];
    assert ApplyAll(m, r.log) == ApplyAll(m, r.log[1..]);
    assert ApplyAll(m, r.log[1..]) == ApplyAll(m, r.log[2..]);
  }

  /** `gyro_turn`, per tick: each commanding tick found CENTER released
      and the wrapped heading error outside the accuracy, and turned the
      robot with the turn command for that error. */
  lemma GyroTurnTick(target: real, accuracy: real, trace: seq<Sample>, r: Execution, j: nat)
    requires r == Execute(GyroTurn(target, accuracy), trace) && j < r.ticks
    ensures !trace[j].center && Abs(WrapError(target - trace[j].heading)) > accuracy
    ensures DrivesAt(r.log, 1 + 2 * j, TurnCommand(WrapError(target - trace[j].heading)))
  {
    var c := GyroTurn(target, accuracy);
    CommandAt(c, trace, j, 0);
    CommandAt(c, trace, j, 1);
  }

  /** `gyro_turn`, its end: the run ends normally at the first reading
      whose wrapped error is within the accuracy, stopping (not braking)
      both drive motors, and aborts at a CENTER press before it. */
  lemma GyroTurnEnds(target: real, accuracy: real, trace: seq<Sample>, r: Execution)
    requires r == Execute(GyroTurn(target, accuracy), trace)
    ensures r.outcome == Success <==>
              r.ticks < |trace| && !trace[r.ticks].center && Abs(WrapError(target - trace[r.ticks].heading)) <= accuracy
    ensures r.outcome == Abort <==> r.ticks < |trace| && trace[r.ticks].center
    ensures r.outcome != Fault
    ensures r.outcome == Success ==> EndsWith(r.log, [Command(Left, Stop), Command(Right, Stop)])
  {
    var c := GyroTurn(target, accuracy);
    Ended(c, trace, r);
    if r.outcome == Success {
      SuccessEndsWithExit(c, trace);
    }
  }

  /** `drift`, its log: the wheels are set once, before the loop, and
      nothing else is commanded until the end. */
  lemma DriftLog(duration: int, turnRate: real, speed: real, backward: bool, trace: seq<Sample>, r: Execution)
    requires r == Execute(Drift(duration, turnRate, speed, backward), trace)
    ensures r.log == Drive(DriftSpeeds(turnRate, speed, backward)) + Closing(r.outcome, BrakeDrive)
  {
    var c := Drift(duration, turnRate, speed, backward);
    TickWidths(c, trace);
    LoopSilent(Ticks(c, trace), Exit(c));
  }

  /** `drift`, its end: the run completes exactly when CENTER stays
      released through the DriftTicks(duration) waits of the timer loop,
      and then has waited exactly that many ticks; an abort comes at a
      CENTER press within those waits. */
  lemma DriftEnds(duration: int, turnRate: real, speed: real, backward: bool, trace: seq<Sample>, r: Execution)
    requires r == Execute(Drift(duration, turnRate, speed, backward), trace)
    ensures r.outcome == Success <==>
              DriftTicks(duration) < |trace| && forall j :: 0 <= j < DriftTicks(duration) ==> !trace[j].center
    ensures r.outcome == Success ==> r.ticks == DriftTicks(duration)
    ensures r.outcome == Abort ==> r.ticks < DriftTicks(duration) && trace[r.ticks].center
    ensures r.outcome != Fault
  {
    var c := Drift(duration, turnRate, speed, backward);
    Ended(c, trace, r);
    var n := DriftTicks(duration);
    if n < |trace| && forall j :: 0 <= j < n ==> !trace[j].center {
      StopsAt(c, trace, n);
    }
    if r.outcome == Success {
      assert r.ticks > 0 ==> 10 * (r.ticks - 1) < duration by {
        if r.ticks > 0 { assert Step(c, r.ticks - 1, trace[r.ticks - 1]).Issue?; }
      }
    }
  }

  /** `rotate`, per tick: each commanding tick found CENTER released and
      the target not yet reached, and ran the motor in the target's
      direction at the rotate speed of that reading, right after the angle
      reset and the command of each earlier tick. */
  lemma RotateTick(m: MotorId, target: real, minSpeed: real, maxSpeed: real, trace: seq<Sample>, r: Execution, j: nat)
    requires r == Execute(Rotate(m, target, minSpeed, maxSpeed), trace) && j < r.ticks
    ensures !trace[j].center && !Reached(target, trace[j].angle)
    ensures 1 + j < |r.log|
            && r.log[1 + j] == Command(m, Run(RotateVelocity(minSpeed, maxSpeed, trace[j].angle, target)))
  {
    var c := Rotate(m, target, minSpeed, maxSpeed);
    CommandAt(c, trace, j, 0);
  }

  /** `rotate`, its end: the run ends normally, holding the motor, at the
      first reading at or past the target, and aborts at a CENTER press
      before it. It never faults. */
  lemma RotateEnds(m: MotorId, target: real, minSpeed: real, maxSpeed: real, trace: seq<Sample>, r: Execution)
    requires r == Execute(Rotate(m, target, minSpeed, maxSpeed), trace)
    ensures r.outcome == Success <==> r.ticks < |trace| && !trace[r.ticks].center && Reached(target, trace[r.ticks].angle)
    ensures r.outcome == Abort <==> r.ticks < |trace| && trace[r.ticks].center
    ensures r.outcome != Fault
    ensures r.outcome == Success ==> EndsWith(r.log, [Command(m, Hold)])
  {
    var c := Rotate(m, target, minSpeed, maxSpeed);
    Ended(c, trace, r);
    if r.outcome == Success {
      SuccessEndsWithExit(c, trace);
    }
  }

  /** While the motor is on its way to the target (on the target's side of
      zero and not yet at it), `rotate` runs it between the two speed
      limits. */
  lemma RotateSpeedOnTheWay(target: real, minSpeed: real, maxSpeed: real, angle: real)
    requires !Reached(target, angle) && RotateDirection(target) * angle >= 0.0
    ensures Min(minSpeed, maxSpeed) <= RotateSpeed(minSpeed, maxSpeed, angle, target) <= Max(minSpeed, maxSpeed)
  {
    OnTheWay(target, angle);
  }

  /** A reading on the way to the target is no farther from zero than the
      target. */
  lemma OnTheWay(target: real, angle: real)
    requires !Reached(target, angle) && RotateDirection(target) * angle >= 0.0
    ensures Abs(angle) <= Abs(target)
  {
  }
}
