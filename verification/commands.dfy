/** The per-tick command laws of the drive loops (v1.py lines 64-224): pure
    functions from one sensor reading to the speeds the loop commands. */
module Commands {
  import opened Speed

  /** A pair of drive-motor speeds, left then right, in degrees per second. */
  datatype Wheels = Wheels(left: real, right: real)

  /** `gyro_straight` / `gyro_straight_accel`: forward at `speed`, steering
      proportionally to the heading. The two speeds average `speed` and
      differ by twice the gain times the heading. */
  function StraightCommand(speed: real, gain: real, heading: real): (w: Wheels)
    ensures w.left - w.right == 2.0 * gain * heading
    ensures w.left + w.right == 2.0 * speed
  {
    var correction := heading * -1.0 * gain;
    Wheels(speed - correction, speed + correction)
  }

  /** `gyro_back` / `gyro_back_accel`: backward at `speed`, with the same
      left-minus-right steering as the forward law. */
  function BackCommand(speed: real, gain: real, heading: real): (w: Wheels)
    ensures w.left - w.right == 2.0 * gain * heading
    ensures w.left + w.right == -2.0 * speed
  {
    var correction := heading * gain;
    Wheels(-speed + correction, -speed - correction)
  }

  /** Driving backward is driving forward mirrored: the backward command at
      heading h is the negated forward command at heading -h. */
  lemma BackMirrorsStraight(speed: real, gain: real, heading: real)
    ensures BackCommand(speed, gain, heading).left == -StraightCommand(speed, gain, -heading).left
    ensures BackCommand(speed, gain, heading).right == -StraightCommand(speed, gain, -heading).right
  {
  }

  /** `gyro_straight`'s defaults (speed 300, gain 3) with the robot
      turned 10 degrees off course. */
  lemma StraightExample()
    ensures StraightCommand(300.0, 3.0, 10.0) == Wheels(330.0, 270.0)
  {
  }

  /** The heading-error wrap of `gyro_turn`: one subtraction or addition of
      360. The result differs from the raw error by a multiple of 360 (one of
      -360, 0, 360); a raw error in [-540, 540] lands in [-180, 180], and one
      already in [-180, 180] is left alone. */
  function WrapError(raw: real): (e: real)
    ensures e == raw || e == raw - 360.0 || e == raw + 360.0
    ensures -540.0 <= raw <= 540.0 ==> -180.0 <= e <= 180.0
    ensures -180.0 <= raw <= 180.0 ==> e == raw
  {
    if raw > 180.0 then raw - 360.0
    else if raw < -180.0 then raw + 360.0
    else raw
  }

  /** Wrapping a wrapped error changes nothing. */
  lemma WrapIdempotent(raw: real)
    requires -540.0 <= raw <= 540.0
    ensures WrapError(WrapError(raw)) == WrapError(raw)
  {
  }

  /** The turn speed policy: 300 far from the target, otherwise 2.5 per
      degree of error with a floor of 35, so always within [35, 300]. */
  function TurnSpeed(error: real): (s: real)
    ensures 35.0 <= s <= 300.0
    ensures Abs(error) > 30.0 ==> s == 300.0
    ensures Abs(error) <= 30.0 ==> s == Max(35.0, 2.5 * Abs(error))
  {
    if Abs(error) > 30.0 then 300.0
    else
      var speed := Abs(error) * 2.5;
      if speed < 35.0 then 35.0 else speed
  }

  /** A larger error never yields a slower turn. */
  lemma TurnSpeedMonotone(e1: real, e2: real)
    requires Abs(e1) <= Abs(e2)
    ensures TurnSpeed(e1) <= TurnSpeed(e2)
  {
  }

  /** The speed sits on its floor exactly for errors of at most 14 degrees,
      and on its ceiling exactly for errors beyond 30 degrees. */
  lemma TurnSpeedLimits(e: real)
    ensures TurnSpeed(e) == 35.0 <==> Abs(e) <= 14.0
    ensures TurnSpeed(e) == 300.0 <==> Abs(e) > 30.0
  {
  }

  /** The turn command: the wheels spin opposite ways at the turn speed; a
      positive error runs the right wheel forward and the left backward. */
  function TurnCommand(error: real): (w: Wheels)
    ensures w.right == -w.left
    ensures error > 0.0 ==> w.right == TurnSpeed(error) && w.left == -TurnSpeed(error)
    ensures error <= 0.0 ==> w.left == TurnSpeed(error) && w.right == -TurnSpeed(error)
  {
    var speed := TurnSpeed(error);
    if error > 0.0 then Wheels(-speed, speed) else Wheels(speed, -speed)
  }

  /** `drift`: one wheel at full speed, the other scaled by the turn rate,
      both negated when driving backward. Nothing clamps the turn rate. */
  function DriftSpeeds(turnRate: real, speed: real, backward: bool): (w: Wheels)
    ensures turnRate >= 0.0 ==> w.right == w.left * (1.0 - turnRate)
    ensures turnRate < 0.0 ==> w.left == w.right * (1.0 + turnRate)
    ensures (if turnRate >= 0.0 then w.left else w.right) == (if backward then -speed else speed)
  {
    var direction := if backward then -1.0 else 1.0;
    if turnRate >= 0.0 then
      Wheels(direction * speed, direction * speed * (1.0 - turnRate))
    else
      Wheels(direction * speed * (1.0 + turnRate), direction * speed)
  }

  /** Backward drift is forward drift with both speeds negated. */
  lemma DriftBackwardNegates(turnRate: real, speed: real)
    ensures DriftSpeeds(turnRate, speed, true) == Wheels(-DriftSpeeds(turnRate, speed, false).left, -DriftSpeeds(turnRate, speed, false).right)
  {
  }

  /** A negative turn rate mirrors the positive one: the wheels swap roles. */
  lemma DriftMirror(turnRate: real, speed: real, backward: bool)
    requires turnRate > 0.0
    ensures DriftSpeeds(-turnRate, speed, backward).left == DriftSpeeds(turnRate, speed, backward).right
    ensures DriftSpeeds(-turnRate, speed, backward).right == DriftSpeeds(turnRate, speed, backward).left
  {
  }

  /** The number of 10 ms waits of the drift loop: the least n with
      10 * n >= duration, that is duration / 10 rounded up (none for a
      non-positive duration). */
  function DriftTicks(duration: int): (n: nat)
    ensures 10 * n >= duration
    ensures n > 0 ==> 10 * (n - 1) < duration
  {
    if duration <= 0 then 0 else (duration + 9) / 10
  }

  /** `rotate`'s direction: +1 for a positive target, otherwise -1. */
  function RotateDirection(target: real): (d: real)
    ensures d == 1.0 || d == -1.0
    ensures d == 1.0 <==> target > 0.0
  {
    if target > 0.0 then 1.0 else -1.0
  }

  /** `rotate`'s stop test: the angle has reached or passed the target in
      the direction of travel. */
  predicate Reached(target: real, angle: real): (b: bool)
    ensures b <==> (if target > 0.0 then angle >= target else angle <= target)
  {
    var direction := RotateDirection(target);
    (direction == 1.0 && angle >= target) || (direction == -1.0 && angle <= target)
  }

  /** `rotate`'s speed: from minSpeed at the start to maxSpeed at the
      target, in proportion to the distance covered; minSpeed throughout for
      a zero target. */
  function RotateSpeed(minSpeed: real, maxSpeed: real, angle: real, target: real): (v: real)
    ensures target == 0.0 ==> v == minSpeed
    ensures Abs(angle) <= Abs(target) ==> Min(minSpeed, maxSpeed) <= v <= Max(minSpeed, maxSpeed)
  {
    var total := Abs(target);
    if total > 0.0 then
      var progress := Abs(angle) / total;
      QuotientInUnitIf(Abs(angle), total);
      LerpBetweenIf(progress, minSpeed, maxSpeed);
      minSpeed + (maxSpeed - minSpeed) * progress
    else
      minSpeed
  }

  /** The signed speed `rotate` commands: the rotate speed, forward for a
      positive target and backward otherwise. */
  function RotateVelocity(minSpeed: real, maxSpeed: real, angle: real, target: real): (v: real)
    ensures target > 0.0 ==> v == RotateSpeed(minSpeed, maxSpeed, angle, target)
    ensures target <= 0.0 ==> v == -RotateSpeed(minSpeed, maxSpeed, angle, target)
  {
    RotateDirection(target) * RotateSpeed(minSpeed, maxSpeed, angle, target)
  }

  lemma QuotientInUnitIf(n: real, d: real)
    requires 0.0 <= n && d > 0.0
    ensures n <= d ==> 0.0 <= n / d <= 1.0
  {
    if n <= d { QuotientInUnit(n, d); }
  }

  lemma LerpBetweenIf(t: real, c: real, d: real)
    ensures 0.0 <= t <= 1.0 ==> Min(c, d) <= c + (d - c) * t <= Max(c, d)
  {
    if 0.0 <= t <= 1.0 { LerpBetween(t, c, d); }
  }

  /** For a non-zero target the rotate speed is the `map_value`
      interpolation of the distance covered onto [minSpeed, maxSpeed]. */
  lemma RotateSpeedIsMapValue(minSpeed: real, maxSpeed: real, angle: real, target: real)
    requires target != 0.0
    ensures MapValue(Abs(angle), 0.0, Abs(target), minSpeed, maxSpeed) == Ok(RotateSpeed(minSpeed, maxSpeed, angle, target))
  {
    var m := MapValue(Abs(angle), 0.0, Abs(target), minSpeed, maxSpeed);
    var v := RotateSpeed(minSpeed, maxSpeed, angle, target);
    var t := Abs(angle) / Abs(target);
    assert t * Abs(target) == Abs(angle);
    assert (v - minSpeed) * Abs(target) == Abs(angle) * (maxSpeed - minSpeed);
    assert (m.value - minSpeed) * Abs(target) == Abs(angle) * (maxSpeed - minSpeed);
    CancelFactor(m.value - minSpeed, v - minSpeed, Abs(target));
  }
}
