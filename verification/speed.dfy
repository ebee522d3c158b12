/** Speed shaping of the motion primitives: the linear interpolation
    `map_value` and the trapezoidal ramp-up / cruise / ramp-down profile
    `get_trapezoid_speed` (v1.py lines 51-61). Speeds are real numbers. */
module Speed {

  function Abs(x: real): (r: real)
    ensures r >= 0.0 && (r == x || r == -x)
  {
    if x < 0.0 then -x else x
  }

  function Min(a: real, b: real): real { if a <= b then a else b }

  function Max(a: real, b: real): real { if a <= b then b else a }

  /** Python's `/` raises ZeroDivisionError on a zero divisor; every other
      value is an ordinary quotient. */
  datatype Result<T> = Ok(value: T) | ZeroDivisionError

  /** `map_value`: the point of the line through (inMin, outMin) and
      (inMax, outMax) above `value`; fails when the two input ends coincide. */
  function MapValue(value: real, inMin: real, inMax: real, outMin: real, outMax: real): (r: Result<real>)
    ensures r.ZeroDivisionError? <==> inMin == inMax
    ensures r.Ok? ==> (r.value - outMin) * (inMax - inMin) == (value - inMin) * (outMax - outMin)
  {
    if inMax - inMin == 0.0 then ZeroDivisionError
    else
      var q := (value - inMin) * (outMax - outMin) / (inMax - inMin) + outMin;
      assert (q - outMin) * (inMax - inMin) == (value - inMin) * (outMax - outMin);
      Ok(q)
  }

  /** The interpolation passes through both of its anchor points. */
  lemma MapValueEnds(inMin: real, inMax: real, outMin: real, outMax: real)
    requires inMin != inMax
    ensures MapValue(inMin, inMin, inMax, outMin, outMax) == Ok(outMin)
    ensures MapValue(inMax, inMin, inMax, outMin, outMax) == Ok(outMax)
  {
    var r := MapValue(inMax, inMin, inMax, outMin, outMax).value;
    var a, b, c := r - outMin, outMax - outMin, inMax - inMin;
    assert a * c == b * c;
    CancelFactor(a, b, c);
  }

  /** Mapping back with the ranges swapped returns the original value. */
  lemma MapValueRoundTrip(value: real, inMin: real, inMax: real, outMin: real, outMax: real)
    requires inMin != inMax && outMin != outMax
    ensures MapValue(value, inMin, inMax, outMin, outMax).Ok?
    ensures MapValue(MapValue(value, inMin, inMax, outMin, outMax).value, outMin, outMax, inMin, inMax) == Ok(value)
  {
    var y := MapValue(value, inMin, inMax, outMin, outMax).value;
    var z := MapValue(y, outMin, outMax, inMin, inMax).value;
    assert (z - inMin) * (outMax - outMin) == (y - outMin) * (inMax - inMin);
    assert (y - outMin) * (inMax - inMin) == (value - inMin) * (outMax - outMin);
    assert (z - inMin) * (outMax - outMin) == (value - inMin) * (outMax - outMin);
    CancelFactor(z - inMin, value - inMin, outMax - outMin);
  }

  lemma CancelFactor(a: real, b: real, c: real)
    requires c != 0.0 && a * c == b * c
    ensures a == b
  {
    assert (a - b) * c == 0.0;
  }

  /** A value between the input ends maps to a value between the output ends. */
  lemma MapValueBetween(value: real, inMin: real, inMax: real, outMin: real, outMax: real)
    requires Min(inMin, inMax) <= value <= Max(inMin, inMax) && inMin != inMax
    ensures MapValue(value, inMin, inMax, outMin, outMax).Ok?
    ensures Min(outMin, outMax) <= MapValue(value, inMin, inMax, outMin, outMax).value <= Max(outMin, outMax)
  {
    var t := (value - inMin) / (inMax - inMin);
    QuotientInUnit(value - inMin, inMax - inMin);
    var r := MapValue(value, inMin, inMax, outMin, outMax).value;
    assert r == outMin + t * (outMax - outMin);
    LerpBetween(t, outMin, outMax);
  }

  lemma LerpBetween(t: real, c: real, d: real)
    requires 0.0 <= t <= 1.0
    ensures Min(c, d) <= c + t * (d - c) <= Max(c, d)
  {
    if c <= d {
      MulNonneg(t, d - c);
      MulNonneg(1.0 - t, d - c);
    } else {
      MulNonneg(t, c - d);
      MulNonneg(1.0 - t, c - d);
    }
  }

  lemma QuotientInUnit(n: real, d: real)
    requires (0.0 <= n <= d && d > 0.0) || (d <= n <= 0.0 && d < 0.0)
    ensures 0.0 <= n / d <= 1.0
  {
    var t := n / d;
    assert t * d == n;
    if d > 0.0 {
      if t < 0.0 { MulNonneg(-t, d); }
      if t > 1.0 { MulPos(t - 1.0, d); }
    } else {
      if t < 0.0 { MulNonneg(-t, -d); }
      if t > 1.0 { MulPos(t - 1.0, -d); }
    }
  }

  lemma MulPos(x: real, y: real)
    requires x > 0.0 && y > 0.0
    ensures x * y > 0.0
  {
  }

  lemma MulNonneg(x: real, y: real)
    requires x >= 0.0 && y >= 0.0
    ensures x * y >= 0.0
  {
  }

  /** The parameters of a trapezoidal speed profile (the keyword arguments
      of `gyro_straight_accel` and `gyro_back_accel`). */
  datatype Profile = Profile(accel: real, decel: real, minSpeed: real, maxSpeed: real, endSpeed: real)

  function Min3(p: Profile): real { Min(p.minSpeed, Min(p.maxSpeed, p.endSpeed)) }

  function Max3(p: Profile): real { Max(p.minSpeed, Max(p.maxSpeed, p.endSpeed)) }

  /** `get_trapezoid_speed`: ramp from minSpeed to maxSpeed over the first
      `accel` degrees, cruise at maxSpeed, ramp from maxSpeed to endSpeed
      over the last `decel` degrees. The error case is exactly the one in
      which a `map_value` call divides by zero; within the travel range
      there is none and the speed stays between the three profile speeds. */
  function TrapezoidSpeed(progress: real, total: real, p: Profile): (r: Result<real>)
    ensures r.ZeroDivisionError? <==>
              (progress < p.accel && p.accel == 0.0)
              || (p.accel <= progress && total - p.decel < progress && p.decel == 0.0)
    ensures 0.0 <= progress <= total ==> r.Ok? && Min3(p) <= r.value <= Max3(p)
  {
    if progress < p.accel then
      var r := MapValue(progress, 0.0, p.accel, p.minSpeed, p.maxSpeed);
      assert 0.0 <= progress ==> r.Ok? && Min(p.minSpeed, p.maxSpeed) <= r.value <= Max(p.minSpeed, p.maxSpeed) by {
        if 0.0 <= progress { MapValueBetween(progress, 0.0, p.accel, p.minSpeed, p.maxSpeed); }
      }
      r
    else if progress > total - p.decel then
      var r := MapValue(progress, total - p.decel, total, p.maxSpeed, p.endSpeed);
      assert progress <= total ==> r.Ok? && Min(p.maxSpeed, p.endSpeed) <= r.value <= Max(p.maxSpeed, p.endSpeed) by {
        if progress <= total { MapValueBetween(progress, total - p.decel, total, p.maxSpeed, p.endSpeed); }
      }
      r
    else
      Ok(p.maxSpeed)
  }

  /** With a positive ramp-up the profile starts at minSpeed. */
  lemma TrapezoidStart(total: real, p: Profile)
    requires p.accel > 0.0
    ensures TrapezoidSpeed(0.0, total, p) == Ok(p.minSpeed)
  {
  }

  /** Between the end of the ramp-up and the start of the ramp-down the
      profile cruises at maxSpeed. */
  lemma TrapezoidCruise(progress: real, total: real, p: Profile)
    requires p.accel <= progress <= total - p.decel
    ensures TrapezoidSpeed(progress, total, p) == Ok(p.maxSpeed)
  {
  }

  /** With a positive ramp-down the profile ends at endSpeed, provided the
      ramp-up is over by then. */
  lemma TrapezoidEnd(total: real, p: Profile)
    requires p.decel > 0.0 && p.accel <= total
    ensures TrapezoidSpeed(total, total, p) == Ok(p.endSpeed)
  {
    MapValueEnds(total - p.decel, total, p.maxSpeed, p.endSpeed);
  }

  /** With minSpeed <= maxSpeed the ramp-up never slows down. */
  lemma TrapezoidRampUpMonotone(a: real, b: real, total: real, p: Profile)
    requires 0.0 <= a <= b < p.accel && p.minSpeed <= p.maxSpeed
    ensures TrapezoidSpeed(a, total, p).Ok? && TrapezoidSpeed(b, total, p).Ok?
    ensures TrapezoidSpeed(a, total, p).value <= TrapezoidSpeed(b, total, p).value
  {
    var ra := TrapezoidSpeed(a, total, p).value;
    var rb := TrapezoidSpeed(b, total, p).value;
    assert ra == p.minSpeed + (a / p.accel) * (p.maxSpeed - p.minSpeed);
    assert rb == p.minSpeed + (b / p.accel) * (p.maxSpeed - p.minSpeed);
    assert a / p.accel <= b / p.accel;
    MulMonotone(a / p.accel, b / p.accel, p.maxSpeed - p.minSpeed);
  }

  /** With endSpeed <= maxSpeed the ramp-down never speeds up. */
  lemma TrapezoidRampDownMonotone(a: real, b: real, total: real, p: Profile)
    requires p.accel <= a <= b <= total && total - p.decel < a && p.endSpeed <= p.maxSpeed
    ensures TrapezoidSpeed(a, total, p).Ok? && TrapezoidSpeed(b, total, p).Ok?
    ensures TrapezoidSpeed(b, total, p).value <= TrapezoidSpeed(a, total, p).value
  {
    var s := total - p.decel;
    var ra := TrapezoidSpeed(a, total, p).value;
    var rb := TrapezoidSpeed(b, total, p).value;
    assert ra == p.maxSpeed + ((a - s) / p.decel) * (p.endSpeed - p.maxSpeed);
    assert rb == p.maxSpeed + ((b - s) / p.decel) * (p.endSpeed - p.maxSpeed);
    assert (a - s) / p.decel <= (b - s) / p.decel;
    MulMonotone(-((b - s) / p.decel), -((a - s) / p.decel), p.maxSpeed - p.endSpeed);
  }

  lemma MulMonotone(x: real, y: real, c: real)
    requires x <= y && c >= 0.0
    ensures x * c <= y * c
  {
    MulNonneg(y - x, c);
  }

  /** `gyro_straight_accel`'s default profile (accel 200, decel 200,
      speeds 100 / 800 / 100) over a 1000-degree drive. */
  lemma TrapezoidExample()
    ensures TrapezoidSpeed(0.0, 1000.0, Profile(200.0, 200.0, 100.0, 800.0, 100.0)) == Ok(100.0)
    ensures TrapezoidSpeed(50.0, 1000.0, Profile(200.0, 200.0, 100.0, 800.0, 100.0)) == Ok(275.0)
    ensures TrapezoidSpeed(500.0, 1000.0, Profile(200.0, 200.0, 100.0, 800.0, 100.0)) == Ok(800.0)
    ensures TrapezoidSpeed(1000.0, 1000.0, Profile(200.0, 200.0, 100.0, 800.0, 100.0)) == Ok(100.0)
  {
  }
}
