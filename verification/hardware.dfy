/** The robot's hardware as the motion primitives see it: the three motors
    they command (left drive on port A, right drive on port E, accessory on
    port B), the commands they record, and the readings each control tick
    takes from the motors, the IMU and the hub buttons. Motor dynamics are
    not modelled: a motor's state is the last command it was given. */
module Hardware {

  datatype MotorId = Left | Right | B

  /** `run(speed)`, `brake()`, `stop()` and `hold()`. */
  datatype Action = Run(speed: real) | Brake | Stop | Hold

  /** One recorded hardware call of a primitive. */
  datatype Event =
    | Command(motor: MotorId, action: Action)
    | ResetHeading
    | ResetAngle(motor: MotorId)

  /** The last command each motor received. */
  datatype Motors = Motors(left: Action, right: Action, b: Action)

  function Get(m: Motors, id: MotorId): Action
  {
    match id
    case Left => m.left
    case Right => m.right
    case B => m.b
  }

  /** The motor state after one event: a command replaces the addressed
      motor's state and leaves the other two alone; resets change no motor
      command. */
  function Apply(m: Motors, e: Event): (m': Motors)
    ensures e.Command? ==> Get(m', e.motor) == e.action
    ensures e.Command? ==> forall id :: id != e.motor ==> Get(m', id) == Get(m, id)
    ensures !e.Command? ==> m' == m
  {
    match e
    case Command(Left, a) => m.(left := a)
    case Command(Right, a) => m.(right := a)
    case Command(B, a) => m.(b := a)
    case ResetHeading => m
    case ResetAngle(_) => m
  }

  /** The motor state after a whole recorded log, oldest event first. */
  function ApplyAll(m: Motors, log: seq<Event>): Motors
    decreases |log|
  {
    if |log| == 0 then m else ApplyAll(Apply(m, log[0]), log[1..])
  }

  /** Replaying a log in two pieces is replaying it whole. */
  lemma {:induction false} ApplyAllAppend(m: Motors, a: seq<Event>, b: seq<Event>)
    ensures ApplyAll(m, a + b) == ApplyAll(ApplyAll(m, a), b)
    decreases |a|
  {
    if |a| == 0 {
      assert a + b == b;
    } else {
      assert (a + b)[1..] == a[1..] + b;
      ApplyAllAppend(Apply(m, a[0]), a[1..], b);
    }
  }

  /** What `check_stop` does before raising `StopMission`: brake the left,
      right and accessory motors, in that order. */
  const AbortBrakes: seq<Event> :=
    [Command(Left, Brake), Command(Right, Brake), Command(B, Brake)]

  /** Whatever happened before, a log that ends with the abort brakes leaves
      all three motors braked. */
  lemma AbortLeavesAllBraked(m: Motors, log: seq<Event>)
    ensures ApplyAll(m, log + AbortBrakes) == Motors(Brake, Brake, Brake)
  {
    ApplyAllAppend(m, log, AbortBrakes);
  }

  /** All readings one control tick may take, in the order a tick takes
      them: the motor angle the loop guard compares, whether CENTER is
      pressed (`check_stop`), the motor angle read again as progress (the
      profiled loops only) and the IMU heading. A primitive ignores the
      readings it does not take. */
  datatype Sample = Sample(angle: real, center: bool, progressAngle: real, heading: real)

  /** `check_stop` raises `StopMission` exactly when CENTER is pressed. */
  predicate CheckStop(s: Sample)
  {
    s.center
  }
}
