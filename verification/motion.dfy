/** The motion primitives of v1.py as tick loops. Each primitive makes its
    setup calls (heading and angle resets, or drift's initial wheel
    commands), then runs ticks: every tick takes one Sample, and either
    issues that tick's motor commands and continues, or leaves the loop —
    normally (exit commands: brake, stop or hold), by abort (`check_stop`
    brakes all three motors and raises `StopMission`), or by a fault (a
    ZeroDivisionError of the trapezoid profile). The sensor history is a
    finite sequence of samples; when it runs out before the loop ends, the
    run is Unfinished. */
module Motion {
  import opened Speed
  import opened Hardware
  import opened Commands

  /** One call of a motion primitive with its arguments. */
  datatype Call =
    | GyroStraight(distance: real, speed: real, gain: real)
    | GyroStraightAccel(distance: real, profile: Profile, gain: real)
    | GyroBack(distance: real, speed: real, gain: real)
    | GyroBackAccel(distance: real, profile: Profile, gain: real)
    | GyroTurn(target: real, accuracy: real)
    | Drift(duration: int, turnRate: real, speed: real, backward: bool)
    | Rotate(motor: MotorId, target: real, minSpeed: real, maxSpeed: real)

  /** What one tick does: issue commands and go on, or leave the loop. */
  datatype Tick = Issue(cmds: seq<Event>) | Finish | Stopped | Failed

  /** How a primitive (or a mission) ended. `Abort` is `StopMission`,
      `Fault` any other exception; `Unfinished` means the samples ran out
      while the loop was still running. */
  datatype Outcome = Success | Abort | Fault | Unfinished

  /** A run: its outcome, the number of ticks that issued commands, and the
      recorded hardware calls. */
  datatype Execution = Execution(outcome: Outcome, ticks: nat, log: seq<Event>)

  /** Both drive motors at the given speeds, left first. */
  function Drive(w: Wheels): seq<Event>
  {
    [Command(Left, Run(w.left)), Command(Right, Run(w.right))]
  }

  /** The log ends with the given calls. */
  predicate EndsWith(log: seq<Event>, tail: seq<Event>)
  {
    |tail| <= |log| && log[|log| - |tail|..] == tail
  }

  /** A log that ends with `tail` still does with anything put in front. */
  lemma EndsWithAppend(front: seq<Event>, log: seq<Event>, tail: seq<Event>)
    requires EndsWith(log, tail)
    ensures EndsWith(front + log, tail)
  {
    assert (front + log)[|front + log| - |tail|..] == log[|log| - |tail|..];
  }

  const BrakeDrive: seq<Event> := [Command(Left, Brake), Command(Right, Brake)]

  /** The calls made before the first tick. */
  function Prefix(c: Call): seq<Event>
  {
    match c
    case GyroTurn(_, _) => [ResetHeading]
    case Drift(_, turnRate, speed, backward) => Drive(DriftSpeeds(turnRate, speed, backward))
    case Rotate(m, _, _, _) => [ResetAngle(m)]
    case _ => [ResetHeading, ResetAngle(Left)]
  }

  /** The calls made after a normal loop exit. */
  function Exit(c: Call): seq<Event>
  {
    match c
    case GyroTurn(_, _) => [Command(Left, Stop), Command(Right, Stop)]
    case Rotate(m, _, _, _) => [Command(m, Hold)]
    case _ => BrakeDrive
  }

  /** How many commands one continuing tick of call c issues. */
  function Width(c: Call): nat
  {
    match c
    case Drift(_, _, _, _) => 0
    case Rotate(_, _, _, _) => 1
    case _ => 2
  }

  /** Tick k of call c on sample s, in the order the source tests things:
      the distance loops test their guard before `check_stop`, the turn and
      rotate loops call `check_stop` before their exit test, and drift tests
      its 10 ms timer before `check_stop`. */
  function Step(c: Call, k: nat, s: Sample): (t: Tick)
    ensures t.Issue? ==> |t.cmds| == Width(c) && !CheckStop(s)
    ensures t.Failed? ==> c.GyroStraightAccel? || c.GyroBackAccel?
  {
    match c
    case GyroStraight(distance, speed, gain) =>
      if !(Abs(s.angle) < distance) then Finish
      else if CheckStop(s) then Stopped
      else Issue(Drive(StraightCommand(speed, gain, s.heading)))
    case GyroStraightAccel(distance, profile, gain) =>
      if !(Abs(s.angle) < distance) then Finish
      else if CheckStop(s) then Stopped
      else
        (match TrapezoidSpeed(Abs(s.progressAngle), distance, profile)
         case ZeroDivisionError => Failed
         case Ok(speed) => Issue(Drive(StraightCommand(speed, gain, s.heading))))
    case GyroBack(distance, speed, gain) =>
      if !(s.angle > -distance) then Finish
      else if CheckStop(s) then Stopped
      else Issue(Drive(BackCommand(speed, gain, s.heading)))
    case GyroBackAccel(distance, profile, gain) =>
      if !(s.angle > -distance) then Finish
      else if CheckStop(s) then Stopped
      else
        (match TrapezoidSpeed(Abs(s.progressAngle), distance, profile)
         case ZeroDivisionError => Failed
         case Ok(speed) => Issue(Drive(BackCommand(speed, gain, s.heading))))
    case GyroTurn(target, accuracy) =>
      if CheckStop(s) then Stopped
      else
        var error := WrapError(target - s.heading);
        if Abs(error) <= accuracy then Finish
        else Issue(Drive(TurnCommand(error)))
    case Drift(duration, _, _, _) =>
      if !(10 * k < duration) then Finish
      else if CheckStop(s) then Stopped
      else Issue([])
    case Rotate(m, target, minSpeed, maxSpeed) =>
      if CheckStop(s) then Stopped
      else if Reached(target, s.angle) then Finish
      else Issue([Command(m, Run(RotateVelocity(minSpeed, maxSpeed, s.angle, target)))])
  }

  /** The outcome a loop-leaving tick gives the primitive. */
  function Ending(t: Tick): Outcome
  {
    match t
    case Finish => Success
    case Stopped => Abort
    case Failed => Fault
    case Issue(_) => Unfinished
  }

  /** The calls made when the loop is left with the given outcome: the exit
      commands, the abort brakes, or nothing (an exception other than
      `StopMission` leaves the motors as they were). */
  function Closing(o: Outcome, exit: seq<Event>): seq<Event>
  {
    match o
    case Success => exit
    case Abort => AbortBrakes
    case Fault => []
    case Unfinished => []
  }

  /** What every tick of call c would do on the samples, tick by tick. */
  function Ticks(c: Call, trace: seq<Sample>): (ts: seq<Tick>)
    ensures |ts| == |trace|
    ensures forall j :: 0 <= j < |trace| ==> ts[j] == Step(c, j, trace[j])
  {
    seq(|trace|, j requires 0 <= j < |trace| => Step(c, j, trace[j]))
  }

  /** The commands issued by ticks lo .. hi-1, all of which continue. */
  function Issued(ts: seq<Tick>, lo: nat, hi: nat): seq<Event>
    requires lo <= hi <= |ts|
    requires forall j :: lo <= j < hi ==> ts[j].Issue?
    decreases hi - lo
  {
    if lo == hi then [] else ts[lo].cmds + Issued(ts, lo + 1, hi)
  }

  /** The tick loop from tick k on. It runs exactly the ticks up to the
      first one that leaves the loop; that tick decides the outcome, and the
      log is the continuing ticks' commands followed by the closing calls. */
  function Loop(ts: seq<Tick>, exit: seq<Event>, k: nat): (r: Execution)
    requires k <= |ts|
    ensures k + r.ticks <= |ts|
    ensures forall j :: k <= j < k + r.ticks ==> ts[j].Issue?
    ensures r.outcome == Unfinished <==> k + r.ticks == |ts|
    ensures k + r.ticks < |ts| ==> !ts[k + r.ticks].Issue? && r.outcome == Ending(ts[k + r.ticks])
    ensures r.log == Issued(ts, k, k + r.ticks) + Closing(r.outcome, exit)
    decreases |ts| - k
  {
    if k == |ts| then Execution(Unfinished, 0, [])
    else
      match ts[k]
      case Finish => Execution(Success, 0, exit)
      case Stopped => Execution(Abort, 0, AbortBrakes)
      case Failed => Execution(Fault, 0, [])
      case Issue(cmds) =>
        var rest := Loop(ts, exit, k + 1);
        Execution(rest.outcome, rest.ticks + 1, cmds + rest.log)
  }

  /** One call of a primitive: its setup calls, then its tick loop. */
  function Execute(c: Call, trace: seq<Sample>): Execution
  {
    var ts := Ticks(c, trace);
    var l := Loop(ts, Exit(c), 0);
    Execution(l.outcome, l.ticks, Prefix(c) + l.log)
  }

  /** A run makes its setup calls before anything else, commands on at
      most one tick per sample, and is Unfinished exactly when every sample
      let the loop go on. */
  lemma ExecuteRuns(c: Call, trace: seq<Sample>)
    ensures Execute(c, trace).ticks <= |trace|
    ensures Execute(c, trace).outcome == Unfinished <==> Execute(c, trace).ticks == |trace|
    ensures |Prefix(c)| <= |Execute(c, trace).log| && Execute(c, trace).log[..|Prefix(c)|] == Prefix(c)
  {
  }

  /** A run stops at tick n exactly when n is the first tick that does not
      continue (or the samples end at n). */
  lemma StopsAt(c: Call, trace: seq<Sample>, n: nat)
    requires n <= |trace|
    ensures Execute(c, trace).ticks == n <==>
              (forall j :: 0 <= j < n ==> Step(c, j, trace[j]).Issue?)
              && (n < |trace| ==> !Step(c, n, trace[n]).Issue?)
  {
    var r := Execute(c, trace);
    assert r.ticks < n ==> r.ticks < |trace|;
    assert n < r.ticks ==> Step(c, n, trace[n]).Issue?;
  }

  /** How a run ended, read off the tick after its last commanding tick. */
  lemma Ended(c: Call, trace: seq<Sample>, r: Execution)
    requires r == Execute(c, trace)
    ensures forall j :: 0 <= j < r.ticks ==> Step(c, j, trace[j]).Issue?
    ensures r.outcome == Success <==> r.ticks < |trace| && Step(c, r.ticks, trace[r.ticks]).Finish?
    ensures r.outcome == Abort <==> r.ticks < |trace| && Step(c, r.ticks, trace[r.ticks]).Stopped?
    ensures r.outcome == Fault <==> r.ticks < |trace| && Step(c, r.ticks, trace[r.ticks]).Failed?
  {
  }

  /** Every primitive calls `check_stop` before issuing a tick's commands:
      no tick with CENTER pressed issues commands, and in the turn and
      rotate loops, which call it first, such a tick always aborts. */
  lemma PressedTickNeverIssues(c: Call, k: nat, s: Sample)
    requires s.center
    ensures Step(c, k, s).Finish? || Step(c, k, s).Stopped?
    ensures c.GyroTurn? || c.Rotate? ==> Step(c, k, s).Stopped?
  {
  }

  /** Abort latency: a run never continues past a tick at which CENTER is
      pressed; it ends there or earlier. */
  lemma AbortWithinOneTick(c: Call, trace: seq<Sample>, n: nat)
    requires n < |trace| && trace[n].center
    ensures Execute(c, trace).ticks <= n
    ensures Execute(c, trace).outcome != Unfinished
  {
    PressedTickNeverIssues(c, n, trace[n]);
  }

  /** After an abort the log ends with `check_stop`'s three brakes, so
      whatever the motors were doing, all three end braked. */
  lemma AbortBrakesAll(c: Call, trace: seq<Sample>, m: Motors)
    requires Execute(c, trace).outcome == Abort
    ensures EndsWith(Execute(c, trace).log, AbortBrakes)
    ensures ApplyAll(m, Execute(c, trace).log) == Motors(Brake, Brake, Brake)
  {
    var before := LoopAborted(Prefix(c), Ticks(c, trace), Exit(c));
    AbortLeavesAllBraked(m, before);
  }

  /** An aborted loop's log, after any setup calls, is whatever came before
      followed by the three brakes. */
  lemma LoopAborted(prefix: seq<Event>, ts: seq<Tick>, exit: seq<Event>) returns (before: seq<Event>)
    requires Loop(ts, exit, 0).outcome == Abort
    ensures prefix + Loop(ts, exit, 0).log == before + AbortBrakes
  {
    before := prefix + Issued(ts, 0, Loop(ts, exit, 0).ticks);
  }

  /** After a normal exit the log ends with the primitive's exit commands. */
  lemma SuccessEndsWithExit(c: Call, trace: seq<Sample>)
    requires Execute(c, trace).outcome == Success
    ensures EndsWith(Execute(c, trace).log, Exit(c))
  {
    var r := Execute(c, trace);
    assert r.log == (Prefix(c) + Issued(Ticks(c, trace), 0, r.ticks)) + Exit(c);
  }

  /** The commands of a stretch of ticks are those of its first part, then
      tick j's, then those of the rest. */
  lemma {:induction false} IssuedSplit(ts: seq<Tick>, lo: nat, j: nat, hi: nat)
    requires lo <= j < hi <= |ts|
    requires forall i :: lo <= i < hi ==> ts[i].Issue?
    ensures Issued(ts, lo, hi) == Issued(ts, lo, j) + ts[j].cmds + Issued(ts, j + 1, hi)
    decreases j - lo
  {
    if lo < j {
      IssuedSplit(ts, lo + 1, j, hi);
    }
  }

  /** When every continuing tick issues exactly `width` commands, a stretch
      of n ticks issues width * n of them. */
  lemma {:induction false} IssuedLength(ts: seq<Tick>, lo: nat, hi: nat, width: nat)
    requires lo <= hi <= |ts|
    requires forall j :: lo <= j < hi ==> ts[j].Issue? && |ts[j].cmds| == width
    ensures |Issued(ts, lo, hi)| == width * (hi - lo)
    decreases hi - lo
  {
    if lo < hi {
      IssuedLength(ts, lo + 1, hi, width);
      Distribute(width, hi - lo);
    }
  }

  /** Every commanding tick of a run issues Width(c) commands. */
  lemma TickWidths(c: Call, trace: seq<Sample>)
    ensures forall k :: 0 <= k < Execute(c, trace).ticks ==> |Ticks(c, trace)[k].cmds| == Width(c)
  {
    forall k | 0 <= k < Execute(c, trace).ticks
      ensures |Ticks(c, trace)[k].cmds| == Width(c)
    {
      assert Ticks(c, trace)[k] == Step(c, k, trace[k]);
    }
  }

  /** Where tick j's commands sit in a run's log, when every continuing
      tick issues the same number of commands: its i-th command comes
      after the setup calls, the commands of the j ticks before it, and its
      own first i commands. */
  lemma LogOfTick(prefix: seq<Event>, ts: seq<Tick>, exit: seq<Event>, j: nat, width: nat, i: nat)
    requires j < Loop(ts, exit, 0).ticks && i < width
    requires forall k :: 0 <= k < Loop(ts, exit, 0).ticks ==> |ts[k].cmds| == width
    ensures |prefix| + width * j + i < |prefix + Loop(ts, exit, 0).log|
    ensures (prefix + Loop(ts, exit, 0).log)[|prefix| + width * j + i] == ts[j].cmds[i]
  {
    var r := Loop(ts, exit, 0);
    IssuedSplit(ts, 0, j, r.ticks);
    IssuedLength(ts, 0, j, width);
    var before := Issued(ts, 0, j);
    var after := Issued(ts, j + 1, r.ticks) + Closing(r.outcome, exit);
    assert r.log == before + ts[j].cmds + after;
    assert |before| == width * j;
    PlaceAt(prefix, before, ts[j].cmds, after, i);
  }

  /** Where a commanding tick's commands sit in a run's log: command i of
      tick j comes after the setup calls and Width(c) commands for each
      earlier tick. */
  lemma CommandAt(c: Call, trace: seq<Sample>, j: nat, i: nat)
    requires j < Execute(c, trace).ticks && i < Width(c)
    ensures Step(c, j, trace[j]).Issue? && i < |Step(c, j, trace[j]).cmds|
    ensures |Prefix(c)| + Width(c) * j + i < |Execute(c, trace).log|
    ensures Execute(c, trace).log[|Prefix(c)| + Width(c) * j + i] == Step(c, j, trace[j]).cmds[i]
  {
    Ended(c, trace, Execute(c, trace));
    TickWidths(c, trace);
    LogOfTick(Prefix(c), Ticks(c, trace), Exit(c), j, Width(c), i);
  }

  /** A loop whose continuing ticks issue nothing logs only its closing
      calls. */
  lemma LoopSilent(ts: seq<Tick>, exit: seq<Event>)
    requires forall k :: 0 <= k < Loop(ts, exit, 0).ticks ==> |ts[k].cmds| == 0
    ensures Loop(ts, exit, 0).log == Closing(Loop(ts, exit, 0).outcome, exit)
  {
    IssuedLength(ts, 0, Loop(ts, exit, 0).ticks, 0);
  }

  lemma PlaceAt<T>(p: seq<T>, a: seq<T>, b: seq<T>, c: seq<T>, i: nat)
    requires i < |b|
    ensures |p| + |a| + i < |p + (a + b + c)|
    ensures (p + (a + b + c))[|p| + |a| + i] == b[i]
  {
    assert (p + (a + b + c))[|p| + |a| + i] == (a + b + c)[|a| + i];
  }

  lemma Distribute(w: nat, n: nat)
    requires n > 0
    ensures w * n == w + w * (n - 1)
  {
  }
}
