/** The mission level of v1.py: a mission is a sequence of primitive calls
    run one after the other on the robot's sensor history; the menu runs the
    selected mission inside `try` and tells `StopMission` apart from every
    other exception (lines 306-345). */
module Mission {
  import opened Hardware
  import opened Motion

  /** A mission run: its outcome, how many calls completed normally, and
      every recorded hardware call. */
  datatype MissionRun = MissionRun(outcome: Outcome, completed: nat, log: seq<Event>)

  /** The samples one primitive run used up: its commanding ticks plus the
      tick that ended it, if one did. */
  function Consumed(r: Execution): nat
  {
    if r.outcome == Unfinished then r.ticks else r.ticks + 1
  }

  /** The samples after the first n (none when fewer remain; a primitive
      run never uses more samples than there are, see ExecuteConsumes). */
  function After(trace: seq<Sample>, n: nat): seq<Sample>
  {
    if n <= |trace| then trace[n..] else []
  }

  /** A primitive run uses up no more samples than the history holds. */
  lemma ExecuteConsumes(c: Call, trace: seq<Sample>)
    ensures Consumed(Execute(c, trace)) <= |trace|
  {
  }

  /** The log ends with `check_stop`'s three brakes. */
  predicate EndsBraked(log: seq<Event>)
  {
    EndsWith(log, AbortBrakes)
  }

  /** Every aborted run of `run` ends with the three brakes. */
  ghost predicate AbortsBraked(run: (Call, seq<Sample>) -> Execution)
  {
    forall c, trace :: run(c, trace).outcome == Abort ==> EndsBraked(run(c, trace).log)
  }

  /** The samples call i of a mission runs on: those left once calls
      0 .. i-1 have each used theirs (see ShareIsSuffix). */
  function Share(run: (Call, seq<Sample>) -> Execution, calls: seq<Call>, trace: seq<Sample>, i: nat): seq<Sample>
    requires i <= |calls|
    decreases i
  {
    if i == 0 then trace
    else Share(run, calls[1..], After(trace, Consumed(run(calls[0], trace))), i - 1)
  }

  /** Every call's share is a suffix of the history: no call sees a sample
      twice or out of order. */
  lemma {:induction false} ShareIsSuffix(run: (Call, seq<Sample>) -> Execution, calls: seq<Call>, trace: seq<Sample>, i: nat)
    requires i <= |calls|
    ensures |Share(run, calls, trace, i)| <= |trace|
    ensures Share(run, calls, trace, i) == trace[|trace| - |Share(run, calls, trace, i)|..]
    decreases i
  {
    if i > 0 {
      var later := After(trace, Consumed(run(calls[0], trace)));
      ShareIsSuffix(run, calls[1..], later, i - 1);
      AfterIsSuffix(trace, Consumed(run(calls[0], trace)));
      SuffixOfSuffix(trace, later, Share(run, calls[1..], later, i - 1));
    }
  }

  lemma AfterIsSuffix(trace: seq<Sample>, n: nat)
    ensures |After(trace, n)| <= |trace| && After(trace, n) == trace[|trace| - |After(trace, n)|..]
  {
  }

  lemma SuffixOfSuffix<T>(t: seq<T>, u: seq<T>, v: seq<T>)
    requires |u| <= |t| && u == t[|t| - |u|..]
    requires |v| <= |u| && v == u[|u| - |v|..]
    ensures |v| <= |t| && v == t[|t| - |v|..]
  {
    assert t[|t| - |u|..][|u| - |v|..] == t[|t| - |v|..];
  }

  /** The run of call i of a mission, on its share of the samples. */
  function RunOf(run: (Call, seq<Sample>) -> Execution, calls: seq<Call>, trace: seq<Sample>, i: nat): Execution
    requires i < |calls|
  {
    run(calls[i], Share(run, calls, trace, i))
  }

  /** The logs of calls 0 .. n-1 of a mission, each on its share of the
      samples, one after the other. */
  function Logs(run: (Call, seq<Sample>) -> Execution, calls: seq<Call>, trace: seq<Sample>, n: nat): seq<Event>
    requires n <= |calls|
    decreases n
  {
    if n == 0 then [] else Logs(run, calls, trace, n - 1) + RunOf(run, calls, trace, n - 1).log
  }

  /** Runs the calls in order, `run` giving the run of one call, each on
      its share of the samples. The first call that does not complete
      normally ends the mission with its outcome, so the mission succeeds
      exactly when all calls complete (SequenceFollowsCalls says which call
      decides); when every aborted call ends with the three brakes, so does
      an aborted mission. */
  function Sequence(run: (Call, seq<Sample>) -> Execution, calls: seq<Call>, trace: seq<Sample>): (r: MissionRun)
    ensures r.completed <= |calls|
    ensures r.outcome == Success <==> r.completed == |calls|
    ensures AbortsBraked(run) && r.outcome == Abort ==> EndsBraked(r.log)
    decreases |calls|
  {
    if |calls| == 0 then MissionRun(Success, 0, [])
    else
      var first := run(calls[0], trace);
      if first.outcome != Success then MissionRun(first.outcome, 0, first.log)
      else
        var rest := Sequence(run, calls[1..], After(trace, Consumed(first)));
        assert AbortsBraked(run) && rest.outcome == Abort ==> EndsBraked(first.log + rest.log) by {
          if AbortsBraked(run) && rest.outcome == Abort {
            EndsWithAppend(first.log, rest.log, AbortBrakes);
          }
        }
        MissionRun(rest.outcome, rest.completed + 1, first.log + rest.log)
  }

  /** The calls a mission completed are exactly those before the first call
      that did not complete normally, each on its share of the samples; when
      there is such a call, the mission takes its outcome and its log ends
      with that call's log. */
  lemma {:induction false} SequenceFollowsCalls(run: (Call, seq<Sample>) -> Execution, calls: seq<Call>, trace: seq<Sample>)
    ensures forall i :: 0 <= i < Sequence(run, calls, trace).completed ==> RunOf(run, calls, trace, i).outcome == Success
    ensures Sequence(run, calls, trace).completed < |calls| ==>
              Sequence(run, calls, trace).outcome == RunOf(run, calls, trace, Sequence(run, calls, trace).completed).outcome
              && EndsWith(Sequence(run, calls, trace).log, RunOf(run, calls, trace, Sequence(run, calls, trace).completed).log)
    decreases |calls|
  {
    var r := Sequence(run, calls, trace);
    if |calls| > 0 {
      var first := run(calls[0], trace);
      assert RunOf(run, calls, trace, 0) == first;
      if first.outcome != Success {
        assert first.log[|first.log| - |first.log|..] == first.log;
      } else {
        var later := After(trace, Consumed(first));
        var rest := Sequence(run, calls[1..], later);
        SequenceFollowsCalls(run, calls[1..], later);
        assert r == MissionRun(rest.outcome, rest.completed + 1, first.log + rest.log);
        forall i | 0 <= i < r.completed
          ensures RunOf(run, calls, trace, i).outcome == Success
        {
          if i > 0 {
            RunOfShift(run, calls, trace, i - 1);
          }
        }
        if r.completed < |calls| {
          var f := RunOf(run, calls, trace, r.completed);
          RunOfShift(run, calls, trace, rest.completed);
          EndsWithAppend(first.log, rest.log, f.log);
        }
      }
    }
  }

  /** A mission's log is the logs of its completed calls in order,
      followed by the log of the call that did not complete, if any. */
  lemma {:induction false} SequenceLog(run: (Call, seq<Sample>) -> Execution, calls: seq<Call>, trace: seq<Sample>)
    ensures Sequence(run, calls, trace).log ==
              Logs(run, calls, trace, Sequence(run, calls, trace).completed)
              + (if Sequence(run, calls, trace).completed < |calls|
                 then RunOf(run, calls, trace, Sequence(run, calls, trace).completed).log else [])
    decreases |calls|
  {
    var r := Sequence(run, calls, trace);
    if |calls| > 0 {
      var first := run(calls[0], trace);
      if first.outcome != Success {
        assert RunOf(run, calls, trace, 0) == first;
        assert r.log == [] + first.log;
      } else {
        var later := After(trace, Consumed(first));
        var rest := Sequence(run, calls[1..], later);
        SequenceLog(run, calls[1..], later);
        assert r == MissionRun(rest.outcome, rest.completed + 1, first.log + rest.log);
        LogStep(run, calls, trace, rest.completed, rest.log);
      }
    }
  }

  /** The log equation of SequenceLog carried over one completed first
      call. */
  lemma LogStep(run: (Call, seq<Sample>) -> Execution, calls: seq<Call>, trace: seq<Sample>, k: nat, restLog: seq<Event>)
    requires 0 < |calls| && k < |calls|
    requires restLog ==
               Logs(run, calls[1..], After(trace, Consumed(run(calls[0], trace))), k)
               + (if k < |calls| - 1 then RunOf(run, calls[1..], After(trace, Consumed(run(calls[0], trace))), k).log else [])
    ensures run(calls[0], trace).log + restLog ==
              Logs(run, calls, trace, k + 1)
              + (if k + 1 < |calls| then RunOf(run, calls, trace, k + 1).log else [])
  {
    var later := After(trace, Consumed(run(calls[0], trace)));
    var tail := if k < |calls| - 1 then RunOf(run, calls[1..], later, k).log else [];
    if k < |calls| - 1 {
      RunOfShift(run, calls, trace, k);
    }
    LogsShift(run, calls, trace, k);
    assert run(calls[0], trace).log + restLog == (run(calls[0], trace).log + Logs(run, calls[1..], later, k)) + tail;
  }

  /** After a first call that completes normally, the logs of the first
      n + 1 calls are its log followed by those of the first n remaining
      calls on the remaining samples. */
  lemma {:induction false} LogsShift(run: (Call, seq<Sample>) -> Execution, calls: seq<Call>, trace: seq<Sample>, n: nat)
    requires n < |calls|
    ensures Logs(run, calls, trace, n + 1) ==
              run(calls[0], trace).log + Logs(run, calls[1..], After(trace, Consumed(run(calls[0], trace))), n)
    decreases n
  {
    var first := run(calls[0], trace);
    var later := After(trace, Consumed(first));
    if n == 0 {
      assert RunOf(run, calls, trace, 0) == first;
      assert Logs(run, calls, trace, 1) == [] + first.log;
    } else {
      LogsShift(run, calls, trace, n - 1);
      RunOfShift(run, calls, trace, n - 1);
      var before := Logs(run, calls[1..], later, n - 1);
      var last := RunOf(run, calls[1..], later, n - 1).log;
      assert Logs(run, calls, trace, n + 1) == (first.log + before) + last;
      assert Logs(run, calls[1..], later, n) == before + last;
    }
  }

  /** After a first call that completes normally, call i + 1 runs as call
      i of the remaining calls on the remaining samples. */
  lemma RunOfShift(run: (Call, seq<Sample>) -> Execution, calls: seq<Call>, trace: seq<Sample>, i: nat)
    requires i + 1 < |calls|
    ensures RunOf(run, calls, trace, i + 1) == RunOf(run, calls[1..], After(trace, Consumed(run(calls[0], trace))), i)
  {
  }

  /** The primitives' own runs end with the three brakes whenever they
      abort. */
  lemma ExecuteAbortsBraked()
    ensures AbortsBraked(Execute)
  {
    forall c, trace | Execute(c, trace).outcome == Abort
      ensures EndsBraked(Execute(c, trace).log)
    {
      AbortBrakesAll(c, trace, Motors(Brake, Brake, Brake));
    }
  }

  /** A mission of v1.py: its calls run in order on the robot's sensor
      history, each on its share of the samples. The calls before the
      `completed`-th completed normally, and the mission succeeds exactly
      when all did; otherwise it takes the outcome of the first call that
      did not, and its log ends with that call's log, so after an abort it
      ends with the three brakes. */
  function RunMission(calls: seq<Call>, trace: seq<Sample>): (r: MissionRun)
    ensures r.completed <= |calls|
    ensures forall i :: 0 <= i < r.completed ==> RunOf(Execute, calls, trace, i).outcome == Success
    ensures r.outcome == Success <==> r.completed == |calls|
    ensures r.completed < |calls| ==>
              r.outcome == RunOf(Execute, calls, trace, r.completed).outcome
              && EndsWith(r.log, RunOf(Execute, calls, trace, r.completed).log)
    ensures r.log == Logs(Execute, calls, trace, r.completed)
                     + (if r.completed < |calls| then RunOf(Execute, calls, trace, r.completed).log else [])
    ensures r.outcome == Abort ==> EndsBraked(r.log)
  {
    ExecuteAbortsBraked();
    SequenceFollowsCalls(Execute, calls, trace);
    SequenceLog(Execute, calls, trace);
    Sequence(Execute, calls, trace)
  }

  /** Which signal the menu gives is decided by the first call that does
      not complete normally: "stopped by operator" exactly when it aborted
      (its `check_stop` raised `StopMission`), the failure beep exactly when
      it failed otherwise. */
  lemma FirstUnfinishedCallDecides(calls: seq<Call>, trace: seq<Sample>, i: nat)
    requires i < |calls|
    requires forall k :: 0 <= k < i ==> RunOf(Execute, calls, trace, k).outcome == Success
    requires RunOf(Execute, calls, trace, i).outcome != Success
    ensures RunMission(calls, trace).completed == i
    ensures Dispatch(RunMission(calls, trace).outcome) == OperatorStop <==> RunOf(Execute, calls, trace, i).outcome == Abort
    ensures Dispatch(RunMission(calls, trace).outcome) == FailureBeep <==> RunOf(Execute, calls, trace, i).outcome == Fault
  {
  }

  /** The menu gives the success beep exactly when every call of the
      mission completes normally, each on its share of the samples. */
  lemma SuccessBeepIffAllComplete(calls: seq<Call>, trace: seq<Sample>)
    ensures Dispatch(RunMission(calls, trace).outcome) == SuccessBeep <==>
              forall k :: 0 <= k < |calls| ==> RunOf(Execute, calls, trace, k).outcome == Success
  {
    var r := RunMission(calls, trace);
    if r.completed < |calls| {
      assert RunOf(Execute, calls, trace, r.completed).outcome != Success;
    }
  }

  /** Once a call has aborted or failed, no later call runs: appending more
      calls to the mission changes nothing. */
  lemma LaterCallsNeverRun(calls: seq<Call>, more: seq<Call>, trace: seq<Sample>)
    requires RunMission(calls, trace).outcome != Success
    ensures RunMission(calls + more, trace) == RunMission(calls, trace)
  {
    SequenceStops(Execute, calls, more, trace);
  }

  lemma {:induction false} SequenceStops(run: (Call, seq<Sample>) -> Execution, calls: seq<Call>, more: seq<Call>, trace: seq<Sample>)
    requires Sequence(run, calls, trace).outcome != Success
    ensures Sequence(run, calls + more, trace) == Sequence(run, calls, trace)
    decreases |calls|
  {
    var all := calls + more;
    assert all[0] == calls[0];
    if run(calls[0], trace).outcome == Success {
      var rest := After(trace, Consumed(run(calls[0], trace)));
      assert all[1..] == calls[1..] + more;
      SequenceStops(run, calls[1..], more, rest);
    }
  }

  /** An aborted mission leaves all three motors braked, whatever they were
      doing before it started. */
  lemma MissionAbortBrakesAll(calls: seq<Call>, trace: seq<Sample>, m: Motors)
    requires RunMission(calls, trace).outcome == Abort
    ensures ApplyAll(m, RunMission(calls, trace).log) == Motors(Brake, Brake, Brake)
  {
    var log := RunMission(calls, trace).log;
    assert EndsBraked(log);
    assert log == log[..|log| - 3] + AbortBrakes;
    AbortLeavesAllBraked(m, log[..|log| - 3]);
  }

  /** What the menu signals after a mission: the success beep, the orange
      "stopped by operator" signal, or the failure beep; a mission whose
      samples ran out is still running. */
  datatype Signal = SuccessBeep | OperatorStop | FailureBeep | StillRunning

  /** The `try` / `except StopMission` / `except` of the menu. */
  function Dispatch(o: Outcome): (s: Signal)
    ensures s == OperatorStop <==> o == Abort
    ensures s == FailureBeep <==> o == Fault
    ensures s == SuccessBeep <==> o == Success
  {
    match o
    case Success => SuccessBeep
    case Abort => OperatorStop
    case Fault => FailureBeep
    case Unfinished => StillRunning
  }

  /** When the menu shows "stopped by operator", the motors are already
      braked; the failure beep carries no such promise (see
      Primitives.GyroBackAccelCanFault). */
  lemma OperatorStopMeansBraked(calls: seq<Call>, trace: seq<Sample>, m: Motors)
    requires Dispatch(RunMission(calls, trace).outcome) == OperatorStop
    ensures ApplyAll(m, RunMission(calls, trace).log) == Motors(Brake, Brake, Brake)
  {
    MissionAbortBrakesAll(calls, trace, m);
  }

  /** The menu's mission count. */
  const MissionCount: int := 8

  /** RIGHT: the next mission, wrapping from the last to the first. Python's
      `%` by a positive number agrees with Dafny's. */
  function NextMission(current: int): (n: int)
    ensures 0 <= n < MissionCount
    ensures (n - current - 1) % MissionCount == 0
    ensures 0 <= current < MissionCount - 1 ==> n == current + 1
  {
    (current + 1) % MissionCount
  }

  /** LEFT: the previous mission, wrapping from the first to the last. */
  function PreviousMission(current: int): (n: int)
    ensures 0 <= n < MissionCount
    ensures (n - current + 1) % MissionCount == 0
    ensures 0 < current < MissionCount ==> n == current - 1
  {
    (current - 1) % MissionCount
  }

  /** LEFT undoes RIGHT and RIGHT undoes LEFT on every valid index, and
      both wrap at the ends. */
  lemma MenuRoundTrip(current: int)
    requires 0 <= current < MissionCount
    ensures PreviousMission(NextMission(current)) == current
    ensures NextMission(PreviousMission(current)) == current
  {
  }

  lemma MenuWraps()
    ensures PreviousMission(0) == 7
    ensures NextMission(7) == 0
  {
  }
}
