// cmd/gosmart/main.go: runWithTimeout, as a transition system.  A worker goroutine runs
// fn and sends its result on a channel of capacity one; main receives it or, when a
// timeout is set, gives up once the timer has fired.  The scheduler may interleave the
// steps in any order, and fn may never return.
module RunTimeout {
  import opened GoInt

  datatype Outcome = Ok | Failed

  // The parameters of one call: fn's outcome is None when it blocks forever.
  datatype Call = Call(timeoutSec: int, outcome: Option<Outcome>)

  datatype Worker = Running | Sending(result: Outcome) | Finished

  datatype Main = Waiting | Returned(code: int)

  datatype Message = ErrorMessage | TimeoutMessage

  datatype State = State(worker: Worker, channel: seq<Outcome>, fired: bool, main: Main, stderr: seq<Message>)

  datatype Action = FnReturns | Send | TimerFires | Receive | GiveUp

  const CAPACITY := 1
  const EXIT_TIMEOUT := 2

  const START := State(Running, [], false, Waiting, [])

  function ExitCode(r: Outcome): int { if r == Ok then 0 else 1 }

  // The state after an action, where the action is possible.
  function Next(c: Call, s: State, a: Action): Option<State> {
    match a
    case FnReturns =>
      if s.worker.Running? && c.outcome.Some? then Some(s.(worker := Sending(c.outcome.value))) else None
    case Send =>
      if s.worker.Sending? && |s.channel| < CAPACITY
      then Some(s.(worker := Finished, channel := s.channel + [s.worker.result])) else None
    case TimerFires =>
      if c.timeoutSec != 0 && !s.fired && s.main.Waiting? then Some(s.(fired := true)) else None
    case Receive =>
      if s.main.Waiting? && s.channel != [] then
        var r := s.channel[0];
        Some(s.(channel := s.channel[1..], main := Returned(ExitCode(r)),
                stderr := s.stderr + if r == Failed then [ErrorMessage] else []))
      else None
    case GiveUp =>
      if s.main.Waiting? && c.timeoutSec != 0 && s.fired
      then Some(s.(main := Returned(EXIT_TIMEOUT), stderr := s.stderr + [TimeoutMessage])) else None
  }

  // The state a run of actions leads to, where every action of it is possible.
  function Run(c: Call, run: seq<Action>): Option<State> {
    if run == [] then Some(START)
    else
      var s := Run(c, run[..|run| - 1]);
      if s.None? then None else Next(c, s.value, run[|run| - 1])
  }

  ghost predicate Reachable(c: Call, s: State) { exists run :: Run(c, run) == Some(s) }

  // What every step keeps.
  ghost predicate Inv(c: Call, s: State) {
    // the worker holds, or has handed over, fn's outcome, once
    && (!s.worker.Running? ==> c.outcome.Some?)
    && (s.worker.Sending? ==> s.worker.result == c.outcome.value)
    && (!s.worker.Finished? ==> s.channel == [])
    && (s.channel != [] ==> s.channel == [c.outcome.value])
    && (s.worker.Finished? && s.main.Waiting? ==> s.channel != [])
    && (s.fired ==> c.timeoutSec != 0)
    // each exit code has its one cause and its one message
    && match s.main
       case Waiting => s.stderr == []
       case Returned(code) =>
         || (code == 0 && c.outcome == Some(Ok) && s.stderr == [] && s.channel == [] && s.worker.Finished?)
         || (code == 1 && c.outcome == Some(Failed) && s.stderr == [ErrorMessage] && s.channel == []
             && s.worker.Finished?)
         || (code == EXIT_TIMEOUT && s.fired && s.stderr == [TimeoutMessage])
  }

  lemma StepKeepsInv(c: Call, s: State, a: Action)
    requires Inv(c, s) && Next(c, s, a).Some?
    ensures Inv(c, Next(c, s, a).value)
  {
  }

  lemma {:induction false} RunKeepsInv(c: Call, run: seq<Action>)
    requires Run(c, run).Some?
    ensures Inv(c, Run(c, run).value)
  {
    if run != [] {
      RunKeepsInv(c, run[..|run| - 1]);
      StepKeepsInv(c, Run(c, run[..|run| - 1]).value, run[|run| - 1]);
    }
  }

  // Whatever the interleaving, and also after main has given up: the worker's send is
  // possible the moment it is attempted, and the channel never holds a second value.
  lemma SendNeverBlocks(c: Call, s: State)
    requires Reachable(c, s)
    ensures s.worker.Sending? ==> Next(c, s, Send).Some?
    ensures |s.channel| <= CAPACITY
  {
    var run :| Run(c, run) == Some(s);
    RunKeepsInv(c, run);
  }

  // A run has taken exactly the steps its state shows, each once; so there are never
  // more than four, and in particular at most one send.
  ghost function Steps(s: State): nat {
    (if s.worker.Running? then 0 else 1) + (if s.worker.Finished? then 1 else 0)
    + (if s.fired then 1 else 0) + (if s.main.Returned? then 1 else 0)
  }

  lemma {:induction false} EachActionOnce(c: Call, run: seq<Action>)
    requires Run(c, run).Some?
    ensures |run| == Steps(Run(c, run).value) <= 4
    ensures Send in run <==> Run(c, run).value.worker.Finished?
    ensures multiset(run)[Send] <= 1
  {
    if run != [] {
      var k := |run| - 1;
      EachActionOnce(c, run[..k]);
      assert run == run[..k] + [run[k]];
    }
  }

  // The codes a call can return, over all interleavings.
  ghost predicate Possible(c: Call, code: int) {
    || (code == EXIT_TIMEOUT && c.timeoutSec != 0)
    || (c.outcome.Some? && code == ExitCode(c.outcome.value))
  }

  ghost predicate Returns(c: Call, code: int) {
    exists s :: Reachable(c, s) && s.main == Returned(code)
  }

  // Exactly the possible codes are returned: 0 only for success, 1 only for failure, 2 only
  // with a timeout set; and the scheduler can bring about each of them.
  lemma ReturnsIff(c: Call, code: int)
    ensures Returns(c, code) <==> Possible(c, code)
  {
    if Returns(c, code) {
      var s :| Reachable(c, s) && s.main == Returned(code);
      var run :| Run(c, run) == Some(s);
      RunKeepsInv(c, run);
    }
    if code == EXIT_TIMEOUT && c.timeoutSec != 0 {
      RunTwo(c, TimerFires, GiveUp);
    } else if Possible(c, code) {
      RunThree(c, FnReturns, Send, Receive);
    }
  }

  lemma RunTwo(c: Call, a: Action, b: Action)
    requires Next(c, START, a).Some? && Next(c, Next(c, START, a).value, b).Some?
    ensures Reachable(c, Next(c, Next(c, START, a).value, b).value)
  {
    assert [a][..0] == [] && [a, b][..1] == [a];
    assert Run(c, [a]) == Next(c, START, a);
    assert Run(c, [a, b]) == Next(c, Next(c, START, a).value, b);
  }

  lemma RunThree(c: Call, a: Action, b: Action, d: Action)
    requires Next(c, START, a).Some?
    requires Next(c, Next(c, START, a).value, b).Some?
    requires Next(c, Next(c, Next(c, START, a).value, b).value, d).Some?
    ensures Reachable(c, Next(c, Next(c, Next(c, START, a).value, b).value, d).value)
  {
    assert [a][..0] == [] && [a, b][..1] == [a] && [a, b, d][..2] == [a, b];
    assert Run(c, [a]) == Next(c, START, a);
    assert Run(c, [a, b]) == Next(c, Next(c, START, a).value, b);
    assert Run(c, [a, b, d]) == Next(c, Next(c, Next(c, START, a).value, b).value, d);
  }

  // A run that cannot go on has returned, unless fn blocks forever with no timeout set;
  // and then main waits forever.
  lemma StuckIff(c: Call, s: State)
    requires Reachable(c, s)
    ensures (forall a :: Next(c, s, a).None?) && s.main.Waiting?
            <==> s == START && c.outcome.None? && c.timeoutSec == 0
  {
    var run :| Run(c, run) == Some(s);
    RunKeepsInv(c, run);
    if (forall a :: Next(c, s, a).None?) && s.main.Waiting? {
      assert Next(c, s, FnReturns).None? && Next(c, s, Send).None? && Next(c, s, TimerFires).None?;
      assert Next(c, s, Receive).None? && Next(c, s, GiveUp).None?;
    }
  }
}
