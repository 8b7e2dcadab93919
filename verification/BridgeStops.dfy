/**
 Stopping takes a bounded number of steps: once Destroy is latched, every step the supervisor takes with its deadlines
 passed brings it closer to its end, whatever the other threads do and whether or not the threads of the session end.
 */
module BridgeStops {
  import Quiesce
  import opened BridgeLifecycle
  import opened BridgeEndings

  /** An exchange to Restart that has not seen a latched value fails once. */
  function Failing(b: Bridge): nat {
    if Rank(b.latch.supervisorCur) < Rank(Restart) then 1 else 0
  }

  /** Steps to the end of the loop of run_session_loop, when Destroy is latched. */
  function LoopDistance(s: Supervisor): nat {
    match s
    case AfterNoRespawn => 5
    case Backoff => 4
    case LoopDesired => 3
    case LoopNoRespawn => 42
    case TestRun => 41
    case StartDesired => 40
    case StartNoRespawn => 39
    case Prepare => 38
    case _ => 37
  }

  function SessionDistance(b: Bridge): nat {
    match b.supervisor
    case Hello => 36
    case HelloFailed => 35
    case HelloNoRespawn => 34
    case HelloDesired => 33
    case HelloLatchLoad => 32
    case HelloLatchExchange => 30 + Failing(b)
    case StartFailed => 29
    case LatchLoad => 28
    case LatchExchange => 26 + Failing(b)
    case TestWait => 25
    case Waiting => 24
    case _ => 23
  }

  function TeardownDistance(s: Supervisor): nat {
    match s
    case JoinWriter => 22
    case JoinReader => 21
    case JoinHeartbeat => 20
    case DecideDesired => 19
    case DecideNoRespawn => 18
    case ClearQueue => 17
    case Exchange => 16
    case DecideAgain => 15
    case _ => 14
  }

  function EndDistance(b: Bridge): nat {
    match b.supervisor
    case EnterTerminal => 13
    case Draining => if b.end.audio.phase.NotBegun? then 12 else 11
    case Releasing => 10
    case StoreInactive => 9
    case Degrading => 9
    case ClearQueueLast => 8
    case _ => 7
  }

  function LeaveDistance(s: Supervisor): nat {
    match s
    case TeardownOver => 6
    case Leaving => 2
    case LeavingJoins => 1
    case _ => 0
  }

  const LONGEST := 42

  function Distance(b: Bridge): (n: nat)
    ensures n <= LONGEST
    ensures n == 0 <==> b.supervisor.Done?
  {
    if BetweenSessions(b.supervisor) then LoopDistance(b.supervisor)
    else if InSession(b.supervisor) then SessionDistance(b)
    else if Joining(b.supervisor) || Deciding(b.supervisor) then TeardownDistance(b.supervisor)
    else if Ending(b.supervisor) then EndDistance(b)
    else LeaveDistance(b.supervisor)
  }

  /** `t` is closer to the end, or, if the step was taken before its deadline, no further from it. */
  predicate Closer(b: Bridge, t: Bridge, patient: bool) {
    if patient then Distance(t) < Distance(b) else Distance(t) <= Distance(b)
  }

  lemma LoopCloser(b: Bridge)
    requires BetweenSessions(b.supervisor) && !b.supervisor.Spawn? && b.latch.desired.Destroy?
    ensures Closer(b, LoopStep(b), true)
  {
  }

  lemma SpawnCloser(b: Bridge, ok: bool)
    requires b.supervisor.Spawn?
    ensures Closer(b, SpawnStep(b, ok), true)
  {
  }

  lemma SessionCloser(b: Bridge, ok: bool)
    requires InSession(b.supervisor) && b.latch.desired.Destroy?
    ensures Closer(b, SessionStep(b, ok), true)
  {
  }

  lemma JoinCloser(b: Bridge, deadline: bool)
    requires Joining(b.supervisor)
    ensures Closer(b, JoinStep(b, deadline), deadline)
  {
  }

  lemma DecideCloser(b: Bridge)
    requires Deciding(b.supervisor) && b.latch.desired.Destroy?
    ensures Closer(b, DecideStep(b), true)
  {
  }

  lemma EndCloser(b: Bridge, deadline: bool)
    requires Ending(b.supervisor)
    ensures Closer(b, EndStep(b, deadline), deadline)
  {
  }

  lemma LeaveCloser(b: Bridge)
    requires (b.supervisor.TeardownOver? || Left(b.supervisor)) && !b.supervisor.Done?
    requires b.supervisor.LeavingJoins? ==> b.session.NoneLeft()
    ensures Closer(b, LeaveStep(b), true)
  {
  }

  lemma SupervisorCloser(b: Bridge, chance: bool)
    requires Invariant(b) && b.latch.desired.Destroy? && !b.supervisor.Done?
    ensures Closer(b, SupervisorStep(b, chance), chance)
  {
    if b.supervisor.Spawn? {
      SpawnCloser(b, chance);
    } else if BetweenSessions(b.supervisor) {
      LoopCloser(b);
    } else if InSession(b.supervisor) {
      SessionCloser(b, chance);
    } else if Joining(b.supervisor) {
      JoinCloser(b, chance);
    } else if Deciding(b.supervisor) {
      DecideCloser(b);
    } else if Ending(b.supervisor) {
      EndCloser(b, chance);
    } else {
      if b.supervisor.LeavingJoins? {
        LeavingFindsNoThread(b);
      }
      LeaveCloser(b);
    }
  }

  lemma DoneStays(b: Bridge, chance: bool)
    requires b.supervisor.Done?
    ensures SupervisorStep(b, chance) == b
  {
  }

  /** The other threads do not set the supervisor back. */
  lemma OthersNoFurther(b: Bridge, a: Action)
    requires !a.Supervise?
    ensures Closer(b, Step(b, a), false)
  {
    assert Step(b, a).supervisor == b.supervisor && Failing(Step(b, a)) == Failing(b);
    assert Step(b, a).end.audio.phase == b.end.audio.phase;
  }

  /** How many of the steps are the supervisor's, taken with its deadlines passed. */
  function Patience(actions: seq<Action>): nat {
    if actions == [] then 0 else (if actions[0] == Supervise(true) then 1 else 0) + Patience(actions[1..])
  }

  lemma {:induction false} ComesToItsEnd(b: Bridge, actions: seq<Action>)
    requires Invariant(b) && EpochInvariant(b.session, b.supervisor) && b.latch.desired.Destroy?
    requires Patience(actions) >= Distance(b)
    ensures RunAll(b, actions).supervisor.Done?
    decreases actions
  {
    if actions != [] {
      var a := actions[0];
      StepKeeps(b, a);
      DestroyStaysOneStep(b, a);
      if !a.Supervise? {
        OthersNoFurther(b, a);
      } else if b.supervisor.Done? {
        DoneStays(b, a.chance);
      } else {
        SupervisorCloser(b, a.chance);
      }
      ComesToItsEnd(Step(b, a), actions[1..]);
    }
  }

  /**
   From any state with Destroy latched, in any interleaving: the supervisor is done after at most 42 of its own steps
   taken with the deadlines passed.
   */
  lemma StopIsBounded(before: seq<Action>, actions: seq<Action>)
    requires RunAll(Started(), before).latch.desired.Destroy? && Patience(actions) >= LONGEST
    ensures RunAll(Started(), before + actions).supervisor.Done?
  {
    StartedInvariant();
    RunKeeps(Started(), before);
    ComesToItsEnd(RunAll(Started(), before), actions);
    RunThen(Started(), before, actions);
  }

  function Repeat(a: Action, n: nat): (actions: seq<Action>)
    ensures |actions| == n
  {
    if n == 0 then [] else [a] + Repeat(a, n - 1)
  }

  lemma {:induction false} RepeatPatient(n: nat)
    ensures Patience(Repeat(Supervise(true), n)) == n
  {
    if n > 0 {
      RepeatPatient(n - 1);
    }
  }

  lemma FourSteps(b: Bridge, a: Action)
    ensures RunAll(b, [a, a, a, a]) == Step(Step(Step(Step(b, a), a), a), a)
  {
    RunOne(b, a, [a, a, a]);
    RunOne(Step(b, a), a, [a, a]);
    RunOne(Step(Step(b, a), a), a, [a]);
    RunOne(Step(Step(Step(b, a), a), a), a, []);
    assert [a, a, a, a] == [a] + [a, a, a] && [a, a, a] == [a] + [a, a] && [a, a] == [a] + [a] && [a] == [a] + [];
  }

  lemma StopLatches(b: Bridge)
    requires b.stopper.NotStopping?
    ensures var t := RunAll(b, [Stop, Stop, Stop, Stop]);
      t.latch.desired.Destroy? && t.stopper.JoinSupervisor? && t.supervisor == b.supervisor
  {
    FourSteps(b, Stop);
  }

  lemma StopperWaits(b: Bridge, a: Action)
    requires a.Supervise?
    ensures Step(b, a).stopper == b.stopper
  {
  }

  lemma {:induction false} StopperWaitsAll(b: Bridge, n: nat)
    ensures RunAll(b, Repeat(Supervise(true), n)).stopper == b.stopper
    decreases n
  {
    if n > 0 {
      var a := Supervise(true);
      StopperWaits(b, a);
      assert Repeat(a, n)[1..] == Repeat(a, n - 1);
      StopperWaitsAll(Step(b, a), n - 1);
    }
  }

  lemma StopJoined(b: Bridge)
    requires Invariant(b) && b.stopper.JoinSupervisor? && b.supervisor.Done?
    ensures RunAll(b, [Stop, Stop]).stopper.Stopped?
  {
    RunOne(b, Stop, [Stop]);
    RunOne(Step(b, Stop), Stop, []);
    assert [Stop, Stop] == [Stop] + [Stop] && [Stop] == [Stop] + [];
  }

  /** A stop called at any point of any lifetime can return, though no thread of the session ever ends. */
  lemma StopReturns(before: seq<Action>)
    requires RunAll(Started(), before).stopper.NotStopping?
    ensures RunAll(Started(), before + ([Stop, Stop, Stop, Stop] + (Repeat(Supervise(true), LONGEST) + [Stop, Stop])))
            .stopper.Stopped?
  {
    var b := RunAll(Started(), before);
    var waits := Repeat(Supervise(true), LONGEST);
    StartedInvariant();
    RunKeeps(Started(), before);
    StopLatches(b);
    RunKeeps(b, [Stop, Stop, Stop, Stop]);
    var t := RunAll(b, [Stop, Stop, Stop, Stop]);
    RepeatPatient(LONGEST);
    ComesToItsEnd(t, waits);
    StopperWaitsAll(t, LONGEST);
    RunKeeps(t, waits);
    StopJoined(RunAll(t, waits));
    RunThen(t, waits, [Stop, Stop]);
    RunThen(b, [Stop, Stop, Stop, Stop], waits + [Stop, Stop]);
    RunThen(Started(), before, [Stop, Stop, Stop, Stop] + (waits + [Stop, Stop]));
  }
}
