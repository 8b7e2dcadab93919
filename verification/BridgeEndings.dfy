/**
 How lifetimes of the bridge go: which terminal state a last teardown chooses, and that the ordinary lifetimes, with a
 session, a restart and a stop, get where they should.
 */
module BridgeEndings {
  import opened BridgeLifecycle
  import Quiesce

  // ---------- Which terminal state ----------

  /** The phase of the quiesce says where the last teardown is, and which terminal state it sets. */
  predicate Chosen(e: End, detached: nat, at: Supervisor) {
    && (e.terminal.Degraded? ==> detached > 0 || e.audio.phase.TimedOut?)
    && (e.terminal.Inactive? ==> e.audio.phase.Drained? && detached == 0)
    && (e.audio.phase.Waiting? ==> at.Draining? && e.terminal.NotTerminal?)
    && (e.audio.phase.TimedOut? ==> e.terminal.Degraded? || at.Degrading?)
    && (e.audio.phase.Drained? ==> e.terminal.Inactive? || at.Releasing? || at.StoreInactive?)
    && (at.Degrading? ==> e.audio.phase.TimedOut?)
    && (at.Releasing? || at.StoreInactive? ==> e.audio.phase.Drained? && e.terminal.NotTerminal?)
  }

  lemma EndChooses(b: Bridge, chance: bool)
    requires Invariant(b) && Chosen(b.end, b.session.detached, b.supervisor) && Ending(b.supervisor)
    ensures var t := SupervisorStep(b, chance); Chosen(t.end, t.session.detached, t.supervisor)
  {
  }

  lemma JoinChooses(b: Bridge, chance: bool)
    requires Invariant(b) && Chosen(b.end, b.session.detached, b.supervisor) && Joining(b.supervisor)
    ensures var t := SupervisorStep(b, chance); Chosen(t.end, t.session.detached, t.supervisor)
  {
  }

  /** A step that neither joins nor ends changes nothing of this. */
  predicate Keeps(b: Bridge, t: Bridge) {
    && t.session.detached == b.session.detached && t.end.terminal == b.end.terminal && t.end.audio == b.end.audio
    && !Closing(t.supervisor)
  }

  lemma SessionChooses(b: Bridge, chance: bool)
    requires InSession(b.supervisor)
    ensures Keeps(b, SessionStep(b, chance))
  {
  }

  lemma LoopChooses(b: Bridge)
    requires BetweenSessions(b.supervisor)
    ensures Keeps(b, LoopStep(b))
  {
  }

  lemma DecideChooses(b: Bridge)
    requires Deciding(b.supervisor)
    ensures Keeps(b, DecideStep(b))
  {
  }

  lemma LeaveChooses(b: Bridge)
    requires b.supervisor.TeardownOver? || Left(b.supervisor)
    ensures Keeps(b, LeaveStep(b))
  {
  }

  lemma OthersChoose(b: Bridge, chance: bool)
    requires Chosen(b.end, b.session.detached, b.supervisor) && !Ending(b.supervisor) && !Joining(b.supervisor)
    ensures var t := SupervisorStep(b, chance); Chosen(t.end, t.session.detached, t.supervisor)
  {
    if b.supervisor.Spawn? {
      assert Keeps(b, SpawnStep(b, chance));
    } else if BetweenSessions(b.supervisor) {
      LoopChooses(b);
    } else if InSession(b.supervisor) {
      SessionChooses(b, chance);
    } else if Deciding(b.supervisor) {
      DecideChooses(b);
    } else {
      LeaveChooses(b);
    }
  }

  lemma StepChooses(b: Bridge, a: Action)
    requires Invariant(b) && Chosen(b.end, b.session.detached, b.supervisor)
    ensures var t := Step(b, a); Chosen(t.end, t.session.detached, t.supervisor)
  {
    match a
    case Supervise(chance) =>
      if Ending(b.supervisor) {
        EndChooses(b, chance);
      } else if Joining(b.supervisor) {
        JoinChooses(b, chance);
      } else {
        OthersChoose(b, chance);
      }
    case _ =>
      var t := Step(b, a);
      assert t.supervisor == b.supervisor && t.session.detached == b.session.detached
        && t.end.terminal == b.end.terminal;
      assert t.end.audio.phase == b.end.audio.phase;
  }

  lemma {:induction false} RunChooses(b: Bridge, actions: seq<Action>)
    requires Invariant(b) && EpochInvariant(b.session, b.supervisor) && Chosen(b.end, b.session.detached, b.supervisor)
    ensures var t := RunAll(b, actions); Invariant(t) && Chosen(t.end, t.session.detached, t.supervisor)
    decreases actions
  {
    if actions != [] {
      StepKeeps(b, actions[0]);
      StepChooses(b, actions[0]);
      RunChooses(Step(b, actions[0]), actions[1..]);
    }
  }

  /**
   At the end of every lifetime that has a terminal state: it is Degraded exactly when a thread was given up or the
   quiesce timed out, and Inactive, with the ring released, exactly when no thread was given up and the audio path was
   drained.
   */
  lemma WhichStateIff(actions: seq<Action>)
    ensures var b := RunAll(Started(), actions);
      b.supervisor.Done? && !b.end.terminal.NotTerminal? ==>
        && (b.end.terminal.Degraded? <==> b.session.detached > 0 || b.end.audio.phase.TimedOut?)
        && (b.end.terminal.Inactive? <==> b.session.detached == 0 && b.end.audio.phase.Drained?)
        && (b.end.ringReleased <==> b.end.audio.phase.Drained?)
  {
    StartedInvariant();
    RunChooses(Started(), actions);
  }

  // ---------- What the two flags tell ----------

  predicate LoopLeft(at: Supervisor) {
    at.LeavingJoins? || at.Done?
  }

  /** No respawn is allowed, and the bridge does not run, exactly for these reasons. */
  predicate Flagged(l: Latch, terminal: Terminal, stopper: Stopper, at: Supervisor) {
    && (l.noRespawn <==> terminal.Degraded? || !stopper.NotStopping?)
    && (!l.running <==>
          terminal.Degraded? || stopper.JoinSupervisor? || stopper.StopJoins? || stopper.Stopped? || LoopLeft(at))
  }

  predicate FlagsTell(b: Bridge) {
    Flagged(b.latch, b.end.terminal, b.stopper, b.supervisor)
  }

  lemma EndFlags(b: Bridge, deadline: bool)
    requires FlagsTell(b) && Ending(b.supervisor) && (Closing(b.supervisor) ==> b.end.terminal.NotTerminal?)
    ensures FlagsTell(EndStep(b, deadline))
  {
  }

  lemma JoinFlags(b: Bridge, deadline: bool)
    requires FlagsTell(b) && Joining(b.supervisor)
    ensures FlagsTell(JoinStep(b, deadline))
  {
  }

  lemma LeaveFlags(b: Bridge)
    requires FlagsTell(b) && (b.supervisor.TeardownOver? || Left(b.supervisor))
    ensures FlagsTell(LeaveStep(b))
  {
  }

  lemma LoopFlags(b: Bridge)
    requires FlagsTell(b) && BetweenSessions(b.supervisor)
    ensures FlagsTell(LoopStep(b))
  {
  }

  lemma SessionFlags(b: Bridge, ok: bool)
    requires FlagsTell(b) && InSession(b.supervisor)
    ensures FlagsTell(SessionStep(b, ok))
  {
  }

  lemma DecideFlags(b: Bridge)
    requires FlagsTell(b) && Deciding(b.supervisor)
    ensures FlagsTell(DecideStep(b))
  {
  }

  lemma SupervisorFlags(b: Bridge, chance: bool)
    requires FlagsTell(b) && (Closing(b.supervisor) ==> b.end.terminal.NotTerminal?)
    ensures FlagsTell(SupervisorStep(b, chance))
  {
    if b.supervisor.Spawn? {
      assert FlagsTell(SpawnStep(b, chance));
    } else if BetweenSessions(b.supervisor) {
      LoopFlags(b);
    } else if InSession(b.supervisor) {
      SessionFlags(b, chance);
    } else if Joining(b.supervisor) {
      JoinFlags(b, chance);
    } else if Deciding(b.supervisor) {
      DecideFlags(b);
    } else if Ending(b.supervisor) {
      EndFlags(b, chance);
    } else {
      LeaveFlags(b);
    }
  }

  lemma StopFlags(b: Bridge)
    requires FlagsTell(b)
    ensures FlagsTell(StopperStep(b))
  {
  }

  lemma OtherFlags(b: Bridge, a: Action)
    requires FlagsTell(b) && !a.Supervise? && !a.Stop?
    ensures FlagsTell(Step(b, a))
  {
  }

  lemma {:induction false} RunFlags(b: Bridge, actions: seq<Action>)
    requires Invariant(b) && EpochInvariant(b.session, b.supervisor) && FlagsTell(b)
    ensures FlagsTell(RunAll(b, actions))
    decreases actions
  {
    if actions != [] {
      var a := actions[0];
      StepKeeps(b, a);
      if a.Supervise? {
        ClosingOpen(b);
        SupervisorFlags(b, a.chance);
      } else if a.Stop? {
        StopFlags(b);
      } else {
        OtherFlags(b, a);
      }
      RunFlags(Step(b, a), actions[1..]);
    }
  }

  lemma ClosingOpen(b: Bridge)
    requires Invariant(b)
    ensures Closing(b.supervisor) ==> b.end.terminal.NotTerminal?
  {
  }

  /**
   In every run: no_respawn_ is set if and only if the bridge is degraded or stop has begun, and running_ is cleared if
   and only if it is degraded, stop has cleared it or the loop has been left. Nothing sets either back.
   */
  lemma FlagsTellAlways(actions: seq<Action>)
    ensures FlagsTell(RunAll(Started(), actions))
  {
    StartedInvariant();
    RunFlags(Started(), actions);
  }

  // ---------- Getting there ----------

  ghost predicate Reaches(b: Bridge, t: Bridge) {
    exists actions: seq<Action> :: RunAll(b, actions) == t
  }

  lemma {:induction false} RunThen(b: Bridge, first: seq<Action>, rest: seq<Action>)
    ensures RunAll(b, first + rest) == RunAll(RunAll(b, first), rest)
    decreases first
  {
    if first == [] {
      assert first + rest == rest;
    } else {
      assert (first + rest)[1..] == first[1..] + rest;
      RunThen(Step(b, first[0]), first[1..], rest);
    }
  }

  lemma ReachesItself(b: Bridge)
    ensures Reaches(b, b)
  {
    assert RunAll(b, []) == b;
  }

  lemma ReachesNext(b: Bridge, t: Bridge, a: Action)
    requires Reaches(b, t)
    ensures Reaches(b, Step(t, a))
  {
    var actions: seq<Action> :| RunAll(b, actions) == t;
    RunThen(b, actions, [a]);
    RunOne(t, a, []);
    assert [a] + [] == [a];
    assert RunAll(b, actions + [a]) == Step(t, a);
  }

  /** One step of the supervisor, when everything goes well. */
  lemma Well(b: Bridge, t: Bridge, u: Bridge)
    requires Reaches(b, t) && SupervisorStep(t, true) == u
    ensures Reaches(b, u)
  {
    ReachesNext(b, t, Supervise(true));
  }

  lemma WellDecided(b: Bridge, t: Bridge, u: Bridge)
    requires Reaches(b, t) && Deciding(t.supervisor) && DecideStep(t) == u
    ensures Reaches(b, u)
  {
    Well(b, t, u);
  }

  lemma WellEnded(b: Bridge, t: Bridge, u: Bridge)
    requires Reaches(b, t) && Ending(t.supervisor) && EndStep(t, true) == u
    ensures Reaches(b, u)
  {
    Well(b, t, u);
  }

  lemma WellLooped(b: Bridge, t: Bridge, u: Bridge)
    requires Reaches(b, t) && BetweenSessions(t.supervisor) && !t.supervisor.Spawn? && LoopStep(t) == u
    ensures Reaches(b, u)
  {
    Well(b, t, u);
  }

  lemma WellLeft(b: Bridge, t: Bridge, u: Bridge)
    requires Reaches(b, t) && (t.supervisor.TeardownOver? || Left(t.supervisor)) && LeaveStep(t) == u
    ensures Reaches(b, u)
  {
    Well(b, t, u);
  }

  /** The supervisor's way from the top of its loop into a session. */
  lemma ComesToSpawn(b: Bridge, t: Bridge)
    requires Reaches(b, t) && t.supervisor.LoopDesired? && t.latch.desired.Run? && !t.latch.noRespawn
    ensures Reaches(b,
      t.(session := t.session.(epoch := if t.session.epoch == 0 then 1 else t.session.epoch), supervisor := Spawn))
  {
    WellLooped(b, t, t.(supervisor := LoopNoRespawn));
    WellLooped(b, t.(supervisor := LoopNoRespawn), t.(supervisor := TestRun));
    WellLooped(b, t.(supervisor := TestRun), t.(supervisor := StartDesired));
    WellLooped(b, t.(supervisor := StartDesired), t.(supervisor := StartNoRespawn));
    WellLooped(b, t.(supervisor := StartNoRespawn), t.(supervisor := Prepare));
    WellLooped(b, t.(supervisor := Prepare),
      t.(session := t.session.(epoch := if t.session.epoch == 0 then 1 else t.session.epoch), supervisor := Spawn));
  }

  /** A session is up: its threads run, and it is the last one spawned. */
  function Up(t: Bridge): Bridge {
    var epoch := if t.session.epoch == 0 then 1 else t.session.epoch;
    t.(session := Session(Joinable, Joinable, Joinable, t.session.detached, epoch, t.session.spawned + [epoch]),
       supervisor := Waiting)
  }

  /** From the top of the loop, while a session is wanted, a session comes up. */
  lemma SessionComesUp(b: Bridge, t: Bridge)
    requires Reaches(b, t) && t.supervisor.LoopDesired? && t.latch.desired.Run? && !t.latch.noRespawn
    ensures Reaches(b, Up(t))
  {
    ComesToSpawn(b, t);
    var epoch := if t.session.epoch == 0 then 1 else t.session.epoch;
    var s := t.session.(epoch := epoch);
    var read := s.(reader := Joinable, spawned := s.spawned + [epoch]);
    Well(b, t.(session := s, supervisor := Spawn), t.(session := read, supervisor := Hello));
    var ready := read.(writer := Joinable, heartbeat := Joinable);
    Well(b, t.(session := read, supervisor := Hello), t.(session := ready, supervisor := TestWait));
    Well(b, t.(session := ready, supervisor := TestWait), t.(session := ready, supervisor := Waiting));
  }

  /** The threads of a session end, and a teardown joins them. */
  function TornDown(t: Bridge): Bridge {
    t.(session := t.session.(writer := NoThread, reader := NoThread, heartbeat := NoThread,
      epoch := t.session.epoch + 1),
       supervisor := DecideDesired)
  }

  lemma ThreadsEnd(b: Bridge, t: Bridge)
    requires Reaches(b, t) && t.session.writer == t.session.reader == t.session.heartbeat == Joinable
    ensures Reaches(b, t.(session := t.session.(writer := Exited, reader := Exited, heartbeat := Exited)))
  {
    ReachesNext(b, t, Exit(0));
    var u := t.(session := t.session.(writer := Exited));
    ReachesNext(b, u, Exit(1));
    ReachesNext(b, u.(session := u.session.(reader := Exited)), Exit(2));
  }

  lemma SessionTornDown(b: Bridge, t: Bridge)
    requires Reaches(b, t) && t.supervisor.Waiting? && !t.latch.desired.Run?
    requires t.session.writer == t.session.reader == t.session.heartbeat == Joinable
    ensures Reaches(b, TornDown(t))
  {
    ThreadsEnd(b, t);
    var s := t.session.(writer := Exited, reader := Exited, heartbeat := Exited);
    Well(b, t.(session := s), t.(session := s, supervisor := TeardownBegin));
    var s1 := s.(epoch := t.session.epoch + 1);
    Well(b, t.(session := s, supervisor := TeardownBegin), t.(session := s1, supervisor := JoinWriter));
    Well(b, t.(session := s1, supervisor := JoinWriter),
      t.(session := s1.(writer := NoThread), supervisor := JoinReader));
    var s2 := s1.(writer := NoThread, reader := NoThread);
    Well(b, t.(session := s1.(writer := NoThread), supervisor := JoinReader),
      t.(session := s2, supervisor := JoinHeartbeat));
    Well(b, t.(session := s2, supervisor := JoinHeartbeat), TornDown(t));
  }

  // ---------- An ordinary restart ----------

  /** request_restart in one thread alone: Restart is latched. */
  lemma RestartLatched(b: Bridge, t: Bridge, id: nat)
    requires Reaches(b, t) && t.latch.desired.Run? && id !in t.latch.restarters
    ensures Reaches(b, t.(latch := t.latch.(desired := Restart)))
  {
    ReachesNext(b, t, RequestRestart(id));
    var u := t.(latch := t.latch.(restarters := t.latch.restarters[id := Run]));
    ReachesNext(b, u, RequestRestart(id));
    assert u.latch.restarters - {id} == t.latch.restarters;
  }

  /** A thread leaves request_restart only when Restart or Destroy was latched. */
  lemma RestarterLeaves(l: Latch, id: nat)
    requires id in l.restarters && id !in RestarterStep(l, id).restarters
    ensures Rank(l.restarters[id]) >= Rank(Restart) || RestarterStep(l, id).desired.Restart?
  {
  }

  /** The session is over, the latch back at Run, and the next epoch begun. */
  function Restarted(t: Bridge): Bridge {
    t.(latch := t.latch.(desired := Run), end := t.end.(result := Restart), supervisor := LoopDesired,
       session := t.session.(writer := NoThread, reader := NoThread, heartbeat := NoThread,
         epoch := t.session.epoch + 1))
  }

  lemma RestartGranted(b: Bridge, t: Bridge)
    requires Reaches(b, t) && t.supervisor.DecideDesired? && t.latch.desired.Restart? && !t.latch.noRespawn
    ensures Reaches(b,
      t.(latch := t.latch.(desired := Run), end := t.end.(result := Restart), supervisor := LoopDesired))
  {
    WellDecided(b, t, t.(supervisor := DecideNoRespawn));
    WellDecided(b, t.(supervisor := DecideNoRespawn), t.(supervisor := ClearQueue));
    WellDecided(b, t.(supervisor := ClearQueue), t.(supervisor := Exchange));
    var u := t.(latch := t.latch.(desired := Run), end := t.end.(result := Restart));
    WellDecided(b, t.(supervisor := Exchange), u.(supervisor := TeardownOver));
    WellLeft(b, u.(supervisor := TeardownOver), u.(supervisor := AfterNoRespawn));
    WellLooped(b, u.(supervisor := AfterNoRespawn), u.(supervisor := Backoff));
    WellLooped(b, u.(supervisor := Backoff), u.(supervisor := LoopDesired));
  }

  /** A restart of a running session: its threads are joined, and the next session comes up with a newer epoch. */
  lemma RestartComesUp(b: Bridge, t: Bridge, id: nat)
    requires Reaches(b, t) && t.supervisor.Waiting? && t.latch.desired.Run? && !t.latch.noRespawn
    requires t.session.writer == t.session.reader == t.session.heartbeat == Joinable && id !in t.latch.restarters
    ensures Reaches(b, Up(Restarted(t)))
  {
    RestartLatched(b, t, id);
    var latched := t.(latch := t.latch.(desired := Restart));
    SessionTornDown(b, latched);
    RestartGranted(b, TornDown(latched));
    SessionComesUp(b, Restarted(t));
  }

  /** One step of the supervisor within a session, `ok` as given. */
  lemma Within(b: Bridge, t: Bridge, u: Bridge, ok: bool)
    requires Reaches(b, t) && InSession(t.supervisor) && SessionStep(t, ok) == u
    ensures Reaches(b, u)
  {
    ReachesNext(b, t, Supervise(ok));
  }

  /** A handshake that fails, with nobody stopping, asks for a restart. */
  lemma FailedHelloRestarts(b: Bridge, t: Bridge)
    requires Reaches(b, t) && t.supervisor.Hello? && t.latch.running && !t.latch.noRespawn && t.latch.desired.Run?
    ensures Reaches(b, t.(latch := t.latch.(desired := Restart, supervisorCur := Run), supervisor := TestWait))
  {
    Within(b, t, t.(supervisor := HelloFailed), false);
    Within(b, t.(supervisor := HelloFailed), t.(supervisor := HelloNoRespawn), false);
    Within(b, t.(supervisor := HelloNoRespawn), t.(supervisor := HelloDesired), false);
    Within(b, t.(supervisor := HelloDesired), t.(supervisor := HelloLatchLoad), false);
    var l := t.latch.(supervisorCur := Run);
    Within(b, t.(supervisor := HelloLatchLoad), t.(latch := l, supervisor := HelloLatchExchange), false);
    var u := t.(latch := l.(desired := Restart));
    Within(b, t.(latch := l, supervisor := HelloLatchExchange), u.(supervisor := StartFailed), false);
    Within(b, u.(supervisor := StartFailed), u.(supervisor := TestWait), false);
  }

  // ---------- An ordinary stop ----------

  function Stopping(t: Bridge): Bridge {
    t.(latch := t.latch.(desired := Destroy, noRespawn := true, running := false, stopperCur := t.latch.desired),
       stopper := JoinSupervisor)
  }

  lemma StopLatched(b: Bridge, t: Bridge)
    requires Reaches(b, t) && t.stopper.NotStopping? && !t.latch.desired.Destroy?
    ensures Reaches(b, Stopping(t))
  {
    ReachesNext(b, t, Stop);
    var u := t.(latch := t.latch.(noRespawn := true), stopper := StopLoad);
    ReachesNext(b, u, Stop);
    var v := u.(latch := u.latch.(stopperCur := t.latch.desired), stopper := StopExchange);
    ReachesNext(b, v, Stop);
    ReachesNext(b, v.(latch := v.latch.(desired := Destroy), stopper := StopRunning), Stop);
  }

  /** The audio path is drained at once, the ring released, and the lifetime over. */
  function Ended(t: Bridge): Bridge {
    t.(end := End(Inactive, true, t.end.audio.(accepting := false, phase := Quiesce.Drained), true, Destroy),
       latch := t.latch.(desired := Destroy, running := false), supervisor := Done)
  }

  lemma DrainsAtOnce(b: Bridge, t: Bridge)
    requires Reaches(b, t) && t.supervisor.EnterTerminal? && t.end.terminal.NotTerminal?
    requires t.end.audio.phase.NotBegun? && t.end.audio.inflight == 0
    ensures Reaches(b, t.(end := t.end.(audio := t.end.audio.(accepting := false, phase := Quiesce.Drained)),
                          supervisor := Releasing))
  {
    var waiting := t.end.audio.(accepting := false, phase := Quiesce.Waiting);
    var drained := waiting.(phase := Quiesce.Drained);
    WellEnded(b, t, t.(end := t.end.(audio := waiting), supervisor := Draining));
    WellEnded(b, t.(end := t.end.(audio := waiting), supervisor := Draining),
      t.(end := t.end.(audio := drained), supervisor := Releasing));
  }

  lemma Releases(b: Bridge, t: Bridge)
    requires Reaches(b, t) && t.supervisor.Releasing? && t.end.first
    ensures Reaches(b, t.(end := t.end.(ringReleased := true, terminal := Inactive, result := Destroy),
                          latch := t.latch.(desired := Destroy), supervisor := TeardownOver))
  {
    var released := t.end.(ringReleased := true);
    WellEnded(b, t, t.(end := released, supervisor := StoreInactive));
    var inactive := released.(terminal := Inactive);
    WellEnded(b, t.(end := released, supervisor := StoreInactive), t.(end := inactive, supervisor := ClearQueueLast));
    WellEnded(b, t.(end := inactive, supervisor := ClearQueueLast), t.(end := inactive, supervisor := FinishTerminal));
    WellEnded(b, t.(end := inactive, supervisor := FinishTerminal),
      t.(end := inactive.(result := Destroy), latch := t.latch.(desired := Destroy), supervisor := TeardownOver));
  }

  lemma Leaves(b: Bridge, t: Bridge)
    requires Reaches(b, t) && t.supervisor.TeardownOver? && t.end.result.Destroy? && t.session.NoneLeft()
    ensures Reaches(b, t.(latch := t.latch.(running := false), supervisor := Done))
  {
    WellLeft(b, t, t.(supervisor := Leaving));
    var u := t.(latch := t.latch.(running := false));
    WellLeft(b, t.(supervisor := Leaving), u.(supervisor := LeavingJoins));
    WellLeft(b, u.(supervisor := LeavingJoins), u.(supervisor := Done));
  }

  lemma LifetimeEnds(b: Bridge, t: Bridge)
    requires Reaches(b, t) && t.supervisor.DecideDesired? && t.latch.desired.Destroy? && t.end.terminal.NotTerminal?
    requires t.end.audio.phase.NotBegun? && t.end.audio.inflight == 0 && t.session.NoneLeft()
    ensures Reaches(b, Ended(t))
  {
    var u := t.(end := t.end.(first := true), supervisor := EnterTerminal);
    WellDecided(b, t, u);
    DrainsAtOnce(b, u);
    var drained := u.(end := u.end.(audio := t.end.audio.(accepting := false, phase := Quiesce.Drained)),
                      supervisor := Releasing);
    Releases(b, drained);
    Leaves(b, drained.(end := drained.end.(ringReleased := true, terminal := Inactive, result := Destroy),
                       latch := t.latch.(desired := Destroy), supervisor := TeardownOver));
  }

  /** A stop of a running session, with no push_audio inside: it ends Inactive, with the ring released, and returns. */
  lemma StopEndsInactive(b: Bridge, t: Bridge)
    requires Reaches(b, t) && t.supervisor.Waiting? && t.stopper.NotStopping? && !t.latch.desired.Destroy?
    requires t.session.writer == t.session.reader == t.session.heartbeat == Joinable
    requires t.end.terminal.NotTerminal? && t.end.audio.phase.NotBegun? && t.end.audio.inflight == 0
    ensures Reaches(b, Ended(TornDown(Stopping(t))).(stopper := Stopped))
  {
    StopLatched(b, t);
    SessionTornDown(b, Stopping(t));
    LifetimeEnds(b, TornDown(Stopping(t)));
    var u := Ended(TornDown(Stopping(t)));
    ReachesNext(b, u, Stop);
    ReachesNext(b, u.(stopper := StopJoins), Stop);
  }

  /** An ordinary lifetime: a session, a restart, another session, a stop. */
  lemma OrdinaryLifetime(id: nat)
    ensures exists actions: seq<Action> ::
      var t := RunAll(Started(), actions);
      && t.supervisor.Done? && t.stopper.Stopped? && t.end.terminal.Inactive? && t.end.ringReleased
      && t.session.spawned == [1, 2] && t.session.NoneLeft() && t.session.detached == 0
  {
    var b := Started();
    ReachesItself(b);
    SessionComesUp(b, b);
    RestartComesUp(b, Up(b), id);
    StopEndsInactive(b, Up(Restarted(Up(b))));
    var t := Ended(TornDown(Stopping(Up(Restarted(Up(b)))))).(stopper := Stopped);
    assert [] + [1] == [1] && [1] + [2] == [1, 2];
    var actions: seq<Action> :| RunAll(b, actions) == t;
    assert RunAll(Started(), actions) == t;
  }
}
