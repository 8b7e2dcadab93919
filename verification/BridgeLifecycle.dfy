/**
 One start-to-stop lifetime of IpcBridge: the supervisor thread in run_session_loop, the thread that calls stop, the
 threads of the sessions and any thread inside request_restart (native-plugin/src/ipc-bridge-core.cpp,
 ipc-bridge-teardown.cpp, ipc-bridge.cpp). Every load, store and exchange of the latch, of no_respawn_ and of running_
 is one step, except that stores in a row which only the same thread reads here count as one: the three of
 mark_degraded, and those that prepare a session, begin a teardown or leave the loop.
 */
module BridgeLifecycle {
  import Quiesce

  datatype Desired = Run | Restart | Destroy

  function Rank(d: Desired): nat {
    match d
    case Run => 0
    case Restart => 1
    case Destroy => 2
  }

  /** A thread handle of the bridge; the thread behind a joinable one sets its exited flag when it ends. */
  datatype Handle = NoThread | Joinable | Exited

  /** What the supervisor does next. */
  datatype Supervisor =
    | LoopDesired
    | LoopNoRespawn
    | TestRun
    | StartDesired
    | StartNoRespawn
    | Prepare
    | Spawn
    | Hello
    | HelloFailed
    | HelloNoRespawn
    | HelloDesired
    | HelloLatchLoad
    | HelloLatchExchange
    | StartFailed
    | LatchLoad
    | LatchExchange
    | TestWait
    | Waiting
    | TeardownBegin
    | JoinWriter
    | JoinReader
    | JoinHeartbeat
    | DecideDesired
    | DecideNoRespawn
    | ClearQueue
    | Exchange
    | DecideAgain
    | DecideAgainNoRespawn
    | EnterTerminal
    | Draining
    | Releasing
    | StoreInactive
    | Degrading
    | ClearQueueLast
    | FinishTerminal
    | TeardownOver
    | AfterNoRespawn
    | Backoff
    | Leaving
    | LeavingJoins
    | Done

  // Groups of supervisor places.

  /** Between two sessions, on the way to the next. */
  predicate BetweenSessions(s: Supervisor) {
    s.AfterNoRespawn? || s.Backoff? || s.LoopDesired? || s.LoopNoRespawn? || s.TestRun? || s.StartDesired?
      || s.StartNoRespawn? || s.Prepare? || s.Spawn?
  }

  predicate InSession(s: Supervisor) {
    || s.Hello? || s.HelloFailed? || s.HelloNoRespawn? || s.HelloDesired? || s.HelloLatchLoad?
    || s.HelloLatchExchange? || s.StartFailed? || s.LatchLoad? || s.LatchExchange?
    || s.TestWait? || s.Waiting? || s.TeardownBegin?
  }

  predicate Joining(s: Supervisor) {
    s.JoinWriter? || s.JoinReader? || s.JoinHeartbeat?
  }

  predicate Deciding(s: Supervisor) {
    s.DecideDesired? || s.DecideNoRespawn? || s.ClearQueue? || s.Exchange? || s.DecideAgain? || s.DecideAgainNoRespawn?
  }

  predicate Ending(s: Supervisor) {
    s.EnterTerminal? || Closing(s) || s.ClearQueueLast? || s.FinishTerminal?
  }

  /** The last teardown has not degraded and has not stored a terminal state yet. */
  predicate Closing(s: Supervisor) {
    s.Draining? || s.Releasing? || s.StoreInactive? || s.Degrading?
  }

  predicate Left(s: Supervisor) {
    s.Leaving? || s.LeavingJoins? || s.Done?
  }

  /** What the thread that calls stop does next. */
  datatype Stopper =
    | NotStopping
    | StopLoad
    | StopExchange
    | StopRunning
    | JoinSupervisor
    | StopJoins
    | Stopped

  /** The latch: desired_, the flags beside it, and what each thread that latches has loaded. */
  datatype Latch = Latch(desired: Desired, noRespawn: bool, running: bool, supervisorCur: Desired, stopperCur: Desired,
                         restarters: map<nat, Desired>)

  /** The session: its threads, those given up so far, the epoch and the epochs of the sessions spawned. */
  datatype Session = Session(writer: Handle, reader: Handle, heartbeat: Handle, detached: nat, epoch: nat,
                             spawned: seq<nat>) {
    predicate NoneLeft() {
      writer == reader == heartbeat == NoThread
    }
  }

  datatype Terminal = NotTerminal | Inactive | Degraded

  /** The end: the terminal state, the audio path, and the value execute_teardown is about to return. */
  datatype End = End(terminal: Terminal, ringReleased: bool, audio: Quiesce.State, first: bool, result: Desired)

  datatype Bridge = Bridge(latch: Latch, session: Session, end: End, supervisor: Supervisor, stopper: Stopper)

  // The steps.

  /** mark_degraded. */
  function MarkDegraded(b: Bridge): Bridge {
    b.(latch := b.latch.(noRespawn := true, running := false), end := b.end.(terminal := Degraded))
  }

  /** One thread of join_threads: joined if it has exited, given up at the deadline, waited for otherwise. */
  function JoinOne(b: Bridge, h: Handle, deadline: bool, without: Session, next: Supervisor): Bridge {
    if h.NoThread? then b.(supervisor := next)
    else if h.Exited? then b.(session := without, supervisor := next)
    else if deadline then MarkDegraded(b).(session := without.(detached := without.detached + 1), supervisor := next)
    else b
  }

  function LoopStep(b: Bridge): Bridge {
    match b.supervisor
    case LoopDesired => b.(supervisor := if b.latch.desired.Destroy? then Leaving else LoopNoRespawn)
    case LoopNoRespawn => b.(supervisor := if b.latch.noRespawn then Leaving else TestRun)
    case AfterNoRespawn => b.(supervisor := if b.latch.noRespawn then Leaving else Backoff)
    case Backoff => b.(supervisor := LoopDesired)
    // start_session up to the creation of the reader thread
    case TestRun => b.(supervisor := if b.latch.desired.Run? then StartDesired else TestWait)
    case StartDesired => b.(supervisor := if b.latch.desired.Run? then StartNoRespawn else StartFailed)
    case StartNoRespawn => b.(supervisor := if b.latch.noRespawn then StartFailed else Prepare)
    case Prepare =>
      b.(session := b.session.(epoch := if b.session.epoch == 0 then 1 else b.session.epoch), supervisor := Spawn)
    case _ => b
  }

  function SpawnStep(b: Bridge, ok: bool): Bridge {
    if ok then
      b.(session := b.session.(reader := Joinable, spawned := b.session.spawned + [b.session.epoch]),
        supervisor := Hello)
    else
      b.(supervisor := StartFailed)
  }

  function ExchangeToRestart(b: Bridge, next: Supervisor): Bridge {
    if Rank(b.latch.supervisorCur) >= Rank(Restart) then b.(supervisor := next)
    else if b.latch.desired == b.latch.supervisorCur then b.(latch := b.latch.(desired := Restart), supervisor := next)
    else b.(latch := b.latch.(supervisorCur := b.latch.desired))
  }

  /** The rest of start_session, the wait for the end of the session and the start of execute_teardown. */
  function SessionStep(b: Bridge, ok: bool): Bridge {
    match b.supervisor
    case Hello =>
      if ok then b.(session := b.session.(writer := Joinable, heartbeat := Joinable), supervisor := TestWait)
      else b.(supervisor := HelloFailed)
    case HelloFailed => b.(supervisor := if !b.latch.running then StartFailed else HelloNoRespawn)
    case HelloNoRespawn => b.(supervisor := if b.latch.noRespawn then StartFailed else HelloDesired)
    case HelloDesired => b.(supervisor := if b.latch.desired.Destroy? then StartFailed else HelloLatchLoad)
    case HelloLatchLoad => b.(latch := b.latch.(supervisorCur := b.latch.desired), supervisor := HelloLatchExchange)
    case HelloLatchExchange => ExchangeToRestart(b, StartFailed)
    case StartFailed => b.(supervisor := if b.latch.desired.Run? then LatchLoad else TestWait)
    case LatchLoad => b.(latch := b.latch.(supervisorCur := b.latch.desired), supervisor := LatchExchange)
    case LatchExchange => ExchangeToRestart(b, TestWait)
    case TestWait => b.(supervisor := if b.latch.desired.Run? then Waiting else TeardownBegin)
    case Waiting => if b.latch.desired.Run? then b else b.(supervisor := TeardownBegin)
    case TeardownBegin => b.(session := b.session.(epoch := b.session.epoch + 1), supervisor := JoinWriter)
    case _ => b
  }

  function JoinStep(b: Bridge, deadline: bool): Bridge {
    match b.supervisor
    case JoinWriter => JoinOne(b, b.session.writer, deadline, b.session.(writer := NoThread), JoinReader)
    case JoinReader => JoinOne(b, b.session.reader, deadline, b.session.(reader := NoThread), JoinHeartbeat)
    case JoinHeartbeat => JoinOne(b, b.session.heartbeat, deadline, b.session.(heartbeat := NoThread), DecideDesired)
    case _ => b
  }

  function ToTerminal(b: Bridge, first: bool): Bridge {
    b.(end := b.end.(first := first), supervisor := EnterTerminal)
  }

  function Returning(b: Bridge, result: Desired): Bridge {
    b.(end := b.end.(result := result), supervisor := TeardownOver)
  }

  /** What execute_teardown makes of the latch after the joins. */
  function DecideStep(b: Bridge): Bridge {
    match b.supervisor
    case DecideDesired => if b.latch.desired.Destroy? then ToTerminal(b, true) else b.(supervisor := DecideNoRespawn)
    case DecideNoRespawn => if b.latch.noRespawn then ToTerminal(b, true) else b.(supervisor := ClearQueue)
    case ClearQueue => b.(supervisor := Exchange)
    case Exchange =>
      if b.latch.desired.Restart? then Returning(b.(latch := b.latch.(desired := Run)), Restart)
      else b.(supervisor := DecideAgain)
    case DecideAgain =>
      if b.latch.desired.Destroy? then ToTerminal(b, false) else b.(supervisor := DecideAgainNoRespawn)
    case DecideAgainNoRespawn => if b.latch.noRespawn then ToTerminal(b, false) else Returning(b, b.latch.desired)
    case _ => b
  }

  /** The last teardown: quiesce, then release the ring or degrade. */
  function EndStep(b: Bridge, deadline: bool): Bridge {
    match b.supervisor
    case EnterTerminal =>
      if b.end.terminal.Degraded? then b.(supervisor := FinishTerminal)
      else b.(end := b.end.(audio := Quiesce.WaiterStep(b.end.audio, false)), supervisor := Draining)
    case Draining =>
      var audio := Quiesce.WaiterStep(b.end.audio, deadline);
      b.(end := b.end.(audio := audio),
         supervisor :=
           if audio.phase.Drained? then Releasing else if audio.phase.TimedOut? then Degrading else Draining)
    case Releasing => b.(end := b.end.(ringReleased := true), supervisor := StoreInactive)
    case StoreInactive => b.(end := b.end.(terminal := Inactive), supervisor := ClearQueueLast)
    case Degrading => MarkDegraded(b).(supervisor := ClearQueueLast)
    case ClearQueueLast => b.(supervisor := FinishTerminal)
    case FinishTerminal =>
      if b.end.first then Returning(b.(latch := b.latch.(desired := Destroy)), Destroy)
      else Returning(b, b.latch.desired)
    case _ => b
  }

  /** The end of run_session_loop; join_threads finds nothing to join there (LeavingFindsNoThread says so). */
  function LeaveStep(b: Bridge): Bridge {
    match b.supervisor
    case TeardownOver => b.(supervisor := if b.end.result.Destroy? then Leaving else AfterNoRespawn)
    case Leaving => b.(latch := b.latch.(running := false), supervisor := LeavingJoins)
    case LeavingJoins => if b.session.NoneLeft() then b.(supervisor := Done) else b
    case _ => b
  }

  /** The supervisor's next step; `chance` decides what is not the bridge's own: spawn, handshake, deadlines. */
  function SupervisorStep(b: Bridge, chance: bool): Bridge {
    if b.supervisor.Spawn? then SpawnStep(b, chance)
    else if BetweenSessions(b.supervisor) then LoopStep(b)
    else if InSession(b.supervisor) then SessionStep(b, chance)
    else if Joining(b.supervisor) then JoinStep(b, chance)
    else if Deciding(b.supervisor) then DecideStep(b)
    else if Ending(b.supervisor) then EndStep(b, chance)
    else LeaveStep(b)
  }

  /** request_destroy, then joining the supervisor and what is left of the session. */
  function StopperStep(b: Bridge): Bridge {
    match b.stopper
    case NotStopping => b.(latch := b.latch.(noRespawn := true), stopper := StopLoad)
    case StopLoad => b.(latch := b.latch.(stopperCur := b.latch.desired), stopper := StopExchange)
    case StopExchange =>
      if Rank(b.latch.stopperCur) >= Rank(Destroy) then b.(stopper := StopRunning)
      else if b.latch.desired == b.latch.stopperCur then
        b.(latch := b.latch.(desired := Destroy), stopper := StopRunning)
      else b.(latch := b.latch.(stopperCur := b.latch.desired))
    case StopRunning => b.(latch := b.latch.(running := false), stopper := JoinSupervisor)
    case JoinSupervisor => if b.supervisor.Done? then b.(stopper := StopJoins) else b
    case StopJoins => if b.session.NoneLeft() then b.(stopper := Stopped) else b
    case Stopped => b
  }

  /** A thread in request_restart loads desired_, then tries its exchange until it succeeds or is not needed. */
  function RestarterStep(l: Latch, id: nat): Latch {
    if id !in l.restarters then
      l.(restarters := l.restarters[id := l.desired])
    else
      var cur := l.restarters[id];
      if Rank(cur) >= Rank(Restart) then l.(restarters := l.restarters - {id})
      else if l.desired == cur then l.(desired := Restart, restarters := l.restarters - {id})
      else l.(restarters := l.restarters[id := l.desired])
  }

  function ThreadExits(s: Session, which: nat): Session {
    if which == 0 && s.writer.Joinable? then s.(writer := Exited)
    else if which == 1 && s.reader.Joinable? then s.(reader := Exited)
    else if which == 2 && s.heartbeat.Joinable? then s.(heartbeat := Exited)
    else s
  }

  datatype Action =
    | Supervise(chance: bool)
    | Stop
    | RequestRestart(id: nat)
    | Exit(which: nat)
    | PushAudio(producer: nat)

  function Step(b: Bridge, a: Action): Bridge {
    match a
    case Supervise(chance) => SupervisorStep(b, chance)
    case Stop => StopperStep(b)
    case RequestRestart(id) => b.(latch := RestarterStep(b.latch, id))
    case Exit(which) => b.(session := ThreadExits(b.session, which))
    case PushAudio(p) => b.(end := b.end.(audio := Quiesce.ProducerStep(b.end.audio, p)))
  }

  function RunAll(b: Bridge, actions: seq<Action>): Bridge
    decreases actions
  {
    if actions == [] then b else RunAll(Step(b, actions[0]), actions[1..])
  }

  /** start, up to the creation of the supervisor thread. */
  function Started(): Bridge {
    Bridge(Latch(Run, false, true, Run, Run, map[]), Session(NoThread, NoThread, NoThread, 0, 0, []),
           End(NotTerminal, false, Quiesce.Open(), false, Run), LoopDesired, NotStopping)
  }

  // The invariant.

  /** Threads are left only between a spawn and the joins of the teardown. */
  predicate ThreadsInvariant(s: Session, at: Supervisor) {
    && (InSession(at) || Joining(at) || s.NoneLeft())
    && (at.JoinReader? ==> s.writer.NoThread?)
    && (at.JoinHeartbeat? ==> s.writer.NoThread? && s.reader.NoThread?)
  }

  /** No thread was given up in this teardown and no_respawn_ was not seen: a respawn may be granted. */
  predicate Granting(s: Supervisor) {
    s.ClearQueue? || s.Exchange? || s.DecideAgain? || s.DecideAgainNoRespawn?
  }

  /** A thread given up forbids any further spawn. */
  predicate DetachedInvariant(s: Session, noRespawn: bool, at: Supervisor, result: Desired) {
    && (s.detached > 0 ==>
         noRespawn && !BetweenSessions(at) && !InSession(at) && !Granting(at) && !Closing(at) && !at.ClearQueueLast?)
    && (s.detached > 0 && at.TeardownOver? ==> result.Destroy?)
  }

  /** Epochs of spawned sessions increase, and the current one is newer than all of them outside a session. */
  ghost predicate EpochInvariant(s: Session, at: Supervisor) {
    && (forall i, j :: 0 <= i < j < |s.spawned| ==> s.spawned[i] < s.spawned[j])
    && (forall i :: 0 <= i < |s.spawned| ==> s.spawned[i] <= s.epoch)
    && (InSession(at) || forall i :: 0 <= i < |s.spawned| ==> s.spawned[i] < s.epoch)
  }

  predicate StopInvariant(l: Latch, at: Stopper, supervisor: Supervisor) {
    && (!at.NotStopping? ==> l.noRespawn)
    && (at.StopExchange? && l.stopperCur.Destroy? ==> l.desired.Destroy?)
    && (at.StopRunning? || at.JoinSupervisor? || at.StopJoins? || at.Stopped? ==> l.desired.Destroy?)
    && (at.StopJoins? || at.Stopped? ==> supervisor.Done? && !l.running)
    && (at.JoinSupervisor? ==> !l.running)
  }

  /** From the end of a session to the exchange nobody puts the latch back to Run. */
  predicate LatchInvariant(l: Latch, at: Supervisor, e: End) {
    && (at.TeardownBegin? || Joining(at) || Deciding(at) || Ending(at) ==> !l.desired.Run?)
    && (at.DecideAgain? ==> l.desired.Destroy?)
    && !at.DecideAgainNoRespawn?
    && (Ending(at) && !e.first ==> l.desired.Destroy?)
    && (at.TeardownOver? ==> !e.result.Run? && (e.result.Destroy? ==> l.desired.Destroy?))
  }

  predicate BeforeEnd(at: Supervisor) {
    BetweenSessions(at) || InSession(at) || Joining(at) || Deciding(at) || at.EnterTerminal?
  }

  /** The audio path is closed only by a last teardown, and the ring released only once it is drained. */
  predicate AudioInvariant(e: End, at: Supervisor) {
    && (e.ringReleased || at.Releasing? ==> e.audio.phase.Drained?)
    && (at.Draining? ==> e.audio.phase.Waiting?)
    && (BeforeEnd(at) || (at.TeardownOver? && !e.result.Destroy?) ==> e.audio.phase.NotBegun?)
    && (e.terminal.Inactive? ==> e.ringReleased)
    && (e.ringReleased ==> e.terminal.Inactive? || at.StoreInactive?)
    && (at.StoreInactive? ==> e.ringReleased)
  }

  /** The terminal state is set exactly by a teardown that returns Destroy. */
  predicate TerminalInvariant(e: End, detached: nat, at: Supervisor) {
    && (e.terminal.Degraded? && BeforeEnd(at) ==> detached > 0)
    && (detached > 0 ==> e.terminal.Degraded?)
    && (BeforeEnd(at) ==> !e.terminal.Inactive? && !e.result.Destroy?)
    && (Closing(at) ==> e.terminal.NotTerminal?)
    && (at.ClearQueueLast? || at.FinishTerminal? ==> !e.terminal.NotTerminal?)
    && (at.TeardownOver? || Left(at) ==> (e.terminal.NotTerminal? <==> !e.result.Destroy?))
  }

  ghost predicate Invariant(b: Bridge) {
    && ThreadsInvariant(b.session, b.supervisor)
    && DetachedInvariant(b.session, b.latch.noRespawn, b.supervisor, b.end.result)
    && StopInvariant(b.latch, b.stopper, b.supervisor)
    && LatchInvariant(b.latch, b.supervisor, b.end)
    && Quiesce.Invariant(b.end.audio)
    && AudioInvariant(b.end, b.supervisor)
    && TerminalInvariant(b.end, b.session.detached, b.supervisor)
  }

  lemma LoopKeeps(b: Bridge)
    requires Invariant(b)
    requires b.supervisor.AfterNoRespawn? || b.supervisor.Backoff? || b.supervisor.LoopDesired?
      || b.supervisor.LoopNoRespawn?
    ensures Invariant(LoopStep(b))
  {
  }

  lemma StartKeeps(b: Bridge)
    requires Invariant(b)
    requires b.supervisor.TestRun? || b.supervisor.StartDesired? || b.supervisor.StartNoRespawn?
      || b.supervisor.Prepare?
    ensures Invariant(LoopStep(b))
  {
  }

  lemma SpawnKeeps(b: Bridge, ok: bool)
    requires Invariant(b) && b.supervisor.Spawn?
    ensures Invariant(SpawnStep(b, ok))
  {
  }

  lemma HelloKeeps(b: Bridge, ok: bool)
    requires Invariant(b)
    requires b.supervisor.Hello? || b.supervisor.HelloFailed? || b.supervisor.HelloNoRespawn?
      || b.supervisor.HelloDesired?
    ensures Invariant(SessionStep(b, ok))
  {
  }

  lemma RetryKeeps(b: Bridge, ok: bool)
    requires Invariant(b)
    requires b.supervisor.StartFailed? || b.supervisor.LatchLoad? || b.supervisor.LatchExchange?
    ensures Invariant(SessionStep(b, ok))
  {
  }

  lemma HelloLatchKeeps(b: Bridge, ok: bool)
    requires Invariant(b) && (b.supervisor.HelloLatchLoad? || b.supervisor.HelloLatchExchange?)
    ensures Invariant(SessionStep(b, ok))
  {
  }

  lemma WaitKeeps(b: Bridge, ok: bool)
    requires Invariant(b) && (b.supervisor.TestWait? || b.supervisor.Waiting? || b.supervisor.TeardownBegin?)
    ensures Invariant(SessionStep(b, ok))
  {
  }

  lemma JoinWriterKeeps(b: Bridge, deadline: bool)
    requires Invariant(b) && b.supervisor.JoinWriter?
    ensures Invariant(JoinStep(b, deadline))
  {
  }

  lemma JoinReaderKeeps(b: Bridge, deadline: bool)
    requires Invariant(b) && b.supervisor.JoinReader?
    ensures Invariant(JoinStep(b, deadline))
  {
  }

  lemma JoinHeartbeatKeeps(b: Bridge, deadline: bool)
    requires Invariant(b) && b.supervisor.JoinHeartbeat? && !(b.session.heartbeat.Joinable? && deadline)
    ensures Invariant(JoinStep(b, deadline))
  {
  }

  lemma GiveUpHeartbeatKeeps(b: Bridge)
    requires Invariant(b) && b.supervisor.JoinHeartbeat? && b.session.heartbeat.Joinable?
    ensures Invariant(JoinStep(b, true))
  {
  }

  lemma DecideKeeps(b: Bridge)
    requires Invariant(b) && Deciding(b.supervisor)
    ensures Invariant(DecideStep(b))
  {
  }

  lemma DrainKeeps(b: Bridge, deadline: bool)
    requires Invariant(b) && (b.supervisor.EnterTerminal? || b.supervisor.Draining?)
    ensures Invariant(EndStep(b, deadline))
  {
    Quiesce.StepKeeps(b.end.audio, Quiesce.Waiter(deadline));
    Quiesce.StepKeeps(b.end.audio, Quiesce.Waiter(false));
  }

  lemma EndKeeps(b: Bridge, deadline: bool)
    requires Invariant(b)
    requires b.supervisor.Degrading? || b.supervisor.ClearQueueLast?
    ensures Invariant(EndStep(b, deadline))
  {
  }

  lemma FinishKeeps(b: Bridge, deadline: bool)
    requires Invariant(b) && b.supervisor.FinishTerminal?
    ensures Invariant(EndStep(b, deadline))
  {
  }

  lemma ReleaseKeeps(b: Bridge, deadline: bool)
    requires Invariant(b) && (b.supervisor.Releasing? || b.supervisor.StoreInactive?)
    ensures Invariant(EndStep(b, deadline))
  {
  }

  lemma LeaveKeeps(b: Bridge)
    requires Invariant(b) && (Left(b.supervisor) || b.supervisor.TeardownOver?)
    ensures Invariant(LeaveStep(b))
  {
  }

  lemma SupervisorKeeps(b: Bridge, chance: bool)
    requires Invariant(b)
    ensures Invariant(SupervisorStep(b, chance))
  {
    match b.supervisor
    case LoopDesired | LoopNoRespawn | AfterNoRespawn | Backoff => LoopKeeps(b);
    case TestRun | StartDesired | StartNoRespawn | Prepare => StartKeeps(b);
    case Spawn => SpawnKeeps(b, chance);
    case Hello | HelloFailed | HelloNoRespawn | HelloDesired => HelloKeeps(b, chance);
    case HelloLatchLoad | HelloLatchExchange => HelloLatchKeeps(b, chance);
    case StartFailed | LatchLoad | LatchExchange => RetryKeeps(b, chance);
    case TestWait | Waiting | TeardownBegin => WaitKeeps(b, chance);
    case JoinWriter => JoinWriterKeeps(b, chance);
    case JoinReader => JoinReaderKeeps(b, chance);
    case JoinHeartbeat =>
      if b.session.heartbeat.Joinable? && chance { GiveUpHeartbeatKeeps(b); } else { JoinHeartbeatKeeps(b, chance); }
    case DecideDesired | DecideNoRespawn | ClearQueue | Exchange | DecideAgain | DecideAgainNoRespawn => DecideKeeps(b);
    case EnterTerminal | Draining => DrainKeeps(b, chance);
    case Releasing | StoreInactive => ReleaseKeeps(b, chance);
    case Degrading | ClearQueueLast => EndKeeps(b, chance);
    case FinishTerminal => FinishKeeps(b, chance);
    case TeardownOver | Leaving | LeavingJoins | Done => LeaveKeeps(b);
  }

  lemma StopperKeeps(b: Bridge)
    requires Invariant(b)
    ensures Invariant(StopperStep(b))
  {
  }

  lemma OthersKeep(b: Bridge, a: Action)
    requires Invariant(b) && !a.Supervise? && !a.Stop?
    ensures Invariant(Step(b, a))
  {
    if a.PushAudio? {
      Quiesce.StepKeeps(b.end.audio, Quiesce.Producer(a.producer));
    }
  }

  /** Only these three steps touch the epochs, and only the last of them leaves a session. */
  lemma EpochUntouched(b: Bridge, chance: bool)
    requires !b.supervisor.Prepare? && !b.supervisor.Spawn? && !b.supervisor.TeardownBegin?
    ensures var t := SupervisorStep(b, chance);
      && t.session.spawned == b.session.spawned && t.session.epoch == b.session.epoch
      && (InSession(b.supervisor) ==> InSession(t.supervisor))
  {
  }

  lemma SupervisorKeepsEpoch(b: Bridge, chance: bool)
    requires EpochInvariant(b.session, b.supervisor)
    ensures EpochInvariant(SupervisorStep(b, chance).session, SupervisorStep(b, chance).supervisor)
  {
    if b.supervisor.Spawn? {
      SpawnKeepsEpoch(b, chance);
    } else if b.supervisor.Prepare? || b.supervisor.TeardownBegin? {
      EpochMoves(b, chance);
    } else {
      EpochUntouched(b, chance);
    }
  }

  lemma SpawnKeepsEpoch(b: Bridge, ok: bool)
    requires EpochInvariant(b.session, b.supervisor) && b.supervisor.Spawn?
    ensures EpochInvariant(SpawnStep(b, ok).session, SpawnStep(b, ok).supervisor)
  {
  }

  lemma EpochMoves(b: Bridge, chance: bool)
    requires EpochInvariant(b.session, b.supervisor) && (b.supervisor.Prepare? || b.supervisor.TeardownBegin?)
    ensures EpochInvariant(SupervisorStep(b, chance).session, SupervisorStep(b, chance).supervisor)
  {
  }

  lemma StepKeeps(b: Bridge, a: Action)
    requires Invariant(b) && EpochInvariant(b.session, b.supervisor)
    ensures Invariant(Step(b, a)) && EpochInvariant(Step(b, a).session, Step(b, a).supervisor)
  {
    match a
    case Supervise(chance) =>
      SupervisorKeeps(b, chance);
      SupervisorKeepsEpoch(b, chance);
    case Stop => StopperKeeps(b);
    case RequestRestart(_) => OthersKeep(b, a);
    case Exit(_) => OthersKeep(b, a);
    case PushAudio(_) => OthersKeep(b, a);
  }

  lemma {:induction false} RunKeeps(b: Bridge, actions: seq<Action>)
    requires Invariant(b) && EpochInvariant(b.session, b.supervisor)
    ensures var t := RunAll(b, actions); Invariant(t) && EpochInvariant(t.session, t.supervisor)
    decreases actions
  {
    if actions != [] {
      StepKeeps(b, actions[0]);
      RunKeeps(Step(b, actions[0]), actions[1..]);
    }
  }

  lemma StartedInvariant()
    ensures Invariant(Started()) && EpochInvariant(Started().session, Started().supervisor)
  {
  }

  // What holds in every run of a lifetime.

  lemma SupervisorLeavesDestroy(b: Bridge, chance: bool)
    requires b.latch.desired.Destroy?
    ensures SupervisorStep(b, chance).latch.desired.Destroy?
  {
  }

  lemma DestroyStaysOneStep(b: Bridge, a: Action)
    requires b.latch.desired.Destroy?
    ensures Step(b, a).latch.desired.Destroy?
  {
    if a.Supervise? {
      SupervisorLeavesDestroy(b, a.chance);
    }
  }

  /** A latched Destroy is never lost, not to the exchange from Restart to Run either. */
  lemma {:induction false} DestroyStays(b: Bridge, actions: seq<Action>)
    requires Invariant(b) && EpochInvariant(b.session, b.supervisor) && b.latch.desired.Destroy?
    ensures RunAll(b, actions).latch.desired.Destroy?
    decreases actions
  {
    if actions != [] {
      StepKeeps(b, actions[0]);
      DestroyStaysOneStep(b, actions[0]);
      DestroyStays(Step(b, actions[0]), actions[1..]);
    }
  }

  lemma OnlySpawnSpawns(b: Bridge, a: Action)
    ensures Step(b, a).session.spawned != b.session.spawned ==> a.Supervise? && b.supervisor.Spawn?
  {
  }

  /** When a session is spawned no thread of an earlier one is unjoined or has been given up. */
  lemma SpawnsAlone(actions: seq<Action>, a: Action)
    ensures var b := RunAll(Started(), actions);
      Step(b, a).session.spawned != b.session.spawned ==> b.session.NoneLeft() && b.session.detached == 0
  {
    var b := RunAll(Started(), actions);
    StartedInvariant();
    RunKeeps(Started(), actions);
    OnlySpawnSpawns(b, a);
  }

  lemma EpochsIncrease(actions: seq<Action>)
    ensures var spawned := RunAll(Started(), actions).session.spawned;
      forall i, j :: 0 <= i < j < |spawned| ==> spawned[i] < spawned[j]
  {
    StartedInvariant();
    RunKeeps(Started(), actions);
  }

  /** The audio ring is released only when no push_audio is inside, and none gets in any more. */
  lemma RingReleasedWhenIdle(actions: seq<Action>, after: seq<Quiesce.Action>)
    ensures var e := RunAll(Started(), actions).end;
      e.ringReleased ==> Quiesce.Idle(e.audio) && Quiesce.Idle(Quiesce.Run(e.audio, after))
  {
    StartedInvariant();
    RunKeeps(Started(), actions);
    Quiesce.RunKeeps(RunAll(Started(), actions).end.audio, after);
  }

  /** When stop has returned: Destroy is latched, the supervisor is done and no thread is left to join. */
  lemma StopEndsAll(actions: seq<Action>)
    ensures var b := RunAll(Started(), actions);
      b.stopper.Stopped? ==> b.latch.desired.Destroy? && !b.latch.running && b.supervisor.Done? && b.session.NoneLeft()
  {
    StartedInvariant();
    RunKeeps(Started(), actions);
  }

  lemma LeavingFindsNoThread(b: Bridge)
    requires Invariant(b) && (b.supervisor.LeavingJoins? || b.stopper.StopJoins?)
    ensures b.session.NoneLeft()
  {
  }

  /**
   A lifetime ends Inactive or Degraded if and only if the last execute_teardown returned Destroy; it does not when
   the loop ends at its own test or at the one after a teardown that had granted a respawn.
   */
  lemma TerminalIffLastTeardownDestroys(actions: seq<Action>)
    ensures var b := RunAll(Started(), actions);
      b.supervisor.Done? ==>
        && (b.end.result.Destroy? <==> !b.end.terminal.NotTerminal?)
        && (b.end.terminal.Inactive? <==> b.end.ringReleased)
  {
    StartedInvariant();
    RunKeeps(Started(), actions);
  }

  // How a lifetime ends, by where the supervisor is when stop stores no_respawn_.

  /**
   The supervisor is between a teardown that granted a respawn, or the start, and the test of no_respawn_ in the loop.
   */
  predicate TooLate(b: Bridge) {
    || b.supervisor.AfterNoRespawn? || b.supervisor.Backoff? || b.supervisor.LoopDesired? || b.supervisor.LoopNoRespawn?
    || (b.supervisor.TeardownOver? && !b.end.result.Destroy?)
  }

  /** The supervisor has passed its test of no_respawn_ in a teardown and not yet tried to exchange Restart for Run. */
  predicate RespawnOpen(b: Bridge) {
    b.supervisor.ClearQueue? || b.supervisor.Exchange?
  }

  /** Destroy is latched before the supervisor tries that exchange. */
  predicate DestroyFirst(b: Bridge, actions: seq<Action>)
    decreases actions
  {
    && actions != []
    && if b.supervisor.Exchange? && actions[0].Supervise? then b.latch.desired.Destroy?
         else DestroyFirst(Step(b, actions[0]), actions[1..])
  }

  /** No teardown will follow. */
  predicate Doomed(b: Bridge) {
    b.latch.noRespawn && b.end.terminal.NotTerminal? && !b.end.result.Destroy? && (TooLate(b) || Left(b.supervisor))
  }

  /** A last teardown is still to come, under way, or over. */
  predicate InTime(b: Bridge) {
    && b.latch.noRespawn
    && !b.supervisor.AfterNoRespawn? && !b.supervisor.Backoff? && !b.supervisor.LoopDesired?
    && !b.supervisor.LoopNoRespawn?
    && !RespawnOpen(b)
    && (b.supervisor.TeardownOver? || Left(b.supervisor) ==> b.end.result.Destroy?)
  }

  lemma DoomedStaysOneStep(b: Bridge, a: Action)
    requires Doomed(b)
    ensures Doomed(Step(b, a))
  {
  }

  /** A session goes on or goes over to the joins. */
  lemma SessionGoesOn(b: Bridge, chance: bool)
    requires InSession(b.supervisor)
    ensures var t := SupervisorStep(b, chance);
      && (InSession(t.supervisor) || t.supervisor.JoinWriter?)
      && t.end == b.end && t.stopper == b.stopper && t.latch.noRespawn == b.latch.noRespawn
      && (t.latch.desired.Destroy? ==> b.latch.desired.Destroy?)
  {
  }

  lemma InTimeBetween(b: Bridge, chance: bool)
    requires InTime(b) && (BetweenSessions(b.supervisor))
    ensures InTime(SupervisorStep(b, chance))
  {
  }

  lemma InTimeSession(b: Bridge, chance: bool)
    requires InTime(b) && InSession(b.supervisor)
    ensures InTime(SupervisorStep(b, chance))
  {
    SessionGoesOn(b, chance);
  }

  lemma InTimeJoin(b: Bridge, chance: bool)
    requires InTime(b) && (Joining(b.supervisor))
    ensures InTime(SupervisorStep(b, chance))
  {
  }

  lemma InTimeDecide(b: Bridge, chance: bool)
    requires Invariant(b) && InTime(b) && (Deciding(b.supervisor))
    ensures InTime(SupervisorStep(b, chance))
  {
  }

  lemma InTimeEnd(b: Bridge, chance: bool)
    requires Invariant(b) && InTime(b) && (Ending(b.supervisor))
    ensures InTime(SupervisorStep(b, chance))
  {
  }

  lemma InTimeLeave(b: Bridge, chance: bool)
    requires Invariant(b) && InTime(b) && (Left(b.supervisor) || b.supervisor.TeardownOver?)
    ensures InTime(SupervisorStep(b, chance))
  {
  }

  lemma InTimeSupervised(b: Bridge, chance: bool)
    requires Invariant(b) && InTime(b)
    ensures InTime(SupervisorStep(b, chance))
  {
    if BetweenSessions(b.supervisor) {
      InTimeBetween(b, chance);
    } else if InSession(b.supervisor) {
      InTimeSession(b, chance);
    } else if Joining(b.supervisor) {
      InTimeJoin(b, chance);
    } else if Deciding(b.supervisor) {
      InTimeDecide(b, chance);
    } else if Ending(b.supervisor) {
      InTimeEnd(b, chance);
    } else {
      InTimeLeave(b, chance);
    }
  }

  lemma InTimeStaysOneStep(b: Bridge, a: Action)
    requires Invariant(b) && InTime(b)
    ensures InTime(Step(b, a))
  {
    if a.Supervise? {
      InTimeSupervised(b, a.chance);
    }
  }

  lemma {:induction false} DoomedStays(b: Bridge, actions: seq<Action>)
    requires Doomed(b)
    ensures Doomed(RunAll(b, actions))
    decreases actions
  {
    if actions != [] {
      DoomedStaysOneStep(b, actions[0]);
      DoomedStays(Step(b, actions[0]), actions[1..]);
    }
  }

  lemma {:induction false} InTimeStays(b: Bridge, actions: seq<Action>)
    requires Invariant(b) && EpochInvariant(b.session, b.supervisor) && InTime(b)
    ensures Invariant(RunAll(b, actions)) && InTime(RunAll(b, actions))
    decreases actions
  {
    if actions != [] {
      StepKeeps(b, actions[0]);
      InTimeStaysOneStep(b, actions[0]);
      InTimeStays(Step(b, actions[0]), actions[1..]);
    }
  }

  lemma OpenStaysOneStep(b: Bridge, a: Action)
    requires Invariant(b) && RespawnOpen(b) && b.latch.noRespawn
    ensures var t := Step(b, a);
      if b.supervisor.Exchange? && a.Supervise? then (if b.latch.desired.Destroy? then InTime(t) else Doomed(t))
      else RespawnOpen(t) && t.latch.noRespawn
  {
  }

  /** While a respawn is open, the order of Destroy and the exchange decides. */
  lemma {:induction false} OpenEnds(b: Bridge, actions: seq<Action>)
    requires Invariant(b) && EpochInvariant(b.session, b.supervisor) && RespawnOpen(b) && b.latch.noRespawn
    requires RunAll(b, actions).supervisor.Done?
    ensures RunAll(b, actions).end.terminal.NotTerminal? <==> !DestroyFirst(b, actions)
    decreases actions
  {
    var t := Step(b, actions[0]);
    StepKeeps(b, actions[0]);
    OpenStaysOneStep(b, actions[0]);
    if b.supervisor.Exchange? && actions[0].Supervise? {
      if b.latch.desired.Destroy? {
        InTimeStays(t, actions[1..]);
      } else {
        DoomedStays(t, actions[1..]);
      }
    } else {
      OpenEnds(t, actions[1..]);
    }
  }

  /** Before stop has begun only a thread given up ends the lifetime. */
  ghost predicate Unstopped(b: Bridge) {
    b.stopper.NotStopping? ==>
      && (b.latch.noRespawn ==> b.end.terminal.Degraded?)
      && (b.latch.desired.Destroy? ==> b.end.result.Destroy?)
      && !b.end.terminal.Inactive? && (Ending(b.supervisor) ==> b.end.terminal.Degraded?)
      && (Left(b.supervisor) ==> b.end.result.Destroy?)
  }

  /** Between sessions the loop goes on to the next, or leaves because of a flag it saw. */
  lemma WayRound(b: Bridge, chance: bool)
    requires BetweenSessions(b.supervisor)
    ensures var t := SupervisorStep(b, chance);
      && t.end == b.end && t.stopper == b.stopper && t.latch == b.latch
      && (BetweenSessions(t.supervisor) || InSession(t.supervisor)
           || (t.supervisor.Leaving? && (b.latch.noRespawn || b.latch.desired.Destroy?)))
  {
  }

  lemma NoStateYet(b: Bridge)
    requires Invariant(b) && BetweenSessions(b.supervisor)
    ensures b.end.terminal.NotTerminal? && !b.end.result.Destroy?
  {
  }

  lemma UnstoppedBetween(b: Bridge, chance: bool)
    requires Invariant(b) && Unstopped(b) && BetweenSessions(b.supervisor)
    ensures Unstopped(SupervisorStep(b, chance))
  {
    WayRound(b, chance);
    NoStateYet(b);
  }

  lemma UnstoppedSession(b: Bridge, chance: bool)
    requires Unstopped(b) && InSession(b.supervisor)
    ensures Unstopped(SupervisorStep(b, chance))
  {
    SessionGoesOn(b, chance);
  }

  lemma UnstoppedJoin(b: Bridge, chance: bool)
    requires Invariant(b) && Unstopped(b) && (Joining(b.supervisor))
    ensures Unstopped(SupervisorStep(b, chance))
  {
  }

  lemma UnstoppedDecide(b: Bridge, chance: bool)
    requires Invariant(b) && Unstopped(b) && (Deciding(b.supervisor))
    ensures Unstopped(SupervisorStep(b, chance))
  {
  }

  lemma UnstoppedEnd(b: Bridge, chance: bool)
    requires Invariant(b) && Unstopped(b) && (Ending(b.supervisor))
    ensures Unstopped(SupervisorStep(b, chance))
  {
  }

  lemma UnstoppedLeave(b: Bridge, chance: bool)
    requires Invariant(b) && Unstopped(b) && (Left(b.supervisor) || b.supervisor.TeardownOver?)
    ensures Unstopped(SupervisorStep(b, chance))
  {
  }

  lemma UnstoppedSupervised(b: Bridge, chance: bool)
    requires Invariant(b) && Unstopped(b)
    ensures Unstopped(SupervisorStep(b, chance))
  {
    if BetweenSessions(b.supervisor) {
      UnstoppedBetween(b, chance);
    } else if InSession(b.supervisor) {
      UnstoppedSession(b, chance);
    } else if Joining(b.supervisor) {
      UnstoppedJoin(b, chance);
    } else if Deciding(b.supervisor) {
      UnstoppedDecide(b, chance);
    } else if Ending(b.supervisor) {
      UnstoppedEnd(b, chance);
    } else {
      UnstoppedLeave(b, chance);
    }
  }

  lemma {:induction false} UnstoppedStays(b: Bridge, actions: seq<Action>)
    requires Invariant(b) && EpochInvariant(b.session, b.supervisor) && Unstopped(b)
    ensures Unstopped(RunAll(b, actions))
    decreases actions
  {
    if actions != [] {
      StepKeeps(b, actions[0]);
      if actions[0].Supervise? {
        UnstoppedSupervised(b, actions[0].chance);
      }
      UnstoppedStays(Step(b, actions[0]), actions[1..]);
    }
  }

  /**
   How a lifetime ends. `before` is what happened until stop stores no_respawn_, `after` what happens from then on. It
   ends neither Inactive nor Degraded if and only if the store finds the supervisor past the last test that a teardown
   makes: on its way round the loop, or with a respawn open that it takes before Destroy is latched.
   */
  lemma EndsWithoutStateIff(before: seq<Action>, after: seq<Action>)
    requires RunAll(Started(), before).stopper.NotStopping?
    requires RunAll(Step(RunAll(Started(), before), Stop), after).supervisor.Done?
    ensures var b := RunAll(Started(), before);
      RunAll(Step(b, Stop), after).end.terminal.NotTerminal? <==>
        TooLate(b) || (RespawnOpen(b) && !DestroyFirst(Step(b, Stop), after))
  {
    var b := RunAll(Started(), before);
    StartedInvariant();
    RunKeeps(Started(), before);
    UnstoppedStays(Started(), before);
    StepKeeps(b, Stop);
    if TooLate(b) {
      DoomedStays(Step(b, Stop), after);
    } else if RespawnOpen(b) {
      OpenEnds(Step(b, Stop), after);
    } else {
      InTimeStays(Step(b, Stop), after);
    }
  }

  /** Without stop a lifetime can only end Degraded. */
  lemma EndsDegradedWithoutStop(actions: seq<Action>)
    requires var b := RunAll(Started(), actions); b.stopper.NotStopping? && b.supervisor.Done?
    ensures RunAll(Started(), actions).end.terminal.Degraded?
  {
    StartedInvariant();
    RunKeeps(Started(), actions);
    UnstoppedStays(Started(), actions);
  }

  // A stop during the backoff.

  function Times(a: Action, n: nat): seq<Action> {
    if n == 0 then [] else [a] + Times(a, n - 1)
  }

  /**
   The supervisor alone, with every outcome against it. The measure names a field of the state, and the numbers of turns
   below are parameters, so that the verifier does not unfold a literal number of turns by itself.
   */
  function Turns(b: Bridge, n: nat): Bridge
    decreases n, b.latch.running
  {
    if n == 0 then b else Turns(SupervisorStep(b, false), n - 1)
  }

  lemma {:induction false} TurnsRun(b: Bridge, n: nat, rest: seq<Action>)
    ensures RunAll(b, Times(Supervise(false), n) + rest) == RunAll(Turns(b, n), rest)
    decreases n
  {
    if n == 0 {
      assert [] + rest == rest;
    } else {
      var a := Supervise(false);
      assert ([a] + Times(a, n - 1)) + rest == [a] + (Times(a, n - 1) + rest);
      RunOne(b, a, Times(a, n - 1) + rest);
      TurnsRun(Step(b, a), n - 1, rest);
    }
  }

  lemma RunOne(b: Bridge, a: Action, rest: seq<Action>)
    ensures RunAll(b, [a] + rest) == RunAll(Step(b, a), rest)
  {
    assert ([a] + rest)[1..] == rest;
  }

  lemma Turn(b: Bridge, t: Bridge, n: nat)
    requires n > 0 && SupervisorStep(b, false) == t
    ensures Turns(b, n) == Turns(t, n - 1)
  {
  }

  /** A session that cannot be spawned asks for a restart. */
  lemma FirstSpawnFails(n: nat)
    requires n >= 10
    ensures var b := Started();
      Turns(b, n)
        == Turns(b.(latch := b.latch.(desired := Restart), session := b.session.(epoch := 1), supervisor := TestWait),
          n - 10)
  {
    var b := Started();
    Turn(b, b.(supervisor := LoopNoRespawn), n);
    Turn(b.(supervisor := LoopNoRespawn), b.(supervisor := TestRun), n - 1);
    Turn(b.(supervisor := TestRun), b.(supervisor := StartDesired), n - 2);
    Turn(b.(supervisor := StartDesired), b.(supervisor := StartNoRespawn), n - 3);
    Turn(b.(supervisor := StartNoRespawn), b.(supervisor := Prepare), n - 4);
    var s := b.(session := b.session.(epoch := 1));
    Turn(b.(supervisor := Prepare), s.(supervisor := Spawn), n - 5);
    Turn(s.(supervisor := Spawn), s.(supervisor := StartFailed), n - 6);
    Turn(s.(supervisor := StartFailed), s.(supervisor := LatchLoad), n - 7);
    Turn(s.(supervisor := LatchLoad), s.(supervisor := LatchExchange), n - 8);
    Turn(s.(supervisor := LatchExchange), s.(latch := s.latch.(desired := Restart), supervisor := TestWait), n - 9);
  }

  /** Its teardown grants a respawn. */
  lemma TeardownGrants(b: Bridge, n: nat)
    requires n >= 11 && b.supervisor.TestWait? && b.latch.desired.Restart? && !b.latch.noRespawn && b.session.NoneLeft()
    ensures Turns(b, n)
      == Turns(b.(latch := b.latch.(desired := Run), session := b.session.(epoch := b.session.epoch + 1),
                                    end := b.end.(result := Restart), supervisor := Backoff), n - 11)
  {
    Turn(b, b.(supervisor := TeardownBegin), n);
    var s := b.(session := b.session.(epoch := b.session.epoch + 1));
    Turn(b.(supervisor := TeardownBegin), s.(supervisor := JoinWriter), n - 1);
    Turn(s.(supervisor := JoinWriter), s.(supervisor := JoinReader), n - 2);
    Turn(s.(supervisor := JoinReader), s.(supervisor := JoinHeartbeat), n - 3);
    Turn(s.(supervisor := JoinHeartbeat), s.(supervisor := DecideDesired), n - 4);
    Turn(s.(supervisor := DecideDesired), s.(supervisor := DecideNoRespawn), n - 5);
    Turn(s.(supervisor := DecideNoRespawn), s.(supervisor := ClearQueue), n - 6);
    Turn(s.(supervisor := ClearQueue), s.(supervisor := Exchange), n - 7);
    var t := s.(latch := s.latch.(desired := Run), end := s.end.(result := Restart));
    Turn(s.(supervisor := Exchange), t.(supervisor := TeardownOver), n - 8);
    Turn(t.(supervisor := TeardownOver), t.(supervisor := AfterNoRespawn), n - 9);
    Turn(t.(supervisor := AfterNoRespawn), t.(supervisor := Backoff), n - 10);
  }

  /** stop latches Destroy. */
  lemma StopLatches(b: Bridge, rest: seq<Action>)
    requires b.stopper.NotStopping? && b.latch.desired.Run?
    ensures RunAll(b, [Stop] + ([Stop] + ([Stop] + rest)))
         == RunAll(b.(latch := b.latch.(desired := Destroy, noRespawn := true, stopperCur := Run),
           stopper := StopRunning), rest)
  {
    RunOne(b, Stop, [Stop] + ([Stop] + rest));
    var b1 := b.(latch := b.latch.(noRespawn := true), stopper := StopLoad);
    RunOne(b1, Stop, [Stop] + rest);
    var b2 := b1.(latch := b1.latch.(stopperCur := Run), stopper := StopExchange);
    RunOne(b2, Stop, rest);
  }

  lemma BackoffLeaves(b: Bridge, last: nat)
    requires last == 4 && b.supervisor.Backoff? && b.latch.desired.Destroy? && b.session.NoneLeft()
    ensures Turns(b, last) == b.(latch := b.latch.(running := false), supervisor := Done)
  {
    Turn(b, b.(supervisor := LoopDesired), last);
    Turn(b.(supervisor := LoopDesired), b.(supervisor := Leaving), last - 1);
    var s := b.(latch := b.latch.(running := false));
    Turn(b.(supervisor := Leaving), s.(supervisor := LeavingJoins), last - 2);
    Turn(s.(supervisor := LeavingJoins), s.(supervisor := Done), last - 3);
  }

  /** The supervisor's turns up to the backoff, a stop up to its exchange, and the supervisor's turns after it. */
  function BackoffRun(turns: nat, last: nat): seq<Action> {
    Times(Supervise(false), turns) + ([Stop] + ([Stop] + ([Stop] + (Times(Supervise(false), last) + []))))
  }

  lemma StopDuringBackoff(b: Bridge, last: nat)
    requires b.supervisor.Backoff? && b.stopper.NotStopping? && b.latch.desired.Run? && b.session.NoneLeft()
    requires last == 4
    ensures var t := RunAll(b, [Stop] + ([Stop] + ([Stop] + (Times(Supervise(false), last) + []))));
      t.supervisor.Done? && t.latch.desired.Destroy? && t.end == b.end
  {
    StopLatches(b, Times(Supervise(false), last) + []);
    var latched := b.(latch := b.latch.(desired := Destroy, noRespawn := true, stopperCur := Run),
      stopper := StopRunning);
    TurnsRun(latched, last, []);
    BackoffLeaves(latched, last);
  }

  lemma ToBackoff(b: Bridge, turns: nat)
    requires b == Started() && turns == 21
    ensures var t := Turns(b, turns);
      t.supervisor.Backoff? && t.stopper.NotStopping? && t.latch.desired.Run? && t.session.NoneLeft()
        && t.end == b.end.(result := Restart)
  {
    FirstSpawnFails(turns);
    TeardownGrants(b.(latch := b.latch.(desired := Restart), session := b.session.(epoch := 1),
      supervisor := TestWait), turns - 10);
  }

  /** So a Destroy that lands during the backoff ends the lifetime with no terminal state, and the ring unreleased. */
  lemma DestroyDuringBackoff(turns: nat, last: nat)
    requires turns == 21 && last == 4
    ensures var t := RunAll(Started(), BackoffRun(turns, last));
      t.supervisor.Done? && t.latch.desired.Destroy? && t.end.terminal.NotTerminal? && !t.end.ringReleased
  {
    TurnsRun(Started(), turns, [Stop] + ([Stop] + ([Stop] + (Times(Supervise(false), last) + []))));
    ToBackoff(Started(), turns);
    StopDuringBackoff(Turns(Started(), turns), last);
  }

  /** clear_control_queue rebuilds the queue only when no thread that uses it is left, unjoined or given up. */
  lemma QueueClearedAlone(actions: seq<Action>)
    ensures var b := RunAll(Started(), actions);
      b.supervisor.ClearQueue? || b.supervisor.ClearQueueLast? ==> b.session.NoneLeft() && b.session.detached == 0
  {
    StartedInvariant();
    RunKeeps(Started(), actions);
  }
}
