/**
 OutQueue of native-plugin/src/out_queue.cpp as a state machine on values: per command one frame in flight and one
 queued, a first-in first-out schedule of commands, and a bounded audio queue behind them.
 */
module OutQueueModel {
  import opened Bytes
  import opened Options
  import opened Sequences

  datatype Command = Start | Stop | Flush | Reconfigure | Heartbeat

  /** In the order of their indices in the array of command states. */
  const COMMANDS: seq<Command> := [Start, Stop, Flush, Reconfigure, Heartbeat]

  lemma EveryCommand(c: Command)
    ensures c in COMMANDS
  {
    assert COMMANDS[0] == Start && COMMANDS[1] == Stop && COMMANDS[2] == Flush && COMMANDS[3] == Reconfigure
      && COMMANDS[4] == Heartbeat;
  }

  datatype WaitReason = NoReason | Complete | Timeout | Cancelled | Superseded | NoSession

  predicate ExpectsReply(c: Command) {
    c != Heartbeat
  }

  /** A message with the waiter of the caller that asked for it. */
  datatype Held<W> = Held(waiter: W, seqNo: nat, payload: seq<byte>)

  datatype CommandState<W> = CommandState(inFlight: Option<Held<W>>, queued: Option<Held<W>>, inSchedule: bool)

  /** What is known of a waiter: the command it was issued for, and its result. */
  datatype Ticket = Ticket(command: Command, result: WaitReason) {
    /** Waiter::complete: the first reason stays. */
    function Completed(reason: WaitReason): Ticket {
      if result == NoReason then this.(result := reason) else this
    }
  }

  datatype OutFrame<W> = ControlFrame(command: Command, held: Held<W>) | AudioFrame(payload: seq<byte>)

  datatype State<W(==)> = State(
    commands: map<Command, CommandState<W>>,
    schedule: seq<Command>,
    audio: seq<seq<byte>>,
    audioCapacity: nat,
    droppedAudio: nat,
    accepting: bool,
    waiters: map<W, Ticket>
  ) {
    function At(c: Command): CommandState<W> {
      if c in commands then commands[c] else CommandState(None, None, false)
    }

    function With(c: Command, state: CommandState<W>): (s: State<W>)
      ensures forall d :: s.At(d) == if d == c then state else At(d)
    {
      this.(commands := commands[c := state])
    }

    function Completing(held: Option<Held<W>>, reason: WaitReason): (s: State<W>)
      ensures s == this.(waiters := s.waiters)
      ensures forall d :: s.At(d) == At(d)
    {
      if held.Some? && held.value.waiter in waiters then
        this.(waiters := waiters[held.value.waiter := waiters[held.value.waiter].Completed(reason)])
      else
        this
    }

    predicate Holds(c: Command, w: W) {
      || (At(c).inFlight.Some? && At(c).inFlight.value.waiter == w)
      || (At(c).queued.Some? && At(c).queued.value.waiter == w)
    }

    /** A command is in the schedule exactly when it is marked so; then it is queued and not in flight. */
    predicate ScheduleInvariant() {
      && NoDuplicates(schedule)
      && (forall c: Command :: c in schedule <==> At(c).inSchedule)
      && (forall c: Command :: At(c).inSchedule ==> At(c).queued.Some? && At(c).inFlight.None?)
      && (forall c: Command :: At(c).queued.Some? ==> At(c).inSchedule || At(c).inFlight.Some?)
      && At(Heartbeat).inFlight.None?
      && (!accepting ==> forall c: Command :: At(c).inFlight.None? && At(c).queued.None?)
    }

    /** The waiters in the two slots of a command are unfinished, of that command, and not the same. */
    predicate SlotsOf(c: Command) {
      var state := At(c);
      && (state.inFlight.Some? ==>
           state.inFlight.value.waiter in waiters && waiters[state.inFlight.value.waiter] == Ticket(c, NoReason))
      && (state.queued.Some? ==>
           state.queued.value.waiter in waiters && waiters[state.queued.value.waiter] == Ticket(c, NoReason))
      && (state.inFlight.Some? && state.queued.Some? ==> state.inFlight.value.waiter != state.queued.value.waiter)
    }

    /** An unfinished waiter sits in a slot of its command; only a popped heartbeat's sits in none. */
    predicate Settled(w: W)
      requires w in waiters
    {
      waiters[w].result != NoReason || waiters[w].command == Heartbeat || Holds(waiters[w].command, w)
    }

    predicate WaiterInvariant() {
      && (forall c: Command :: SlotsOf(c))
      && (forall w :: w in waiters ==> Settled(w))
    }

    predicate Invariant() {
      && ScheduleInvariant()
      && WaiterInvariant()
      && |audio| <= audioCapacity
    }
  }

  function Empty<W>(audioCapacity: nat): State<W> {
    State(map[], [], [], audioCapacity, 0, true, map[])
  }

  /** Completes the waiter in flight and empties that slot. */
  function FinishInFlight<W(==)>(s: State<W>, c: Command, reason: WaitReason): State<W> {
    s.Completing(s.At(c).inFlight, reason).With(c, s.At(c).(inFlight := None))
  }

  /** complete_queued. */
  function FinishQueued<W(==)>(s: State<W>, c: Command, reason: WaitReason): State<W> {
    s.Completing(s.At(c).queued, reason).With(c, s.At(c).(queued := None))
  }

  function Reschedule<W(==)>(s: State<W>, c: Command): State<W> {
    s.With(c, s.At(c).(inSchedule := true)).(schedule := s.schedule + [c])
  }

  /** A new waiter takes the free queued slot. */
  function Issue<W(==)>(s: State<W>, w: W, c: Command, seqNo: nat, payload: seq<byte>): State<W> {
    s.(waiters := s.waiters[w := Ticket(c, NoReason)]).With(c, s.At(c).(queued := Some(Held(w, seqNo, payload))))
  }

  /** enqueue_control, with `w` the waiter it makes. */
  function EnqueueControl<W(==)>(s: State<W>, w: W, c: Command, seqNo: nat, payload: seq<byte>): State<W> {
    if !s.accepting then
      s.(waiters := s.waiters[w := Ticket(c, NoSession)])
    else
      var issued := Issue(FinishQueued(s, c, Superseded), w, c, seqNo, payload);
      if !s.At(c).inSchedule && s.At(c).inFlight.None? then Reschedule(issued, c) else issued
  }

  function EnqueueAudio<W(==)>(s: State<W>, payload: seq<byte>): State<W> {
    if |s.audio| >= s.audioCapacity && |s.audio| > 0 then
      s.(audio := s.audio[1..] + [payload], droppedAudio := s.droppedAudio + 1)
    else
      s.(audio := s.audio + [payload])
  }

  /** remove_stale_controls. */
  function RemoveStale<W(==)>(s: State<W>): State<W>
    decreases |s.schedule|
  {
    if s.schedule != [] && s.At(s.schedule[0]).queued.None? then
      RemoveStale(s.With(s.schedule[0], s.At(s.schedule[0]).(inSchedule := false)).(schedule := s.schedule[1..]))
    else
      s
  }

  function PopFresh<W(==)>(s: State<W>): (State<W>, Option<OutFrame<W>>) {
    if s.schedule != [] && s.At(s.schedule[0]).queued.Some? then
      var c := s.schedule[0];
      var held := s.At(c).queued.value;
      (s.With(c, CommandState(if ExpectsReply(c) then Some(held) else None, None, false)).(schedule := s.schedule[1..]),
       Some(ControlFrame(c, held)))
    else if s.audio != [] then
      (s.(audio := s.audio[1..]), Some(AudioFrame(s.audio[0])))
    else
      (s, None)
  }

  /** pop_next. */
  function PopNext<W(==)>(s: State<W>): (State<W>, Option<OutFrame<W>>) {
    PopFresh(RemoveStale(s))
  }

  predicate Matches<W(==)>(s: State<W>, c: Command, seqNo: nat) {
    s.At(c).inFlight.Some? && s.At(c).inFlight.value.seqNo == seqNo
  }

  /** notify; timeout and cancel are notify with their own reasons. */
  function Notify<W(==)>(s: State<W>, c: Command, seqNo: nat, reason: WaitReason): State<W> {
    if !Matches(s, c, seqNo) then
      s
    else
      var finished := FinishInFlight(s, c, reason);
      if s.At(c).queued.Some? && !s.At(c).inSchedule then Reschedule(finished, c) else finished
  }

  /** What begin_teardown does to one command. */
  function Drop<W(==)>(s: State<W>, c: Command): State<W> {
    var emptied := FinishQueued(FinishInFlight(s, c, Cancelled), c, NoSession);
    emptied.With(c, emptied.At(c).(inSchedule := false))
  }

  /**
   The measure names a field of the state so that the verifier does not unfold the literal list of commands by itself.
   */
  function DropAll<W(==)>(s: State<W>, cs: seq<Command>): (t: State<W>)
    ensures t == s.(commands := t.commands, waiters := t.waiters)
    decreases |cs|, s.accepting
  {
    if cs == [] then s else DropAll(Drop(s, cs[0]), cs[1..])
  }

  function BeginTeardown<W(==)>(s: State<W>): State<W> {
    DropAll(s.(accepting := false), COMMANDS).(schedule := [])
  }

  lemma Unscheduled<T>(xs: seq<T>)
    requires xs != [] && NoDuplicates(xs)
    ensures NoDuplicates(xs[1..])
    ensures forall x :: x in xs[1..] <==> x in xs && x != xs[0]
  {
    assert xs == [xs[0]] + xs[1..];
    assert forall i :: 0 < i < |xs| ==> xs[0] != xs[i];
  }

  lemma Scheduled<T>(xs: seq<T>, x: T)
    requires x !in xs && NoDuplicates(xs)
    ensures NoDuplicates(xs + [x])
    ensures forall y :: y in xs + [x] <==> y in xs || y == x
  {
  }

  lemma EnqueueKeepsSchedule<W>(s: State<W>, w: W, c: Command, seqNo: nat, payload: seq<byte>)
    requires s.ScheduleInvariant()
    ensures EnqueueControl(s, w, c, seqNo, payload).ScheduleInvariant()
  {
    if c !in s.schedule {
      Scheduled(s.schedule, c);
    }
  }

  /** An operation on command c leaves the waiters of the other commands as they were. */
  lemma OthersKeepWaiters<W>(s: State<W>, t: State<W>, c: Command)
    requires s.WaiterInvariant()
    requires forall d :: d != c ==> t.At(d) == s.At(d)
    requires forall w :: w in s.waiters ==> w in t.waiters && t.waiters[w].command == s.waiters[w].command
    requires forall w :: w in s.waiters && s.waiters[w].command != c ==> t.waiters[w] == s.waiters[w]
    requires t.SlotsOf(c)
    requires forall w :: w in t.waiters && (w !in s.waiters || s.waiters[w].command == c) ==> t.Settled(w)
    ensures t.WaiterInvariant()
  {
    forall d | d != c
      ensures t.SlotsOf(d)
    {
      assert s.SlotsOf(d) && t.At(d) == s.At(d);
    }
    forall w | w in t.waiters
      ensures t.Settled(w)
    {
      if w in s.waiters && s.waiters[w].command != c {
        assert s.Settled(w) && t.At(s.waiters[w].command) == s.At(s.waiters[w].command);
      }
    }
  }

  lemma FinishInFlightKeepsWaiters<W>(s: State<W>, c: Command, reason: WaitReason)
    requires s.WaiterInvariant() && reason != NoReason
    ensures FinishInFlight(s, c, reason).WaiterInvariant()
  {
    var t := FinishInFlight(s, c, reason);
    var held := s.At(c).inFlight;
    assert s.SlotsOf(c);
    assert t.waiters == if held.Some? then s.waiters[held.value.waiter := Ticket(c, reason)] else s.waiters;
    assert t.At(c) == s.At(c).(inFlight := None);
    forall v | v in t.waiters && s.waiters[v].command == c
      ensures t.Settled(v)
    {
      assert s.Settled(v);
    }
    OthersKeepWaiters(s, t, c);
  }

  lemma FinishQueuedKeepsWaiters<W>(s: State<W>, c: Command, reason: WaitReason)
    requires s.WaiterInvariant() && reason != NoReason
    ensures FinishQueued(s, c, reason).WaiterInvariant()
  {
    var t := FinishQueued(s, c, reason);
    var held := s.At(c).queued;
    assert s.SlotsOf(c);
    assert t.waiters == if held.Some? then s.waiters[held.value.waiter := Ticket(c, reason)] else s.waiters;
    assert t.At(c) == s.At(c).(queued := None);
    forall v | v in t.waiters && s.waiters[v].command == c
      ensures t.Settled(v)
    {
      assert s.Settled(v);
    }
    OthersKeepWaiters(s, t, c);
  }

  lemma IssueKeepsWaiters<W>(s: State<W>, w: W, c: Command, seqNo: nat, payload: seq<byte>)
    requires s.WaiterInvariant() && w !in s.waiters && s.At(c).queued.None?
    ensures Issue(s, w, c, seqNo, payload).WaiterInvariant()
  {
    var t := Issue(s, w, c, seqNo, payload);
    assert s.SlotsOf(c);
    forall v | v in t.waiters && (v !in s.waiters || s.waiters[v].command == c)
      ensures t.Settled(v)
    {
      assert v in s.waiters ==> s.Settled(v);
    }
    OthersKeepWaiters(s, t, c);
  }

  /** The schedule and its marks do not matter to the waiters. */
  lemma MarkKeepsWaiters<W>(s: State<W>, c: Command, inSchedule: bool, schedule: seq<Command>)
    requires s.WaiterInvariant()
    ensures s.With(c, s.At(c).(inSchedule := inSchedule)).(schedule := schedule).WaiterInvariant()
  {
    var t := s.With(c, s.At(c).(inSchedule := inSchedule)).(schedule := schedule);
    assert s.SlotsOf(c);
    forall v | v in t.waiters && s.waiters[v].command == c
      ensures t.Settled(v)
    {
      assert s.Settled(v);
    }
    OthersKeepWaiters(s, t, c);
  }

  lemma EnqueueKeepsWaiters<W>(s: State<W>, w: W, c: Command, seqNo: nat, payload: seq<byte>)
    requires s.ScheduleInvariant() && s.WaiterInvariant() && w !in s.waiters
    ensures EnqueueControl(s, w, c, seqNo, payload).WaiterInvariant()
  {
    if s.accepting {
      var finished := FinishQueued(s, c, Superseded);
      FinishQueuedKeepsWaiters(s, c, Superseded);
      IssueKeepsWaiters(finished, w, c, seqNo, payload);
      var issued := Issue(finished, w, c, seqNo, payload);
      MarkKeepsWaiters(issued, c, true, issued.schedule + [c]);
    } else {
      RefusedKeepsWaiters(s, w, c);
    }
  }

  lemma ScheduleIrrelevant<W>(s: State<W>, schedule: seq<Command>)
    requires s.WaiterInvariant()
    ensures s.(schedule := schedule).WaiterInvariant()
  {
    var t := s.(schedule := schedule);
    forall v | v in t.waiters
      ensures t.Settled(v)
    {
      assert s.Settled(v);
    }
    assert s.SlotsOf(Start);
    OthersKeepWaiters(s, t, Start);
  }

  lemma ClosedKeepsWaiters<W>(s: State<W>)
    requires s.WaiterInvariant()
    ensures s.(accepting := false).WaiterInvariant()
  {
    var t := s.(accepting := false);
    forall v | v in t.waiters
      ensures t.Settled(v)
    {
      assert s.Settled(v);
    }
    assert s.SlotsOf(Start);
    OthersKeepWaiters(s, t, Start);
  }

  lemma RefusedKeepsWaiters<W>(s: State<W>, w: W, c: Command)
    requires s.WaiterInvariant() && w !in s.waiters
    ensures s.(waiters := s.waiters[w := Ticket(c, NoSession)]).WaiterInvariant()
  {
    var t := s.(waiters := s.waiters[w := Ticket(c, NoSession)]);
    assert s.SlotsOf(c);
    forall v | v in t.waiters && (v !in s.waiters || s.waiters[v].command == c)
      ensures t.Settled(v)
    {
      assert v in s.waiters ==> s.Settled(v);
    }
    OthersKeepWaiters(s, t, c);
  }

  lemma NothingStale<W>(s: State<W>)
    requires s.ScheduleInvariant()
    ensures RemoveStale(s) == s
  {
    if s.schedule != [] {
      assert s.schedule[0] in s.schedule;
    }
  }

  lemma PopKeepsSchedule<W>(s: State<W>)
    requires s.ScheduleInvariant()
    ensures PopFresh(s).0.ScheduleInvariant()
  {
    if s.schedule != [] {
      var c := s.schedule[0];
      assert c in s.schedule;
      Unscheduled(s.schedule);
      var t := PopFresh(s).0;
      assert forall d :: d != c ==> t.At(d) == s.At(d);
    }
  }

  lemma PopKeepsWaiters<W>(s: State<W>)
    requires s.ScheduleInvariant() && s.WaiterInvariant()
    ensures PopFresh(s).0.WaiterInvariant()
  {
    var t := PopFresh(s).0;
    var c := if s.schedule != [] then s.schedule[0] else Heartbeat;
    assert s.schedule != [] ==> c in s.schedule;
    assert s.SlotsOf(c);
    forall v | v in t.waiters && (v !in s.waiters || s.waiters[v].command == c)
      ensures t.Settled(v)
    {
      assert s.Settled(v);
    }
    OthersKeepWaiters(s, t, c);
  }

  /** With nothing queued the command is simply free again. */
  lemma FinishKeepsSchedule<W>(s: State<W>, c: Command, reason: WaitReason)
    requires s.ScheduleInvariant() && s.At(c).queued.None?
    ensures FinishInFlight(s, c, reason).ScheduleInvariant()
  {
    var t := FinishInFlight(s, c, reason);
    assert forall d :: d != c ==> t.At(d) == s.At(d);
  }

  /** With a message queued the command goes to the end of the schedule. */
  lemma FinishAndReschedule<W>(s: State<W>, c: Command, reason: WaitReason)
    requires s.ScheduleInvariant() && s.At(c).queued.Some? && s.At(c).inFlight.Some?
    ensures Reschedule(FinishInFlight(s, c, reason), c).ScheduleInvariant()
  {
    var t := Reschedule(FinishInFlight(s, c, reason), c);
    Scheduled(s.schedule, c);
    assert forall d :: d != c ==> t.At(d) == s.At(d);
  }

  lemma NotifyKeepsSchedule<W>(s: State<W>, c: Command, seqNo: nat, reason: WaitReason)
    requires s.ScheduleInvariant()
    ensures Notify(s, c, seqNo, reason).ScheduleInvariant()
  {
    if Matches(s, c, seqNo) {
      if s.At(c).queued.Some? {
        FinishAndReschedule(s, c, reason);
      } else {
        FinishKeepsSchedule(s, c, reason);
      }
    }
  }

  lemma NotifyKeepsWaiters<W>(s: State<W>, c: Command, seqNo: nat, reason: WaitReason)
    requires s.WaiterInvariant() && reason != NoReason
    ensures Notify(s, c, seqNo, reason).WaiterInvariant()
  {
    FinishInFlightKeepsWaiters(s, c, reason);
    var finished := FinishInFlight(s, c, reason);
    MarkKeepsWaiters(finished, c, true, finished.schedule + [c]);
  }

  lemma DropKeepsWaiters<W>(s: State<W>, c: Command)
    requires s.WaiterInvariant()
    ensures Drop(s, c).WaiterInvariant()
  {
    FinishInFlightKeepsWaiters(s, c, Cancelled);
    var idle := FinishInFlight(s, c, Cancelled);
    FinishQueuedKeepsWaiters(idle, c, NoSession);
    var emptied := FinishQueued(idle, c, NoSession);
    MarkKeepsWaiters(emptied, c, false, emptied.schedule);
  }

  lemma AudioKeepsWaiters<W>(s: State<W>, audio: seq<seq<byte>>, dropped: nat)
    requires s.WaiterInvariant()
    ensures s.(audio := audio, droppedAudio := dropped).WaiterInvariant()
  {
    var t := s.(audio := audio, droppedAudio := dropped);
    forall v | v in t.waiters
      ensures t.Settled(v)
    {
      assert s.Settled(v);
    }
    assert s.SlotsOf(Start);
    OthersKeepWaiters(s, t, Start);
  }

  lemma EnqueueKeeps<W>(s: State<W>, w: W, c: Command, seqNo: nat, payload: seq<byte>)
    requires s.Invariant() && w !in s.waiters
    ensures EnqueueControl(s, w, c, seqNo, payload).Invariant()
  {
    EnqueueKeepsSchedule(s, w, c, seqNo, payload);
    EnqueueKeepsWaiters(s, w, c, seqNo, payload);
  }

  lemma AudioKeeps<W>(s: State<W>, payload: seq<byte>)
    requires s.Invariant() && s.audioCapacity > 0
    ensures EnqueueAudio(s, payload).Invariant()
  {
    var t := EnqueueAudio(s, payload);
    AudioKeepsWaiters(s, t.audio, t.droppedAudio);
    assert forall c :: t.At(c) == s.At(c);
  }

  lemma PopKeeps<W>(s: State<W>)
    requires s.Invariant()
    ensures PopNext(s) == PopFresh(s) && PopNext(s).0.Invariant()
  {
    NothingStale(s);
    PopKeepsSchedule(s);
    PopKeepsWaiters(s);
  }

  lemma NotifyKeeps<W>(s: State<W>, c: Command, seqNo: nat, reason: WaitReason)
    requires s.Invariant() && reason != NoReason
    ensures Notify(s, c, seqNo, reason).Invariant()
  {
    NotifyKeepsSchedule(s, c, seqNo, reason);
    NotifyKeepsWaiters(s, c, seqNo, reason);
  }

  lemma {:induction false} DropAllKeepsWaiters<W>(s: State<W>, cs: seq<Command>)
    requires s.WaiterInvariant()
    ensures DropAll(s, cs).WaiterInvariant()
    decreases cs
  {
    if cs != [] {
      DropKeepsWaiters(s, cs[0]);
      DropAllKeepsWaiters(Drop(s, cs[0]), cs[1..]);
    }
  }

  lemma {:induction false} DropAllEmpties<W>(s: State<W>, cs: seq<Command>)
    ensures forall c :: DropAll(s, cs).At(c) == if c in cs then CommandState(None, None, false) else s.At(c)
    decreases cs
  {
    if cs != [] {
      DropAllEmpties(Drop(s, cs[0]), cs[1..]);
      assert forall c :: c in cs <==> c == cs[0] || c in cs[1..];
    }
  }

  lemma TeardownEmpties<W>(s: State<W>)
    ensures forall c: Command :: BeginTeardown(s).At(c) == CommandState(None, None, false)
  {
    var closed := s.(accepting := false);
    DropAllEmpties(closed, COMMANDS);
    forall c: Command
      ensures BeginTeardown(s).At(c) == CommandState(None, None, false)
    {
      EveryCommand(c);
      assert BeginTeardown(s).At(c) == DropAll(closed, COMMANDS).At(c);
    }
  }

  lemma TeardownKeepsWaiters<W>(s: State<W>)
    requires s.WaiterInvariant()
    ensures BeginTeardown(s).WaiterInvariant()
  {
    var closed := s.(accepting := false);
    ClosedKeepsWaiters(s);
    DropAllKeepsWaiters(closed, COMMANDS);
    ScheduleIrrelevant(DropAll(closed, COMMANDS), []);
  }

  lemma TeardownKeeps<W>(s: State<W>)
    requires s.Invariant()
    ensures BeginTeardown(s).Invariant()
  {
    TeardownKeepsWaiters(s);
    TeardownEmpties(s);
  }
}
