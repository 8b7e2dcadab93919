/** What OutQueue keeps over whole runs of its operations, in any order the bridge's threads call them. */
module OutQueueRuns {
  import opened Bytes
  import opened Options
  import opened Sequences
  import opened OutQueueModel

  datatype Op<W> =
    | Enqueue(waiter: W, command: Command, seqNo: nat, payload: seq<byte>)
    | Audio(audio: seq<byte>)
    | Pop
    | Settle(settled: Command, settledSeq: nat, reason: WaitReason)
    | Teardown

  function Apply<W(==)>(s: State<W>, op: Op<W>): State<W> {
    match op
    case Enqueue(w, c, seqNo, payload) => EnqueueControl(s, w, c, seqNo, payload)
    case Audio(audio) => EnqueueAudio(s, audio)
    case Pop => PopNext(s).0
    case Settle(c, seqNo, reason) => Notify(s, c, seqNo, reason)
    case Teardown => BeginTeardown(s)
  }

  /**
   enqueue_control makes a new waiter, nobody notifies with the reason that means unfinished, and audio needs room.
   */
  predicate Allowed<W(==)>(s: State<W>, op: Op<W>) {
    && (op.Enqueue? ==> op.waiter !in s.waiters)
    && (op.Settle? ==> op.reason != NoReason)
    && (op.Audio? ==> s.audioCapacity > 0)
  }

  function Run<W(==)>(s: State<W>, ops: seq<Op<W>>): State<W>
    decreases ops
  {
    if ops == [] then s else Run(Apply(s, ops[0]), ops[1..])
  }

  predicate Legal<W(==)>(s: State<W>, ops: seq<Op<W>>)
    decreases ops
  {
    ops == [] || (Allowed(s, ops[0]) && Legal(Apply(s, ops[0]), ops[1..]))
  }

  lemma ApplyKeeps<W>(s: State<W>, op: Op<W>)
    requires s.Invariant() && Allowed(s, op)
    ensures Apply(s, op).Invariant()
  {
    match op
    case Enqueue(w, c, seqNo, payload) => EnqueueKeeps(s, w, c, seqNo, payload);
    case Audio(audio) => AudioKeeps(s, audio);
    case Pop => PopKeeps(s);
    case Settle(c, seqNo, reason) => NotifyKeeps(s, c, seqNo, reason);
    case Teardown => TeardownKeeps(s);
  }

  lemma {:induction false} RunKeeps<W>(s: State<W>, ops: seq<Op<W>>)
    requires s.Invariant() && Legal(s, ops)
    ensures Run(s, ops).Invariant()
    decreases ops
  {
    if ops != [] {
      ApplyKeeps(s, ops[0]);
      RunKeeps(Apply(s, ops[0]), ops[1..]);
    }
  }

  // The schedule.

  lemma {:induction false} Pigeonhole(cs: seq<Command>, others: set<Command>)
    requires NoDuplicates(cs) && forall c :: c in cs ==> c in others
    ensures |cs| <= |others|
    decreases cs
  {
    if cs != [] {
      Unscheduled(cs);
      Pigeonhole(cs[1..], others - {cs[0]});
    }
  }

  lemma ScheduleBounded<W>(s: State<W>)
    requires s.ScheduleInvariant()
    ensures |s.schedule| <= 5
  {
    var all := {Start, Stop, Flush, Reconfigure, Heartbeat};
    forall c: Command
      ensures c in all
    {
      match c
      case Start =>
      case Stop =>
      case Flush =>
      case Reconfigure =>
      case Heartbeat =>
    }
    Pigeonhole(s.schedule, all);
  }

  function Pops<W>(ops: seq<Op<W>>): nat
    decreases ops
  {
    if ops == [] then 0 else (if ops[0].Pop? then 1 else 0) + Pops(ops[1..])
  }

  /** The newest message for c: what superseding leaves in the queued slot. */
  function Newest<W>(held: Held<W>, ops: seq<Op<W>>, c: Command): Held<W>
    decreases ops
  {
    if ops == [] then held
    else if ops[0].Enqueue? && ops[0].command == c then
      Newest(Held(ops[0].waiter, ops[0].seqNo, ops[0].payload), ops[1..], c)
    else Newest(held, ops[1..], c)
  }

  lemma AcceptingUntilTeardown<W>(s: State<W>, c: Command)
    requires s.ScheduleInvariant() && c in s.schedule
    ensures s.accepting && s.At(c).queued.Some? && s.At(c).inFlight.None? && s.At(c).inSchedule
  {
  }

  /** One operation moves a scheduled command only when it pops, and then by one place. */
  lemma PlaceAfter<W>(s: State<W>, op: Op<W>, k: nat)
    requires s.Invariant() && k < |s.schedule| && !op.Teardown? && (op.Pop? ==> k > 0)
    ensures var t, j := Apply(s, op), if op.Pop? then k - 1 else k;
      && j < |t.schedule| && t.schedule[j] == s.schedule[k]
      && t.At(s.schedule[k]).queued == Some(Newest(s.At(s.schedule[k]).queued.value, [op], s.schedule[k]))
  {
    var c := s.schedule[k];
    assert c in s.schedule;
    AcceptingUntilTeardown(s, c);
    assert [op][1..] == [];
    match op
    case Enqueue(_, _, _, _) =>
    case Audio(_) =>
    case Pop =>
      assert s.schedule[0] in s.schedule;
      NothingStale(s);
    case Settle(_, _, _) =>
    case Teardown =>
  }

  /**
   No overtaking: the command at place k of the schedule leaves with the (k+1)-th pop_next from now, with the newest
   message enqueued for it by then, whatever else is called in between.
   */
  lemma {:induction false} EmittedInTurn<W>(s: State<W>, ops: seq<Op<W>>, k: nat)
    requires s.Invariant() && Legal(s, ops) && k < |s.schedule|
    requires Pops(ops) == k && Teardown !in ops
    ensures s.At(s.schedule[k]).queued.Some?
    ensures PopNext(Run(s, ops)).1
      == Some(ControlFrame(s.schedule[k], Newest(s.At(s.schedule[k]).queued.value, ops, s.schedule[k])))
    decreases ops
  {
    var c := s.schedule[k];
    assert c in s.schedule;
    AcceptingUntilTeardown(s, c);
    if ops == [] {
      NothingStale(s);
    } else {
      var op := ops[0];
      assert op in ops;
      PlaceAfter(s, op, k);
      ApplyKeeps(s, op);
      assert [op][1..] == [];
      EmittedInTurn(Apply(s, op), ops[1..], if op.Pop? then k - 1 else k);
    }
  }

  // One message of a command at a time.

  /** Some pop_next in the run returns a frame of command c. */
  predicate Emits<W(==)>(s: State<W>, ops: seq<Op<W>>, c: Command)
    decreases ops
  {
    && ops != []
    && (|| (ops[0].Pop? && PopNext(s).1.Some? && PopNext(s).1.value.ControlFrame? && PopNext(s).1.value.command == c)
        || Emits(Apply(s, ops[0]), ops[1..], c))
  }

  predicate Settles<W>(op: Op<W>, c: Command, seqNo: nat) {
    op.Settle? && op.settled == c && op.settledSeq == seqNo
  }

  predicate Unsettled<W>(ops: seq<Op<W>>, c: Command, seqNo: nat)
    decreases ops
  {
    ops == [] || (!Settles(ops[0], c, seqNo) && Unsettled(ops[1..], c, seqNo))
  }

  lemma {:induction false} SettledSomewhere<W>(ops: seq<Op<W>>, c: Command, seqNo: nat)
    requires !Unsettled(ops, c, seqNo)
    ensures exists i :: 0 <= i < |ops| && Settles(ops[i], c, seqNo)
    decreases ops
  {
    if !Settles(ops[0], c, seqNo) {
      SettledSomewhere(ops[1..], c, seqNo);
      var i :| 0 <= i < |ops[1..]| && Settles(ops[1..][i], c, seqNo);
      assert ops[i + 1] == ops[1..][i];
    }
  }

  lemma {:induction false} ClosedEmitsNothing<W>(s: State<W>, ops: seq<Op<W>>, c: Command)
    requires s.Invariant() && Legal(s, ops) && !s.accepting
    ensures !Emits(s, ops, c)
    decreases ops
  {
    if ops != [] {
      NothingStale(s);
      if s.schedule != [] {
        AcceptingUntilTeardown(s, s.schedule[0]);
      }
      ApplyKeeps(s, ops[0]);
      StaysClosed(s, ops[0]);
      ClosedEmitsNothing(Apply(s, ops[0]), ops[1..], c);
    }
  }

  lemma StaysClosed<W>(s: State<W>, op: Op<W>)
    requires s.Invariant() && !s.accepting
    ensures !Apply(s, op).accepting
  {
    NothingStale(s);
  }

  lemma StaysInFlight<W>(s: State<W>, op: Op<W>, c: Command)
    requires s.Invariant() && s.At(c).inFlight.Some? && !op.Teardown?
    requires !Settles(op, c, s.At(c).inFlight.value.seqNo)
    ensures Apply(s, op).At(c).inFlight == s.At(c).inFlight
    ensures op.Pop? && PopNext(s).1.Some? && PopNext(s).1.value.ControlFrame? ==> PopNext(s).1.value.command != c
  {
    match op
    case Enqueue(_, _, _, _) =>
    case Audio(_) =>
    case Pop =>
      NothingStale(s);
      if s.schedule != [] {
        AcceptingUntilTeardown(s, s.schedule[0]);
      }
    case Settle(_, _, _) =>
  }

  lemma {:induction false} OneInFlight<W>(s: State<W>, ops: seq<Op<W>>, c: Command)
    requires s.Invariant() && Legal(s, ops) && s.At(c).inFlight.Some?
    requires Unsettled(ops, c, s.At(c).inFlight.value.seqNo)
    ensures !Emits(s, ops, c)
    decreases ops
  {
    if ops != [] {
      ApplyKeeps(s, ops[0]);
      if ops[0].Teardown? {
        ClosedEmitsNothing(Apply(s, ops[0]), ops[1..], c);
      } else {
        StaysInFlight(s, ops[0], c);
        OneInFlight(Apply(s, ops[0]), ops[1..], c);
      }
    }
  }

  /** Between two emissions of a command that expects a reply there is a notify for the first. */
  lemma EmissionsSeparated<W>(s: State<W>, ops: seq<Op<W>>, c: Command, held: Held<W>)
    requires s.Invariant() && ExpectsReply(c) && PopNext(s).1 == Some(ControlFrame(c, held))
    requires Legal(PopNext(s).0, ops) && Emits(PopNext(s).0, ops, c)
    ensures exists i :: 0 <= i < |ops| && Settles(ops[i], c, held.seqNo)
  {
    PopKeeps(s);
    if Unsettled(ops, c, held.seqNo) {
      OneInFlight(PopNext(s).0, ops, c);
    } else {
      SettledSomewhere(ops, c, held.seqNo);
    }
  }

  // Audio.

  lemma AudioWaitsForControls<W>(s: State<W>)
    requires s.Invariant()
    ensures PopNext(s).1.Some? && PopNext(s).1.value.AudioFrame? <==> s.schedule == [] && s.audio != []
    ensures PopNext(s).1.None? <==> s.schedule == [] && s.audio == []
  {
    NothingStale(s);
    if s.schedule != [] {
      AcceptingUntilTeardown(s, s.schedule[0]);
    }
  }

  function AudioIn<W>(ops: seq<Op<W>>): nat
    decreases ops
  {
    if ops == [] then 0 else (if ops[0].Audio? then 1 else 0) + AudioIn(ops[1..])
  }

  function AudioOut<W(==)>(s: State<W>, ops: seq<Op<W>>): nat
    decreases ops
  {
    if ops == [] then 0
    else
      var left := if ops[0].Pop? && PopNext(s).1.Some? && PopNext(s).1.value.AudioFrame? then 1 else 0;
      left + AudioOut(Apply(s, ops[0]), ops[1..])
  }

  lemma AudioStep<W>(s: State<W>, op: Op<W>)
    requires s.Invariant() && Allowed(s, op)
    ensures var t := Apply(s, op);
      t.droppedAudio + |t.audio| + AudioOut(s, [op]) == s.droppedAudio + |s.audio| + AudioIn([op])
  {
    assert [op][1..] == [];
    match op
    case Enqueue(_, _, _, _) =>
    case Audio(_) =>
    case Pop => NothingStale(s);
    case Settle(_, _, _) =>
    case Teardown =>
  }

  /** Every audio frame given to the queue is sent, dropped as the oldest, or still there. */
  lemma {:induction false} AudioConserved<W>(s: State<W>, ops: seq<Op<W>>)
    requires s.Invariant() && Legal(s, ops)
    ensures var t := Run(s, ops);
      t.droppedAudio + |t.audio| + AudioOut(s, ops) == s.droppedAudio + |s.audio| + AudioIn(ops)
    decreases ops
  {
    if ops != [] {
      ApplyKeeps(s, ops[0]);
      AudioStep(s, ops[0]);
      assert [ops[0]][1..] == [];
      AudioConserved(Apply(s, ops[0]), ops[1..]);
    }
  }

  /**
   The audio frames given to the queue, those it gives to the writer, and those it evicts: always the oldest it holds.
   */
  function AudioGiven<W>(ops: seq<Op<W>>): seq<seq<byte>>
    decreases ops
  {
    if ops == [] then [] else (if ops[0].Audio? then [ops[0].audio] else []) + AudioGiven(ops[1..])
  }

  function AudioSent<W(==)>(s: State<W>, ops: seq<Op<W>>): seq<seq<byte>>
    decreases ops
  {
    if ops == [] then []
    else
      var frame := if ops[0].Pop? then PopNext(s).1 else None;
      (if frame.Some? && frame.value.AudioFrame? then [frame.value.payload] else []) +
        AudioSent(Apply(s, ops[0]), ops[1..])
  }

  function AudioEvicted<W(==)>(s: State<W>, ops: seq<Op<W>>): seq<seq<byte>>
    decreases ops
  {
    if ops == [] then []
    else
      var oldest := if ops[0].Audio? && s.audio != [] && |s.audio| >= s.audioCapacity then [s.audio[0]] else [];
      oldest + AudioEvicted(Apply(s, ops[0]), ops[1..])
  }

  lemma AudioUntouched<W>(s: State<W>, op: Op<W>)
    requires s.Invariant() && !op.Audio? && !(op.Pop? && s.schedule == [] && s.audio != [])
    ensures Apply(s, op).audio == s.audio && Apply(s, op).droppedAudio == s.droppedAudio
    ensures op.Pop? ==> PopNext(s).1.None? || !PopNext(s).1.value.AudioFrame?
  {
    match op
    case Enqueue(_, _, _, _) =>
    case Audio(_) =>
    case Pop =>
      NothingStale(s);
      AudioWaitsForControls(s);
    case Settle(_, _, _) =>
    case Teardown =>
  }

  lemma OldestPopped<W>(s: State<W>)
    requires s.Invariant() && s.schedule == [] && s.audio != []
    ensures var (t, frame) := PopNext(s);
      frame == Some(AudioFrame(s.audio[0])) && t.audio == s.audio[1..] && t.droppedAudio == s.droppedAudio
  {
    NothingStale(s);
  }

  lemma AudioFirst<W>(s: State<W>, ops: seq<Op<W>>)
    requires ops != [] && s.Invariant() && !ops[0].Audio? && !(ops[0].Pop? && s.schedule == [] && s.audio != [])
    ensures var t := Apply(s, ops[0]);
      && AudioGiven(ops) == AudioGiven(ops[1..]) && AudioSent(s, ops) == AudioSent(t, ops[1..])
      && AudioEvicted(s, ops) == AudioEvicted(t, ops[1..]) && t.audio == s.audio && t.droppedAudio == s.droppedAudio
  {
    AudioUntouched(s, ops[0]);
  }

  lemma AudioGivenFirst<W>(s: State<W>, ops: seq<Op<W>>)
    requires ops != [] && ops[0].Audio?
    ensures var t := Apply(s, ops[0]); var full := s.audio != [] && |s.audio| >= s.audioCapacity;
      && AudioGiven(ops) == [ops[0].audio] + AudioGiven(ops[1..]) && AudioSent(s, ops) == AudioSent(t, ops[1..])
      && AudioEvicted(s, ops) == (if full then [s.audio[0]] else []) + AudioEvicted(t, ops[1..])
      && t.audio == (if full then s.audio[1..] else s.audio) + [ops[0].audio]
      && t.droppedAudio == s.droppedAudio + (if full then 1 else 0)
  {
    assert [] + AudioSent(Apply(s, ops[0]), ops[1..]) == AudioSent(Apply(s, ops[0]), ops[1..]);
  }

  lemma AudioSentFirst<W>(s: State<W>, ops: seq<Op<W>>)
    requires ops != [] && s.Invariant() && ops[0].Pop? && s.schedule == [] && s.audio != []
    ensures var t := Apply(s, ops[0]);
      && AudioGiven(ops) == AudioGiven(ops[1..]) && AudioSent(s, ops) == [s.audio[0]] + AudioSent(t, ops[1..])
      && AudioEvicted(s, ops) == AudioEvicted(t, ops[1..]) && t.audio == s.audio[1..]
      && t.droppedAudio == s.droppedAudio
  {
    OldestPopped(s);
  }

  /**
   Over any run the audio frames sent and those still held, with the evicted ones shuffled in, are those that were
   given, each in the order given; what is evicted is the oldest frame held, and exactly that is counted as dropped.
   */
  lemma {:induction false} AudioInOrder<W>(s: State<W>, ops: seq<Op<W>>)
    requires s.Invariant() && Legal(s, ops)
    ensures var t := Run(s, ops);
      && Shuffles(AudioSent(s, ops) + t.audio, AudioEvicted(s, ops), s.audio + AudioGiven(ops))
      && t.droppedAudio == s.droppedAudio + |AudioEvicted(s, ops)|
    decreases ops
  {
    if ops == [] {
      assert s.audio + [] == s.audio && [] + s.audio == s.audio;
      ShufflesNone(s.audio);
    } else {
      ApplyKeeps(s, ops[0]);
      AudioInOrder(Apply(s, ops[0]), ops[1..]);
      if ops[0].Audio? {
        AudioGivenFirst(s, ops);
        GivenShuffles(s, ops);
      } else if ops[0].Pop? && s.schedule == [] && s.audio != [] {
        AudioSentFirst(s, ops);
        var t := Apply(s, ops[0]);
        ShufflesPopped(s.audio, AudioSent(t, ops[1..]), Run(s, ops).audio, AudioEvicted(t, ops[1..]),
          AudioGiven(ops[1..]));
      } else {
        AudioFirst(s, ops);
      }
    }
  }

  lemma GivenShuffles<W>(s: State<W>, ops: seq<Op<W>>)
    requires ops != [] && ops[0].Audio?
    requires var t := Apply(s, ops[0]);
      Shuffles(AudioSent(t, ops[1..]) + Run(s, ops).audio, AudioEvicted(t, ops[1..]), t.audio + AudioGiven(ops[1..]))
    ensures Shuffles(AudioSent(s, ops) + Run(s, ops).audio, AudioEvicted(s, ops), s.audio + AudioGiven(ops))
  {
    AudioGivenFirst(s, ops);
    var t, later := Apply(s, ops[0]), AudioGiven(ops[1..]);
    var kept := AudioSent(t, ops[1..]) + Run(s, ops).audio;
    if s.audio != [] && |s.audio| >= s.audioCapacity {
      ShufflesEvicted(s.audio, ops[0].audio, kept, AudioEvicted(t, ops[1..]), later);
    } else {
      ConcatAssociates(s.audio, [ops[0].audio], later);
      assert [] + AudioEvicted(t, ops[1..]) == AudioEvicted(t, ops[1..]);
    }
  }

  // Waiters.

  /** A waiter that sits in no slot. */
  predicate Free<W(==)>(s: State<W>, w: W) {
    w in s.waiters && !s.Holds(s.waiters[w].command, w)
  }

  /** Waiters are never forgotten, and one that sits in no slot is never touched again. */
  predicate Forward<W>(s: State<W>, t: State<W>) {
    forall w :: w in s.waiters ==>
                  && w in t.waiters
                  && t.waiters[w].command == s.waiters[w].command
                  && (Free(s, w) ==> Free(t, w) && t.waiters[w] == s.waiters[w])
  }

  lemma FinishedIsFree<W>(s: State<W>, w: W)
    requires s.WaiterInvariant() && w in s.waiters && s.waiters[w].result != NoReason
    ensures Free(s, w)
  {
    assert s.SlotsOf(s.waiters[w].command);
  }

  /** An operation on command c need only be looked at for the waiters of c. */
  lemma ForwardBy<W>(s: State<W>, t: State<W>, c: Command)
    requires forall d :: d != c ==> t.At(d) == s.At(d)
    requires forall w :: w in s.waiters ==> w in t.waiters && t.waiters[w].command == s.waiters[w].command
    requires forall w :: w in s.waiters && s.waiters[w].command != c ==> t.waiters[w] == s.waiters[w]
    requires forall w ::
      w in s.waiters && s.waiters[w].command == c && Free(s, w) ==> Free(t, w) && t.waiters[w] == s.waiters[w]
    ensures Forward(s, t)
  {
    forall w | w in s.waiters && s.waiters[w].command != c
      ensures Free(s, w) ==> Free(t, w)
    {
      assert t.At(s.waiters[w].command) == s.At(s.waiters[w].command);
    }
  }

  lemma FinishInFlightForward<W>(s: State<W>, c: Command, reason: WaitReason)
    requires s.WaiterInvariant()
    ensures Forward(s, FinishInFlight(s, c, reason))
  {
    var t := FinishInFlight(s, c, reason);
    var held := s.At(c).inFlight;
    assert s.SlotsOf(c);
    assert t.waiters == if held.Some? then s.waiters[held.value.waiter := Ticket(c, reason)] else s.waiters;
    assert t.At(c) == s.At(c).(inFlight := None);
    ForwardBy(s, t, c);
  }

  lemma FinishQueuedForward<W>(s: State<W>, c: Command, reason: WaitReason)
    requires s.WaiterInvariant()
    ensures Forward(s, FinishQueued(s, c, reason))
  {
    var t := FinishQueued(s, c, reason);
    var held := s.At(c).queued;
    assert s.SlotsOf(c);
    assert t.waiters == if held.Some? then s.waiters[held.value.waiter := Ticket(c, reason)] else s.waiters;
    assert t.At(c) == s.At(c).(queued := None);
    ForwardBy(s, t, c);
  }

  lemma IssueForward<W>(s: State<W>, w: W, c: Command, seqNo: nat, payload: seq<byte>)
    requires w !in s.waiters
    ensures Forward(s, Issue(s, w, c, seqNo, payload))
  {
  }

  lemma MarkForward<W>(s: State<W>, c: Command, inSchedule: bool, schedule: seq<Command>, accepting: bool)
    ensures Forward(s, s.With(c, s.At(c).(inSchedule := inSchedule)).(schedule := schedule, accepting := accepting))
  {
  }

  lemma EnqueueForward<W>(s: State<W>, w: W, c: Command, seqNo: nat, payload: seq<byte>)
    requires s.Invariant() && w !in s.waiters
    ensures Forward(s, EnqueueControl(s, w, c, seqNo, payload))
  {
    if s.accepting {
      FinishQueuedForward(s, c, Superseded);
      var finished := FinishQueued(s, c, Superseded);
      IssueForward(finished, w, c, seqNo, payload);
      var issued := Issue(finished, w, c, seqNo, payload);
      MarkForward(issued, c, true, issued.schedule + [c], issued.accepting);
    }
  }

  lemma ForwardTrans<W>(s: State<W>, t: State<W>, u: State<W>)
    requires Forward(s, t) && Forward(t, u)
    ensures Forward(s, u)
  {
  }

  lemma PopForward<W>(s: State<W>)
    requires s.Invariant()
    ensures Forward(s, PopNext(s).0)
  {
    NothingStale(s);
    var t := PopFresh(s).0;
    if s.schedule != [] {
      AcceptingUntilTeardown(s, s.schedule[0]);
      ForwardBy(s, t, s.schedule[0]);
    }
  }

  lemma NotifyForward<W>(s: State<W>, c: Command, seqNo: nat, reason: WaitReason)
    requires s.Invariant()
    ensures Forward(s, Notify(s, c, seqNo, reason))
  {
    if Matches(s, c, seqNo) {
      FinishInFlightForward(s, c, reason);
      var finished := FinishInFlight(s, c, reason);
      MarkForward(finished, c, true, finished.schedule + [c], finished.accepting);
      ForwardTrans(s, finished, Reschedule(finished, c));
    }
  }

  lemma DropForward<W>(s: State<W>, c: Command)
    requires s.WaiterInvariant()
    ensures Forward(s, Drop(s, c))
  {
    var idle := FinishInFlight(s, c, Cancelled);
    FinishInFlightForward(s, c, Cancelled);
    FinishInFlightKeepsWaiters(s, c, Cancelled);
    var emptied := FinishQueued(idle, c, NoSession);
    FinishQueuedForward(idle, c, NoSession);
    MarkForward(emptied, c, false, emptied.schedule, emptied.accepting);
    ForwardTrans(s, idle, emptied);
    ForwardTrans(s, emptied, Drop(s, c));
  }

  lemma {:induction false} DropAllForward<W>(s: State<W>, cs: seq<Command>)
    requires s.WaiterInvariant()
    ensures Forward(s, DropAll(s, cs))
    decreases cs
  {
    if cs != [] {
      DropForward(s, cs[0]);
      DropKeepsWaiters(s, cs[0]);
      DropAllForward(Drop(s, cs[0]), cs[1..]);
      ForwardTrans(s, Drop(s, cs[0]), DropAll(s, cs));
    }
  }

  lemma TeardownForward<W>(s: State<W>)
    requires s.Invariant()
    ensures Forward(s, BeginTeardown(s))
  {
    var closed := s.(accepting := false);
    ClosedKeepsWaiters(s);
    DropAllForward(closed, COMMANDS);
    SameWaitersForward(s, closed);
    ForwardTrans(s, closed, DropAll(closed, COMMANDS));
    SameWaitersForward(DropAll(closed, COMMANDS), BeginTeardown(s));
    ForwardTrans(s, DropAll(closed, COMMANDS), BeginTeardown(s));
  }

  lemma SameWaitersForward<W>(s: State<W>, t: State<W>)
    requires t.commands == s.commands && t.waiters == s.waiters
    ensures Forward(s, t)
  {
    assert forall c :: t.At(c) == s.At(c);
  }

  lemma ApplyForward<W>(s: State<W>, op: Op<W>)
    requires s.Invariant() && Allowed(s, op)
    ensures Forward(s, Apply(s, op))
  {
    match op
    case Enqueue(w, c, seqNo, payload) => EnqueueForward(s, w, c, seqNo, payload);
    case Audio(audio) => SameWaitersForward(s, EnqueueAudio(s, audio));
    case Pop => PopForward(s);
    case Settle(c, seqNo, reason) => NotifyForward(s, c, seqNo, reason);
    case Teardown => TeardownForward(s);
  }

  /** Over any run a waiter's reason never changes, nor does anything reach a waiter that has left its slot. */
  lemma {:induction false} ReasonsFinal<W>(s: State<W>, ops: seq<Op<W>>)
    requires s.Invariant() && Legal(s, ops)
    ensures Forward(s, Run(s, ops))
    ensures forall w ::
      w in s.waiters && s.waiters[w].result != NoReason ==>
        w in Run(s, ops).waiters && Run(s, ops).waiters[w] == s.waiters[w]
    decreases ops
  {
    if ops == [] {
      SameWaitersForward(s, s);
    } else {
      ApplyKeeps(s, ops[0]);
      ApplyForward(s, ops[0]);
      ReasonsFinal(Apply(s, ops[0]), ops[1..]);
      ForwardTrans(s, Apply(s, ops[0]), Run(s, ops));
    }
    forall w | w in s.waiters && s.waiters[w].result != NoReason
      ensures w in Run(s, ops).waiters && Run(s, ops).waiters[w] == s.waiters[w]
    {
      FinishedIsFree(s, w);
    }
  }

  /** The waiter of a heartbeat, once popped, stays unfinished for good. */
  lemma PoppedHeartbeatNeverCompletes<W>(s: State<W>, ops: seq<Op<W>>, held: Held<W>)
    requires s.Invariant() && PopNext(s).1 == Some(ControlFrame(Heartbeat, held)) && Legal(PopNext(s).0, ops)
    ensures held.waiter in Run(PopNext(s).0, ops).waiters
    ensures Run(PopNext(s).0, ops).waiters[held.waiter].result == NoReason
  {
    PopKeeps(s);
    assert s.SlotsOf(Heartbeat);
    assert Free(PopNext(s).0, held.waiter);
    ReasonsFinal(PopNext(s).0, ops);
  }

  lemma {:induction false} ClosedStays<W>(s: State<W>, ops: seq<Op<W>>)
    requires s.Invariant() && Legal(s, ops) && !s.accepting
    ensures !Run(s, ops).accepting
    decreases ops
  {
    if ops != [] {
      ApplyKeeps(s, ops[0]);
      StaysClosed(s, ops[0]);
      ClosedStays(Apply(s, ops[0]), ops[1..]);
    }
  }

  /** The waiter w is finished and in no slot, or unfinished and in exactly one, of its own command. */
  predicate FinishedOrHeldOnce<W(==)>(s: State<W>, w: W)
    requires w in s.waiters
  {
    var c := s.waiters[w].command;
    var inFlight := s.At(c).inFlight.Some? && s.At(c).inFlight.value.waiter == w;
    var queued := s.At(c).queued.Some? && s.At(c).queued.value.waiter == w;
    && (forall d :: d != c ==> !s.Holds(d, w))
    && (if s.waiters[w].result != NoReason then !inFlight && !queued else inFlight != queued)
  }

  lemma HeldOnce<W>(s: State<W>, w: W)
    requires s.WaiterInvariant() && w in s.waiters
    requires s.waiters[w].command == Heartbeat ==> !Free(s, w)
    ensures FinishedOrHeldOnce(s, w)
  {
    forall d | d != s.waiters[w].command
      ensures !s.Holds(d, w)
    {
      assert s.SlotsOf(d);
    }
    assert s.Settled(w) && s.SlotsOf(s.waiters[w].command);
  }

  /**
   In every run each waiter that may expect a reply is either finished or in exactly one slot, that of its command.
   */
  lemma WaitersSettledOnce<W>(audioCapacity: nat, ops: seq<Op<W>>, w: W)
    requires Legal(Empty(audioCapacity), ops) && w in Run(Empty(audioCapacity), ops).waiters
    requires Run(Empty(audioCapacity), ops).waiters[w].command != Heartbeat
    ensures FinishedOrHeldOnce(Run(Empty(audioCapacity), ops), w)
  {
    EmptyInvariant<W>(audioCapacity);
    RunKeeps(Empty(audioCapacity), ops);
    HeldOnce(Run(Empty(audioCapacity), ops), w);
  }

  lemma EmptyInvariant<W>(audioCapacity: nat)
    ensures Empty<W>(audioCapacity).Invariant()
  {
  }

  /** From begin_teardown on, whatever is called, nobody who may expect a reply is left waiting. */
  lemma NobodyWaitsAfterTeardown<W>(s: State<W>, ops: seq<Op<W>>, w: W)
    requires s.Invariant() && Legal(BeginTeardown(s), ops)
    requires w in Run(BeginTeardown(s), ops).waiters && Run(BeginTeardown(s), ops).waiters[w].command != Heartbeat
    ensures Run(BeginTeardown(s), ops).waiters[w].result != NoReason
  {
    TeardownKeeps(s);
    RunKeeps(BeginTeardown(s), ops);
    ClosedStays(BeginTeardown(s), ops);
    assert Run(BeginTeardown(s), ops).Settled(w);
  }

  // Who gets which reason.

  /** The waiter superseded gets that reason, the new one waits, and its message takes the queued slot. */
  lemma EnqueueSupersedes<W>(s: State<W>, w: W, c: Command, seqNo: nat, payload: seq<byte>)
    requires s.Invariant() && s.accepting && w !in s.waiters
    ensures var t := EnqueueControl(s, w, c, seqNo, payload);
      && t.waiters ==
           (if s.At(c).queued.Some? then s.waiters[s.At(c).queued.value.waiter := Ticket(c, Superseded)]
            else s.waiters)[w := Ticket(c, NoReason)]
      && t.At(c).queued == Some(Held(w, seqNo, payload)) && t.At(c).inFlight == s.At(c).inFlight
      && t.schedule == (if s.At(c).inSchedule || s.At(c).inFlight.Some? then s.schedule else s.schedule + [c])
  {
    assert s.SlotsOf(c);
    var finished := FinishQueued(s, c, Superseded);
    assert finished.waiters ==
      if s.At(c).queued.Some? then s.waiters[s.At(c).queued.value.waiter := Ticket(c, Superseded)] else s.waiters;
    assert finished.At(c) == s.At(c).(queued := None);
  }

  /** A matching notify gives its reason to the waiter in flight, frees the command and schedules what is queued. */
  lemma NotifySettles<W>(s: State<W>, c: Command, seqNo: nat, reason: WaitReason)
    requires s.Invariant() && Matches(s, c, seqNo)
    ensures var t := Notify(s, c, seqNo, reason);
      && t.waiters == s.waiters[s.At(c).inFlight.value.waiter := Ticket(c, reason)]
      && t.At(c).inFlight.None? && t.At(c).queued == s.At(c).queued
      && (c in t.schedule <==> s.At(c).queued.Some?)
  {
    assert s.SlotsOf(c);
    NotifyKeepsSchedule(s, c, seqNo, reason);
    var finished := FinishInFlight(s, c, reason);
    assert finished.waiters == s.waiters[s.At(c).inFlight.value.waiter := Ticket(c, reason)];
    assert finished.At(c) == s.At(c).(inFlight := None);
  }

  lemma DropSettles<W>(s: State<W>, c: Command)
    requires s.WaiterInvariant()
    ensures var t := Drop(s, c);
      && (s.At(c).inFlight.Some? ==>
           s.At(c).inFlight.value.waiter in t.waiters
             && t.waiters[s.At(c).inFlight.value.waiter] == Ticket(c, Cancelled))
      && (s.At(c).queued.Some? ==>
           s.At(c).queued.value.waiter in t.waiters && t.waiters[s.At(c).queued.value.waiter] == Ticket(c, NoSession))
  {
    assert s.SlotsOf(c);
    var idle := FinishInFlight(s, c, Cancelled);
    assert idle.waiters ==
      if s.At(c).inFlight.Some? then s.waiters[s.At(c).inFlight.value.waiter := Ticket(c, Cancelled)] else s.waiters;
    assert idle.At(c) == s.At(c).(inFlight := None);
    var emptied := FinishQueued(idle, c, NoSession);
    assert emptied.waiters ==
      if s.At(c).queued.Some? then idle.waiters[s.At(c).queued.value.waiter := Ticket(c, NoSession)] else idle.waiters;
  }

  lemma {:induction false} DropAllSettles<W>(s: State<W>, cs: seq<Command>, c: Command)
    requires s.WaiterInvariant() && c in cs
    ensures var t := DropAll(s, cs);
      && (s.At(c).inFlight.Some? ==>
           s.At(c).inFlight.value.waiter in t.waiters
             && t.waiters[s.At(c).inFlight.value.waiter] == Ticket(c, Cancelled))
      && (s.At(c).queued.Some? ==>
           s.At(c).queued.value.waiter in t.waiters && t.waiters[s.At(c).queued.value.waiter] == Ticket(c, NoSession))
    decreases cs
  {
    var next := Drop(s, cs[0]);
    DropKeepsWaiters(s, cs[0]);
    if c == cs[0] {
      DropSettles(s, c);
      DropAllForward(next, cs[1..]);
      if s.At(c).inFlight.Some? {
        FinishedIsFree(next, s.At(c).inFlight.value.waiter);
      }
      if s.At(c).queued.Some? {
        FinishedIsFree(next, s.At(c).queued.value.waiter);
      }
    } else {
      DropAllSettles(next, cs[1..], c);
    }
  }

  /** begin_teardown cancels what is in flight and tells what is queued that there is no session. */
  lemma TeardownSettles<W>(s: State<W>, c: Command)
    requires s.Invariant()
    ensures var t := BeginTeardown(s);
      && (s.At(c).inFlight.Some? ==>
           s.At(c).inFlight.value.waiter in t.waiters
             && t.waiters[s.At(c).inFlight.value.waiter] == Ticket(c, Cancelled))
      && (s.At(c).queued.Some? ==>
           s.At(c).queued.value.waiter in t.waiters && t.waiters[s.At(c).queued.value.waiter] == Ticket(c, NoSession))
  {
    EveryCommand(c);
    ClosedKeepsWaiters(s);
    DropAllSettles(s.(accepting := false), COMMANDS, c);
  }

  // After teardown.

  /**
   Closed, with nothing in any slot or scheduled; every waiter since `earlier` got no session, and none before has
   changed.
   */
  ghost predicate ClosedSince<W>(t: State<W>, earlier: map<W, Ticket>) {
    && !t.accepting && t.schedule == []
    && (forall c: Command :: t.At(c).inFlight.None? && t.At(c).queued.None?)
    && (forall w :: w in earlier ==> w in t.waiters && t.waiters[w] == earlier[w])
    && (forall w :: w in t.waiters && w !in earlier ==> t.waiters[w].result == NoSession)
  }

  lemma ClosedIsEmpty<W>(s: State<W>)
    requires s.Invariant() && !s.accepting
    ensures s.schedule == [] && forall c: Command :: s.At(c).inFlight.None? && s.At(c).queued.None?
  {
    if s.schedule != [] {
      AcceptingUntilTeardown(s, s.schedule[0]);
    }
  }

  lemma ClosedStep<W>(s: State<W>, op: Op<W>, earlier: map<W, Ticket>)
    requires s.Invariant() && Allowed(s, op) && ClosedSince(s, earlier)
    ensures ClosedSince(Apply(s, op), earlier)
  {
    ApplyKeeps(s, op);
    StaysClosed(s, op);
    ClosedIsEmpty(Apply(s, op));
    NothingStale(s);
    if op.Teardown? {
      EmptyDropsNothing(s.(accepting := false), COMMANDS);
    }
  }

  lemma {:induction false} EmptyDropsNothing<W>(s: State<W>, cs: seq<Command>)
    requires forall c: Command :: s.At(c).inFlight.None? && s.At(c).queued.None?
    ensures DropAll(s, cs).waiters == s.waiters
    decreases cs
  {
    if cs != [] {
      EmptyDropsNothing(Drop(s, cs[0]), cs[1..]);
    }
  }

  /**
   After begin_teardown, whatever is called: every later enqueue_control finishes its waiter with no session at once,
   takes no slot and no place in the schedule, and no earlier waiter changes any more.
   */
  lemma {:induction false} ClosedRefuses<W>(s: State<W>, ops: seq<Op<W>>, earlier: map<W, Ticket>)
    requires s.Invariant() && Legal(s, ops) && ClosedSince(s, earlier)
    ensures ClosedSince(Run(s, ops), earlier)
    decreases ops
  {
    if ops != [] {
      ApplyKeeps(s, ops[0]);
      ClosedStep(s, ops[0], earlier);
      ClosedRefuses(Apply(s, ops[0]), ops[1..], earlier);
    }
  }

  lemma TeardownRefusesEver<W>(s: State<W>, ops: seq<Op<W>>)
    requires s.Invariant() && Legal(BeginTeardown(s), ops)
    ensures ClosedSince(Run(BeginTeardown(s), ops), BeginTeardown(s).waiters)
  {
    TeardownKeeps(s);
    ClosedIsEmpty(BeginTeardown(s));
    ClosedRefuses(BeginTeardown(s), ops, BeginTeardown(s).waiters);
  }
}
