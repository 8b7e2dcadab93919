/**
 The control protocol end to end: the plugin's OutQueue sends control messages over a first-in first-out pipe to the
 sidecar's dispatcher, whose replies come back over another one. Sequence numbers are fresh and increasing, as
 next_control_seq_ hands them out, and neither timeout nor cancel is used.
 */
module ControlProtocol {
  import opened Bytes
  import opened Options
  import Q = OutQueueModel
  import D = ControlDispatcher
  import R = DispatchRuns

  function Number(c: Q.Command): nat {
    match c
    case Start => D.START
    case Stop => D.STOP
    case Flush => D.FLUSH
    case Reconfigure => D.RECONFIGURE
    case Heartbeat => 8
  }

  function CommandOf(number: nat): Q.Command {
    if number == D.START then Q.Start
    else if number == D.STOP then Q.Stop
    else if number == D.FLUSH then Q.Flush
    else Q.Reconfigure
  }

  /** A control message given to the pipe, and whose waiter waits for its reply. */
  datatype Sent = Sent(msg: D.Queued, waiter: nat)

  /**
   `sent` lists every control message sent; the first |s.arrivals| have reached the dispatcher, the others are in the
   pipe. `outgoing` is the sidecar's out queue, `back` the pipe to the plugin. `current` is the number of the message
   each command has in flight.
   */
  datatype Protocol = Protocol(
    q: Q.State<nat>,
    nextSeq: nat,
    nextWaiter: nat,
    current: map<Q.Command, nat>,
    sent: seq<Sent>,
    s: R.State,
    outgoing: seq<D.Reply>,
    back: seq<D.Reply>
  )

  /** status_reason. */
  function ReasonOf(code: D.Code): Q.WaitReason {
    match code
    case Ok => Q.Complete
    case FlushDone => Q.Complete
    case Cancelled => Q.Cancelled
    case NoSession => Q.NoSession
    case EngineInitFail => Q.Timeout
    case RuntimeError => Q.Timeout
    case ConfigError => Q.Timeout
  }

  /** apply_status: a notify for each command that expects a reply. */
  function ApplyStatus(q: Q.State<nat>, seqNo: nat, reason: Q.WaitReason): Q.State<nat> {
    var q1 := Q.Notify(q, Q.Start, seqNo, reason);
    var q2 := Q.Notify(q1, Q.Stop, seqNo, reason);
    var q3 := Q.Notify(q2, Q.Flush, seqNo, reason);
    Q.Notify(q3, Q.Reconfigure, seqNo, reason)
  }

  function ApplyReply(q: Q.State<nat>, r: D.Reply): Q.State<nat> {
    if r.code.FlushDone? then Q.Notify(q, Q.Flush, r.seqNo, Q.Complete) else ApplyStatus(q, r.seqNo, ReasonOf(r.code))
  }

  datatype Action =
    | Ask(command: Q.Command, payload: seq<byte>)
    | AskHeartbeat(beat: seq<byte>)
    | Send(arg: string)
    | Arrive(hasContext: bool)
    | Task(chance: R.Chance)
    | LoseOldest
    | Transmit
    | Deliver
    | Unsolicited(code: D.Code)
    | Teardown

  function Asking(p: Protocol, c: Q.Command, seqNo: nat, payload: seq<byte>): Protocol {
    p.(q := Q.EnqueueControl(p.q, p.nextWaiter, c, seqNo, payload), nextWaiter := p.nextWaiter + 1,
       nextSeq := if c.Heartbeat? then p.nextSeq else p.nextSeq + 1)
  }

  function Sending(p: Protocol, arg: string): Protocol {
    var (q, frame) := Q.PopNext(p.q);
    if frame.Some? && frame.value.ControlFrame? && !frame.value.command.Heartbeat? then
      var held := frame.value.held;
      var msg := D.Queued(|p.sent|, Number(frame.value.command), held.seqNo, arg);
      p.(q := q, sent := p.sent + [Sent(msg, held.waiter)], current := p.current[frame.value.command := |p.sent|])
    else
      p.(q := q)
  }

  /** A step of the sidecar: what it replies goes to the out queue. */
  function Sidecar(p: Protocol, t: R.State): Protocol {
    p.(s := t, outgoing := p.outgoing + if |p.s.replies| <= |t.replies| then t.replies[|p.s.replies|..] else [])
  }

  function Arriving(p: Protocol, hasContext: bool): Protocol {
    if |p.s.arrivals| < |p.sent| then
      var msg := p.sent[|p.s.arrivals|].msg;
      Sidecar(p, R.Arrive(p.s, msg.command, msg.seqNo, msg.arg, hasContext))
    else
      p
  }

  /** The drain task is at an await, where the sidecar may write out what is queued. */
  predicate AtAwait(place: R.Place) {
    !place.Finishing? && !place.Clearing? && !place.Cancelling?
  }

  function Step(p: Protocol, a: Action): Protocol {
    match a
    case Ask(c, payload) => if c.Heartbeat? then p else Asking(p, c, p.nextSeq, payload)
    case AskHeartbeat(beat) => Asking(p, Q.Heartbeat, 0, beat)
    case Send(arg) => Sending(p, arg)
    case Arrive(hasContext) => Arriving(p, hasContext)
    case Task(chance) => Sidecar(p, R.Advance(p.s, chance))
    case LoseOldest => if p.outgoing != [] then p.(outgoing := p.outgoing[1..]) else p
    case Transmit =>
      if p.outgoing != [] && AtAwait(p.s.place) then p.(back := p.back + [p.outgoing[0]], outgoing := p.outgoing[1..])
      else p
    case Deliver => if p.back != [] then p.(q := ApplyReply(p.q, p.back[0]), back := p.back[1..]) else p
    case Unsolicited(code) => p.(q := ApplyStatus(p.q, 0, ReasonOf(code)))
    case Teardown => p.(q := Q.BeginTeardown(p.q))
  }

  function Run(p: Protocol, actions: seq<Action>): Protocol
    decreases actions
  {
    if actions == [] then p else Run(Step(p, actions[0]), actions[1..])
  }

  function Start(audioCapacity: nat): Protocol {
    Protocol(Q.Empty(audioCapacity), 1, 0, map[], [], R.Start(), [], [])
  }

  // The invariant.

  /** The message the drain task is at, answered or not. */
  function Holder(place: R.Place): Option<D.Queued> {
    match place
    case Idle => None
    case AtCommand(_) => None
    case Rejecting(_, _) => None
    case Clearing(_, after) => if after.Back? then None else Some(after.q)
    case Cancelling(_, _, after) => if after.Back? then None else Some(after.q)
    case _ => Some(place.q)
  }

  /** Message i is in the pipe, in its slot, or at the drain task. */
  predicate Live(sent: seq<Sent>, s: R.State, i: nat)
    requires i < |sent|
  {
    || i >= |s.arrivals|
    || s.d.Slot(sent[i].msg.command) == Some(sent[i].msg)
    || Holder(s.place) == Some(sent[i].msg)
  }

  ghost predicate SentInvariant(sent: seq<Sent>, s: R.State, nextSeq: nat) {
    && |s.arrivals| <= |sent| && nextSeq >= 1
    && (forall i :: 0 <= i < |s.arrivals| ==> s.arrivals[i] == sent[i].msg)
    && (forall i ::
         0 <= i < |sent| ==> sent[i].msg.id == i && D.Known(sent[i].msg.command) && 1 <= sent[i].msg.seqNo < nextSeq)
    && (forall i, j :: 0 <= i < j < |sent| ==>
                         && sent[i].msg.seqNo != sent[j].msg.seqNo
                         && (sent[i].msg.command == sent[j].msg.command ==> sent[i].msg.seqNo < sent[j].msg.seqNo))
  }

  /** Per command at most one message is live. */
  ghost predicate OneLive(sent: seq<Sent>, s: R.State) {
    forall i, j ::
      0 <= i < j < |sent| && sent[i].msg.command == sent[j].msg.command ==> !Live(sent, s, i) || !Live(sent, s, j)
  }

  /** The dispatcher's marks: in flight is what the drain task is at, and the last sequence number is old. */
  ghost predicate MarksInvariant(sent: seq<Sent>, s: R.State, nextSeq: nat) {
    && (forall c :: s.d.InFlight(c).Some? ==> Holder(s.place).Some? && Holder(s.place).value.command == c)
    && (forall c :: s.d.LastSeq(c) < nextSeq)
    && (forall i :: |s.arrivals| <= i < |sent| ==> s.d.LastSeq(sent[i].msg.command) < sent[i].msg.seqNo)
  }

  ghost predicate QueueInvariant(p: Protocol) {
    && p.q.ScheduleInvariant()
    && (forall c: Q.Command :: p.q.At(c).inFlight.Some? ==> InFlightKnown(p, c, p.q.At(c).inFlight.value))
    && (forall c: Q.Command ::
         !c.Heartbeat? && p.q.At(c).queued.Some? ==> QueuedFresh(p, c, p.q.At(c).queued.value.seqNo))
    && (forall c: Q.Command, d: Q.Command ::
         !c.Heartbeat? && !d.Heartbeat? && c != d && p.q.At(c).queued.Some? && p.q.At(d).queued.Some? ==>
                                               p.q.At(c).queued.value.seqNo != p.q.At(d).queued.value.seqNo)
  }

  ghost predicate InFlightKnown(p: Protocol, c: Q.Command, held: Q.Held<nat>) {
    && c in p.current && p.current[c] < |p.sent|
    && p.sent[p.current[c]].msg.command == Number(c) && p.sent[p.current[c]].msg.seqNo == held.seqNo
    && p.sent[p.current[c]].waiter == held.waiter
  }

  ghost predicate QueuedFresh(p: Protocol, c: Q.Command, seqNo: nat) {
    && 1 <= seqNo < p.nextSeq && p.s.d.LastSeq(Number(c)) < seqNo
    && (forall i ::
         0 <= i < |p.sent| ==>
           p.sent[i].msg.seqNo != seqNo && (p.sent[i].msg.command == Number(c) ==> p.sent[i].msg.seqNo < seqNo))
  }

  /** Before teardown a live message is the one its command has in flight. */
  ghost predicate LiveInFlight(p: Protocol) {
    p.q.accepting ==>
      forall i :: 0 <= i < |p.sent| && Live(p.sent, p.s, i) ==>
                    var inFlight := p.q.At(CommandOf(p.sent[i].msg.command)).inFlight;
                    inFlight.Some? && inFlight.value.seqNo == p.sent[i].msg.seqNo
  }

  predicate Answers(s: R.State, r: D.Reply) {
    R.IsReply(s, r) && R.RepliesTo(s.replies, r.id) >= 1
  }

  /** A reply that left the sidecar is for a message the drain task is done with. */
  ghost predicate RepliesInvariant(p: Protocol) {
    && (forall i :: 0 <= i < |p.outgoing| ==> Answers(p.s, p.outgoing[i]))
    && (forall i ::
         0 <= i < |p.back| ==>
           Answers(p.s, p.back[i]) && (Holder(p.s.place).Some? ==> Holder(p.s.place).value.id != p.back[i].id))
  }

  ghost predicate Invariant(p: Protocol) {
    && R.Invariant(p.s)
    && SentInvariant(p.sent, p.s, p.nextSeq)
    && OneLive(p.sent, p.s)
    && MarksInvariant(p.sent, p.s, p.nextSeq)
    && QueueInvariant(p)
    && LiveInFlight(p)
    && RepliesInvariant(p)
  }

  // What follows from it.

  /** The dispatcher never takes a "superseded" or "ack" branch of enqueue: the message meets an empty slot. */
  lemma NeverSuperseded(p: Protocol, hasContext: bool)
    requires Invariant(p) && |p.s.arrivals| < |p.sent|
    ensures p.s.d.Judge(p.sent[|p.s.arrivals|].msg, hasContext) == if hasContext then D.Stored(None) else D.NoContext
  {
    var i := |p.s.arrivals|;
    var msg := p.sent[i].msg;
    var c := msg.command;
    if p.s.d.InFlight(c).Some? {
      var q := Holder(p.s.place).value;
      assert p.s.arrivals[q.id] == q;
      assert Live(p.sent, p.s, q.id) && Live(p.sent, p.s, i);
    }
    if p.s.d.Slot(c).Some? {
      var q := p.s.d.Slot(c).value;
      assert p.s.arrivals[q.id] == q;
      assert Live(p.sent, p.s, q.id) && Live(p.sent, p.s, i);
    }
  }

  /** A reply matches at most the command of its own message, and then the waiter of that message. */
  lemma MatchesOwnMessage(p: Protocol, r: D.Reply, c: Q.Command)
    requires Invariant(p) && Answers(p.s, r) && Q.Matches(p.q, c, r.seqNo)
    ensures c == CommandOf(p.sent[r.id].msg.command) && p.q.At(c).inFlight.value.waiter == p.sent[r.id].waiter
  {
    var held := p.q.At(c).inFlight.value;
    assert InFlightKnown(p, c, held);
    assert p.s.arrivals[r.id] == p.sent[r.id].msg;
    assert p.current[c] == r.id;
  }

  // The steps of the sidecar.

  predicate Waiting(s: R.State, q: D.Queued) {
    s.d.Slot(q.command) == Some(q) || Holder(s.place) == Some(q)
  }

  ghost predicate Marked(s: R.State) {
    forall c :: s.d.InFlight(c).Some? ==> Holder(s.place).Some? && Holder(s.place).value.command == c
  }

  lemma UseMark(s: R.State, c: nat)
    requires Marked(s) && s.d.InFlight(c).Some?
    ensures Holder(s.place).Some? && Holder(s.place).value.command == c
  {
  }

  /** What a step of the drain task may do, as far as the protocol cares. */
  ghost predicate Advances(s: R.State, t: R.State) {
    && t.arrivals == s.arrivals
    && s.replies <= t.replies
    && (forall q: D.Queued :: Waiting(t, q) ==> Waiting(s, q))
    && (Holder(t.place).Some? ==> Holder(t.place) == Holder(s.place) || R.InSlot(s.d, Holder(t.place).value) == 1)
    && (forall c :: t.d.LastSeq(c) != s.d.LastSeq(c) ==>
                      Holder(s.place).Some? && Holder(s.place).value.command == c
                        && t.d.LastSeq(c) == Holder(s.place).value.seqNo)
    && Marked(t)
  }

  lemma TakeAdvances(s: R.State, chance: R.Chance)
    requires R.Invariant(s) && Marked(s) && s.place.AtCommand?
    ensures Advances(s, R.Advance(s, chance))
  {
    var t := R.Advance(s, chance);
    forall c | t.d.InFlight(c).Some?
      ensures Holder(t.place).Some? && Holder(t.place).value.command == c
    {
      if s.d.InFlight(c).Some? {
        UseMark(s, c);
      }
    }
  }

  lemma HandleAdvances(s: R.State, chance: R.Chance)
    requires R.Invariant(s) && Marked(s) && s.place.Running?
    ensures Advances(s, R.Advance(s, chance))
  {
  }

  lemma ClearAdvances(s: R.State, chance: R.Chance)
    requires R.Invariant(s) && Marked(s) && s.place.Clearing?
    ensures Advances(s, R.Advance(s, chance))
  {
    var t := R.Advance(s, chance);
    forall c | t.d.InFlight(c).Some?
      ensures Holder(t.place).Some? && Holder(t.place).value.command == c
    {
      if s.d.InFlight(c).Some? {
        UseMark(s, c);
      }
    }
  }

  lemma PutBackAdvances(s: R.State, chance: R.Chance)
    requires R.Invariant(s) && Marked(s) && s.place.PuttingBack?
    ensures Advances(s, R.Advance(s, chance))
  {
    var t := R.Advance(s, chance);
    forall c
      ensures t.d.InFlight(c).None?
    {
      if s.d.InFlight(c).Some? {
        UseMark(s, c);
      }
    }
  }

  lemma DropAdvances(s: R.State, chance: R.Chance)
    requires R.Invariant(s) && Marked(s) && s.place.Dropping?
    ensures Advances(s, R.Advance(s, chance))
  {
    var t := R.Advance(s, chance);
    forall c
      ensures t.d.InFlight(c).None?
    {
      if s.d.InFlight(c).Some? {
        UseMark(s, c);
      }
    }
  }

  lemma FinishAdvances(s: R.State, chance: R.Chance)
    requires R.Invariant(s) && Marked(s) && s.place.Finishing?
    ensures Advances(s, R.Advance(s, chance))
  {
    var t := R.Advance(s, chance);
    forall c
      ensures t.d.InFlight(c).None?
    {
      if s.d.InFlight(c).Some? {
        UseMark(s, c);
      }
    }
  }

  lemma TaskAdvances(s: R.State, chance: R.Chance)
    requires R.Invariant(s) && Marked(s)
    ensures Advances(s, R.Advance(s, chance))
  {
    match s.place
    case AtCommand(_) => TakeAdvances(s, chance);
    case Running(_, _) => HandleAdvances(s, chance);
    case Clearing(_, _) => ClearAdvances(s, chance);
    case PuttingBack(_, _) => PutBackAdvances(s, chance);
    case Finishing(_, _) => FinishAdvances(s, chance);
    case Idle =>
    case Taken(_, _) =>
    case Dropping(_, _) => DropAdvances(s, chance);
    case Rejecting(_, _) =>
    case Cancelling(_, _, _) =>
  }

  /** A step of the drain task keeps what the protocol says about the dispatcher's side. */
  lemma TaskKeepsSide(p: Protocol, chance: R.Chance)
    requires Invariant(p)
    ensures var t := R.Advance(p.s, chance);
      && SentInvariant(p.sent, t, p.nextSeq) && OneLive(p.sent, t) && MarksInvariant(p.sent, t, p.nextSeq)
      && (forall i :: 0 <= i < |p.sent| && Live(p.sent, t, i) ==> Live(p.sent, p.s, i))
  {
    var s, t := p.s, R.Advance(p.s, chance);
    TaskAdvances(s, chance);
    forall i | 0 <= i < |p.sent| && Live(p.sent, t, i)
      ensures Live(p.sent, s, i)
    {
      assert i < |s.arrivals| ==> Waiting(t, p.sent[i].msg);
    }
    HolderSent(p);
  }

  /** What the drain task is at has been sent. */
  lemma HolderSent(p: Protocol)
    requires R.Invariant(p.s) && SentInvariant(p.sent, p.s, p.nextSeq)
    ensures Holder(p.s.place).Some? ==> var q := Holder(p.s.place).value; q.id < |p.s.arrivals| && p.sent[q.id].msg == q
  {
    assert Holder(p.s.place).Some? ==> R.Arrived(p.s, Holder(p.s.place).value);
  }

  lemma TaskKeepsQueue(p: Protocol, chance: R.Chance)
    requires Invariant(p)
    ensures QueueInvariant(Sidecar(p, R.Advance(p.s, chance))) && LiveInFlight(Sidecar(p, R.Advance(p.s, chance)))
  {
    var t := R.Advance(p.s, chance);
    var p' := Sidecar(p, t);
    TaskAdvances(p.s, chance);
    TaskKeepsSide(p, chance);
    HolderSent(p);
    forall c: Q.Command | !c.Heartbeat? && p'.q.At(c).queued.Some?
      ensures QueuedFresh(p', c, p'.q.At(c).queued.value.seqNo)
    {
      assert QueuedFresh(p, c, p.q.At(c).queued.value.seqNo);
    }
    forall c: Q.Command | p'.q.At(c).inFlight.Some?
      ensures InFlightKnown(p', c, p'.q.At(c).inFlight.value)
    {
      assert InFlightKnown(p, c, p.q.At(c).inFlight.value);
    }
  }

  lemma {:induction false} RepliesGrow(replies: seq<D.Reply>, more: seq<D.Reply>, id: nat)
    ensures R.RepliesTo(replies, id) <= R.RepliesTo(replies + more, id)
    decreases more
  {
    if more == [] {
      assert replies + more == replies;
    } else {
      var rest := more[..|more| - 1];
      RepliesGrow(replies, rest, id);
      R.RepliesToAppend(replies + rest, more[|more| - 1], id);
      assert replies + more == (replies + rest) + [more[|more| - 1]];
    }
  }

  lemma InReplies(replies: seq<D.Reply>, i: nat)
    requires i < |replies|
    ensures R.RepliesTo(replies, replies[i].id) >= 1
  {
    R.RepliesToAppend(replies[..i], replies[i], replies[i].id);
    assert replies == (replies[..i] + [replies[i]]) + replies[i + 1..];
    RepliesGrow(replies[..i] + [replies[i]], replies[i + 1..], replies[i].id);
  }

  /** Replies stay answers as the sidecar goes on, and what it adds are answers too. */
  lemma AnswersGrow(s: R.State, t: R.State, r: D.Reply)
    requires s.arrivals <= t.arrivals && s.replies <= t.replies && Answers(s, r)
    ensures Answers(t, r)
  {
    assert t.arrivals[r.id] == s.arrivals[r.id];
    assert t.replies == s.replies + t.replies[|s.replies|..];
    RepliesGrow(s.replies, t.replies[|s.replies|..], r.id);
  }

  lemma OutgoingAnswers(p: Protocol, t: R.State)
    requires RepliesInvariant(p) && R.Invariant(t) && p.s.arrivals <= t.arrivals && p.s.replies <= t.replies
    ensures forall r :: r in Sidecar(p, t).outgoing ==> Answers(t, r)
  {
    forall r | r in Sidecar(p, t).outgoing
      ensures Answers(t, r)
    {
      if r in p.outgoing {
        AnswersGrow(p.s, t, r);
      } else {
        var news := t.replies[|p.s.replies|..];
        var i :| 0 <= i < |news| && news[i] == r;
        assert t.replies[|p.s.replies| + i] == r;
        InReplies(t.replies, |p.s.replies| + i);
      }
    }
  }

  lemma TaskKeepsReplies(p: Protocol, chance: R.Chance)
    requires Invariant(p)
    ensures RepliesInvariant(Sidecar(p, R.Advance(p.s, chance)))
  {
    var t := R.Advance(p.s, chance);
    TaskAdvances(p.s, chance);
    R.AdvanceKeeps(p.s, chance);
    OutgoingAnswers(p, t);
    var outgoing := Sidecar(p, t).outgoing;
    assert forall i :: 0 <= i < |outgoing| ==> outgoing[i] in outgoing;
    forall i | 0 <= i < |p.back|
      ensures Answers(t, p.back[i]) && (Holder(t.place).Some? ==> Holder(t.place).value.id != p.back[i].id)
    {
      AnswersGrow(p.s, t, p.back[i]);
      var id := p.back[i].id;
      if Holder(t.place).Some? && Holder(t.place).value.id == id {
        assert R.Accounts(p.s, id) == 1;
        HolderSent(p.(s := t));
      }
    }
  }

  lemma TaskKeeps(p: Protocol, chance: R.Chance)
    requires Invariant(p)
    ensures Invariant(Step(p, Task(chance)))
  {
    R.AdvanceKeeps(p.s, chance);
    TaskKeepsSide(p, chance);
    TaskKeepsQueue(p, chance);
    TaskKeepsReplies(p, chance);
  }

  lemma ArriveKeepsSide(p: Protocol, hasContext: bool)
    requires Invariant(p) && |p.s.arrivals| < |p.sent|
    ensures var t := Arriving(p, hasContext).s;
      && SentInvariant(p.sent, t, p.nextSeq) && OneLive(p.sent, t) && MarksInvariant(p.sent, t, p.nextSeq)
      && (forall i :: 0 <= i < |p.sent| && Live(p.sent, t, i) ==> Live(p.sent, p.s, i))
      && t.d.inflight == p.s.d.inflight && t.d.lastSeq == p.s.d.lastSeq && t.place == p.s.place
      && t.arrivals == p.s.arrivals + [p.sent[|p.s.arrivals|].msg] && p.s.replies <= t.replies
  {
    var n := |p.s.arrivals|;
    var msg := p.sent[n].msg;
    var t := Arriving(p, hasContext).s;
    NeverSuperseded(p, hasContext);
    assert msg == D.Queued(n, msg.command, msg.seqNo, msg.arg);
    assert forall c :: t.d.Slot(c) == p.s.d.Slot(c) || t.d.Slot(c) == Some(msg);
    assert forall c :: t.d.InFlight(c) == p.s.d.InFlight(c) && t.d.LastSeq(c) == p.s.d.LastSeq(c);
    forall i | 0 <= i < |p.sent| && Live(p.sent, t, i)
      ensures Live(p.sent, p.s, i)
    {
      assert p.sent[i].msg.id == i;
    }
  }

  lemma ArriveKeeps(p: Protocol, hasContext: bool)
    requires Invariant(p)
    ensures Invariant(Step(p, Arrive(hasContext)))
  {
    if |p.s.arrivals| < |p.sent| {
      var p' := Arriving(p, hasContext);
      var msg := p.sent[|p.s.arrivals|].msg;
      R.ArriveKeeps(p.s, msg.command, msg.seqNo, msg.arg, hasContext);
      ArriveKeepsSide(p, hasContext);
      QueueSideUnmoved(p, p');
      OutgoingAnswers(p, p'.s);
      assert forall i :: 0 <= i < |p'.outgoing| ==> p'.outgoing[i] in p'.outgoing;
      forall i | 0 <= i < |p.back|
        ensures Answers(p'.s, p.back[i])
      {
        AnswersGrow(p.s, p'.s, p.back[i]);
      }
    }
  }

  /** What the plugin's queue knows survives as long as the dispatcher's last sequence numbers do. */
  lemma QueueSideUnmoved(p: Protocol, p': Protocol)
    requires QueueInvariant(p) && LiveInFlight(p)
    requires p'.q == p.q && p'.nextSeq == p.nextSeq && p'.current == p.current && p'.sent == p.sent
    requires p'.s.d.lastSeq == p.s.d.lastSeq
    requires forall i :: 0 <= i < |p.sent| && Live(p.sent, p'.s, i) ==> Live(p.sent, p.s, i)
    ensures QueueInvariant(p') && LiveInFlight(p')
  {
    forall c: Q.Command | !c.Heartbeat? && p'.q.At(c).queued.Some?
      ensures QueuedFresh(p', c, p'.q.At(c).queued.value.seqNo)
    {
      assert QueuedFresh(p, c, p.q.At(c).queued.value.seqNo);
    }
    forall c: Q.Command | p'.q.At(c).inFlight.Some?
      ensures InFlightKnown(p', c, p'.q.At(c).inFlight.value)
    {
      assert InFlightKnown(p, c, p.q.At(c).inFlight.value);
    }
  }

  lemma LoseKeeps(p: Protocol)
    requires Invariant(p)
    ensures Invariant(Step(p, LoseOldest))
  {
    QueueSideUnmoved(p, Step(p, LoseOldest));
  }

  /** At an await the drain task has not answered the message it is at, so what leaves is for another one. */
  lemma TransmitKeeps(p: Protocol)
    requires Invariant(p)
    ensures Invariant(Step(p, Transmit))
  {
    if p.outgoing != [] && AtAwait(p.s.place) {
      var r := p.outgoing[0];
      QueueSideUnmoved(p, Step(p, Transmit));
      assert R.Accounts(p.s, r.id) == 1;
      HolderSent(p);
    }
  }

  // The steps of the plugin.

  /** A change of the plugin's queue that puts nothing in flight and queues at most one new message. */
  ghost predicate QueueMoves(p: Protocol, q: Q.State<nat>) {
    && q.ScheduleInvariant()
    && (q.accepting ==> p.q.accepting)
    && (forall c: Q.Command :: q.At(c).inFlight.Some? ==> q.At(c).inFlight == p.q.At(c).inFlight)
    && (forall c: Q.Command :: q.At(c).queued.Some? ==> q.At(c).queued == p.q.At(c).queued)
  }

  lemma MoveKeeps(p: Protocol, q: Q.State<nat>)
    requires Invariant(p) && QueueMoves(p, q)
    requires q.accepting ==> forall i :: 0 <= i < |p.sent| && Live(p.sent, p.s, i) ==>
                                           var c := CommandOf(p.sent[i].msg.command);
                                           q.At(c).inFlight == p.q.At(c).inFlight
    ensures Invariant(p.(q := q))
  {
    var p' := p.(q := q);
    forall c: Q.Command | !c.Heartbeat? && p'.q.At(c).queued.Some?
      ensures QueuedFresh(p', c, p'.q.At(c).queued.value.seqNo)
    {
      assert QueuedFresh(p, c, p.q.At(c).queued.value.seqNo);
    }
    forall c: Q.Command | p'.q.At(c).inFlight.Some?
      ensures InFlightKnown(p', c, p'.q.At(c).inFlight.value)
    {
      assert InFlightKnown(p, c, p.q.At(c).inFlight.value);
    }
  }

  lemma NotifyEffect(q: Q.State<nat>, c: Q.Command, seqNo: nat, reason: Q.WaitReason)
    requires q.ScheduleInvariant()
    ensures var t := Q.Notify(q, c, seqNo, reason);
      && t.ScheduleInvariant() && t.accepting == q.accepting
      && (forall d :: t.At(d).queued == q.At(d).queued)
      && (forall d :: t.At(d).inFlight == if d == c && Q.Matches(q, c, seqNo) then None else q.At(d).inFlight)
  {
    Q.NotifyKeepsSchedule(q, c, seqNo, reason);
    if Q.Matches(q, c, seqNo) {
      NotifyMatched(q, c, seqNo, reason);
    }
  }

  lemma NotifyMatched(q: Q.State<nat>, c: Q.Command, seqNo: nat, reason: Q.WaitReason)
    requires Q.Matches(q, c, seqNo)
    ensures var t := Q.Notify(q, c, seqNo, reason);
      && t.accepting == q.accepting && t.At(c).queued == q.At(c).queued && t.At(c).inFlight.None?
      && (forall d :: d != c ==> t.At(d) == q.At(d))
  {
    var finished := Q.FinishInFlight(q, c, reason);
    assert finished.At(c) == q.At(c).(inFlight := None);
    assert forall d :: d != c ==> finished.At(d) == q.At(d);
  }

  lemma TeardownKeeps(p: Protocol)
    requires Invariant(p)
    ensures Invariant(Step(p, Teardown))
  {
    Q.TeardownEmpties(p.q);
    MoveKeeps(p, Q.BeginTeardown(p.q));
  }

  lemma StatusEffect(q: Q.State<nat>, seqNo: nat, reason: Q.WaitReason)
    requires q.ScheduleInvariant()
    ensures var t := ApplyStatus(q, seqNo, reason);
      && t.ScheduleInvariant() && t.accepting == q.accepting
      && (forall d :: t.At(d).queued == q.At(d).queued)
      && (forall d :: t.At(d).inFlight == if Q.Matches(q, d, seqNo) then None else q.At(d).inFlight)
  {
    var q1 := Q.Notify(q, Q.Start, seqNo, reason);
    NotifyEffect(q, Q.Start, seqNo, reason);
    var q2 := Q.Notify(q1, Q.Stop, seqNo, reason);
    NotifyEffect(q1, Q.Stop, seqNo, reason);
    var q3 := Q.Notify(q2, Q.Flush, seqNo, reason);
    NotifyEffect(q2, Q.Flush, seqNo, reason);
    NotifyEffect(q3, Q.Reconfigure, seqNo, reason);
    SettledOne(q, q1, q2, q3, Q.Notify(q3, Q.Reconfigure, seqNo, reason), seqNo);
  }

  lemma SettledOne(q: Q.State<nat>, q1: Q.State<nat>, q2: Q.State<nat>, q3: Q.State<nat>, t: Q.State<nat>, seqNo: nat)
    requires q.ScheduleInvariant()
    requires forall d :: q1.At(d).inFlight == if d == Q.Start && Q.Matches(q, d, seqNo) then None else q.At(d).inFlight
    requires forall d :: q2.At(d).inFlight == if d == Q.Stop && Q.Matches(q1, d, seqNo) then None else q1.At(d).inFlight
    requires forall d ::
      q3.At(d).inFlight == if d == Q.Flush && Q.Matches(q2, d, seqNo) then None else q2.At(d).inFlight
    requires forall d ::
      t.At(d).inFlight == if d == Q.Reconfigure && Q.Matches(q3, d, seqNo) then None else q3.At(d).inFlight
    ensures forall d :: t.At(d).inFlight == if Q.Matches(q, d, seqNo) then None else q.At(d).inFlight
  {
    forall d
      ensures t.At(d).inFlight == if Q.Matches(q, d, seqNo) then None else q.At(d).inFlight
    {
      match d
      case Start =>
      case Stop =>
      case Flush =>
      case Reconfigure =>
      case Heartbeat =>
    }
  }

  /** A reply to message r.id finds no live message of the command it matches. */
  lemma SettlesDeadOnly(p: Protocol, r: D.Reply, i: nat)
    requires Invariant(p) && r in p.back && p.q.accepting && i < |p.sent| && Live(p.sent, p.s, i)
    ensures !Q.Matches(p.q, CommandOf(p.sent[i].msg.command), r.seqNo)
  {
    var k :| 0 <= k < |p.back| && p.back[k] == r;
    assert p.s.arrivals[r.id] == p.sent[r.id].msg;
    assert R.Accounts(p.s, r.id) == 1;
    assert Q.Matches(p.q, CommandOf(p.sent[i].msg.command), r.seqNo) ==> i == r.id;
  }

  lemma DeliverKeeps(p: Protocol)
    requires Invariant(p)
    ensures Invariant(Step(p, Deliver))
  {
    if p.back != [] {
      var r := p.back[0];
      var q := ApplyReply(p.q, r);
      NotifyEffect(p.q, Q.Flush, r.seqNo, Q.Complete);
      StatusEffect(p.q, r.seqNo, ReasonOf(r.code));
      forall i | 0 <= i < |p.sent| && Live(p.sent, p.s, i) && p.q.accepting
        ensures q.At(CommandOf(p.sent[i].msg.command)).inFlight == p.q.At(CommandOf(p.sent[i].msg.command)).inFlight
      {
        SettlesDeadOnly(p, r, i);
      }
      MoveKeeps(p, q);
      BackKeeps(p.(q := q));
    }
  }

  lemma BackKeeps(p: Protocol)
    requires Invariant(p) && p.back != []
    ensures Invariant(p.(back := p.back[1..]))
  {
    QueueSideUnmoved(p, p.(back := p.back[1..]));
  }

  /** Statuses about no message, such as "ready", carry the sequence number 0, which no message has. */
  lemma UnsolicitedKeeps(p: Protocol, code: D.Code)
    requires Invariant(p)
    ensures Invariant(Step(p, Unsolicited(code)))
  {
    StatusEffect(p.q, 0, ReasonOf(code));
    MoveKeeps(p, ApplyStatus(p.q, 0, ReasonOf(code)));
  }

  lemma EnqueueEffect(q: Q.State<nat>, w: nat, c: Q.Command, seqNo: nat, payload: seq<byte>)
    requires q.ScheduleInvariant()
    ensures var t := Q.EnqueueControl(q, w, c, seqNo, payload);
      && t.ScheduleInvariant() && t.accepting == q.accepting
      && (forall d :: t.At(d).inFlight == q.At(d).inFlight)
      && (forall d ::
           t.At(d).queued == if d == c && q.accepting then Some(Q.Held(w, seqNo, payload)) else q.At(d).queued)
  {
    Q.EnqueueKeepsSchedule(q, w, c, seqNo, payload);
  }

  lemma NewIsFresh(p: Protocol, c: Q.Command)
    requires Invariant(p)
    ensures QueuedFresh(p.(nextSeq := p.nextSeq + 1), c, p.nextSeq)
    ensures forall d: Q.Command :: !d.Heartbeat? && p.q.At(d).queued.Some? ==> p.q.At(d).queued.value.seqNo < p.nextSeq
  {
    forall d: Q.Command | !d.Heartbeat? && p.q.At(d).queued.Some?
      ensures p.q.At(d).queued.value.seqNo < p.nextSeq
    {
      assert QueuedFresh(p, d, p.q.At(d).queued.value.seqNo);
    }
  }

  lemma FreshAfterAsk(p: Protocol, c: Q.Command, payload: seq<byte>, d: Q.Command, seqNo: nat)
    requires QueuedFresh(p, d, seqNo)
    ensures QueuedFresh(Asking(p, c, if c.Heartbeat? then 0 else p.nextSeq, payload), d, seqNo)
  {
  }

  lemma AskKeepsQueue(p: Protocol, c: Q.Command, payload: seq<byte>)
    requires Invariant(p)
    ensures QueueInvariant(Asking(p, c, if c.Heartbeat? then 0 else p.nextSeq, payload))
  {
    var seqNo := if c.Heartbeat? then 0 else p.nextSeq;
    var p' := Asking(p, c, seqNo, payload);
    EnqueueEffect(p.q, p.nextWaiter, c, seqNo, payload);
    NewIsFresh(p, c);
    forall d: Q.Command | !d.Heartbeat? && p'.q.At(d).queued.Some?
      ensures QueuedFresh(p', d, p'.q.At(d).queued.value.seqNo)
    {
      if d != c || !p.q.accepting {
        FreshAfterAsk(p, c, payload, d, p.q.At(d).queued.value.seqNo);
      }
    }
    forall d: Q.Command | p'.q.At(d).inFlight.Some?
      ensures InFlightKnown(p', d, p'.q.At(d).inFlight.value)
    {
      assert InFlightKnown(p, d, p.q.At(d).inFlight.value);
    }
  }

  lemma AskKeeps(p: Protocol, c: Q.Command, payload: seq<byte>)
    requires Invariant(p)
    ensures Invariant(Asking(p, c, if c.Heartbeat? then 0 else p.nextSeq, payload))
  {
    AskKeepsQueue(p, c, payload);
    EnqueueEffect(p.q, p.nextWaiter, c, if c.Heartbeat? then 0 else p.nextSeq, payload);
  }

  // A new message in the pipe.

  lemma PopEffect(q: Q.State<nat>)
    requires q.ScheduleInvariant()
    ensures var (t, frame) := Q.PopNext(q);
      && t.ScheduleInvariant() && t.accepting == q.accepting
      && (frame.Some? && frame.value.ControlFrame? ==>
            var c, held := frame.value.command, frame.value.held;
            && q.accepting && q.At(c).inFlight.None? && q.At(c).queued == Some(held)
            && t.At(c).queued.None? && t.At(c).inFlight == (if c.Heartbeat? then None else Some(held))
            && (forall d :: d != c ==> t.At(d) == q.At(d)))
      && (!(frame.Some? && frame.value.ControlFrame?) ==> forall d :: t.At(d) == q.At(d))
  {
    Q.NothingStale(q);
    Q.PopKeepsSchedule(q);
    if q.schedule != [] {
      assert q.schedule[0] in q.schedule;
    }
  }

  lemma NoneLive(p: Protocol, c: Q.Command)
    requires Invariant(p) && !c.Heartbeat? && p.q.accepting && p.q.At(c).inFlight.None?
    ensures forall i :: 0 <= i < |p.sent| && Live(p.sent, p.s, i) ==> p.sent[i].msg.command != Number(c)
  {
    forall i | 0 <= i < |p.sent| && Live(p.sent, p.s, i)
      ensures p.sent[i].msg.command != Number(c)
    {
      assert CommandOf(Number(c)) == c;
    }
  }

  lemma SentGrows(sent: seq<Sent>, s: R.State, nextSeq: nat, more: Sent)
    requires SentInvariant(sent, s, nextSeq)
    requires more.msg.id == |sent| && D.Known(more.msg.command) && 1 <= more.msg.seqNo < nextSeq
    requires forall i :: 0 <= i < |sent| ==> sent[i].msg.seqNo != more.msg.seqNo
                                             && (sent[i].msg.command == more.msg.command ==>
                                                  sent[i].msg.seqNo < more.msg.seqNo)
    ensures SentInvariant(sent + [more], s, nextSeq)
  {
  }

  lemma LiveGrows(sent: seq<Sent>, s: R.State, nextSeq: nat, more: Sent)
    requires SentInvariant(sent, s, nextSeq) && OneLive(sent, s)
    requires forall i :: 0 <= i < |sent| && Live(sent, s, i) ==> sent[i].msg.command != more.msg.command
    ensures OneLive(sent + [more], s)
    ensures forall i :: 0 <= i < |sent| ==> Live(sent + [more], s, i) == Live(sent, s, i)
  {
    forall i | 0 <= i < |sent|
      ensures Live(sent + [more], s, i) == Live(sent, s, i)
    {
      assert (sent + [more])[i] == sent[i];
    }
  }

  /** The frame popped is the only live message of its command. */
  lemma SendKeepsSide(p: Protocol, c: Q.Command, held: Q.Held<nat>, arg: string)
    requires Invariant(p) && !c.Heartbeat? && p.q.accepting && p.q.At(c).inFlight.None?
    requires p.q.At(c).queued == Some(held)
    ensures var sent := p.sent + [Sent(D.Queued(|p.sent|, Number(c), held.seqNo, arg), held.waiter)];
      && SentInvariant(sent, p.s, p.nextSeq) && OneLive(sent, p.s) && MarksInvariant(sent, p.s, p.nextSeq)
      && (forall i :: 0 <= i < |p.sent| ==> Live(sent, p.s, i) == Live(p.sent, p.s, i))
  {
    var more := Sent(D.Queued(|p.sent|, Number(c), held.seqNo, arg), held.waiter);
    assert QueuedFresh(p, c, held.seqNo);
    NoneLive(p, c);
    SentGrows(p.sent, p.s, p.nextSeq, more);
    LiveGrows(p.sent, p.s, p.nextSeq, more);
  }

  lemma SendKeeps(p: Protocol, arg: string)
    requires Invariant(p)
    ensures Invariant(Step(p, Send(arg)))
  {
    var (q, frame) := Q.PopNext(p.q);
    PopEffect(p.q);
    if frame.Some? && frame.value.ControlFrame? && !frame.value.command.Heartbeat? {
      SendKeepsSide(p, frame.value.command, frame.value.held, arg);
      SendKeepsQueue(p, frame.value.command, frame.value.held, arg);
      SendKeepsLive(p, frame.value.command, frame.value.held, arg);
    } else {
      MoveKeeps(p, q);
    }
  }

  lemma SendKeepsQueue(p: Protocol, c: Q.Command, held: Q.Held<nat>, arg: string)
    requires Invariant(p) && !c.Heartbeat? && Q.PopNext(p.q).1 == Some(Q.ControlFrame(c, held))
    ensures QueueInvariant(Sending(p, arg))
  {
    var p' := Sending(p, arg);
    PopEffect(p.q);
    forall d: Q.Command | !d.Heartbeat? && p'.q.At(d).queued.Some?
      ensures QueuedFresh(p', d, p'.q.At(d).queued.value.seqNo)
    {
      FreshAfterSend(p, c, held, arg, d, p'.q.At(d).queued.value.seqNo);
    }
    forall d: Q.Command | p'.q.At(d).inFlight.Some?
      ensures InFlightKnown(p', d, p'.q.At(d).inFlight.value)
    {
      assert d != c ==> InFlightKnown(p, d, p.q.At(d).inFlight.value);
    }
  }

  lemma FreshAfterSend(p: Protocol, c: Q.Command, held: Q.Held<nat>, arg: string, d: Q.Command, seqNo: nat)
    requires QueuedFresh(p, d, seqNo) && seqNo != held.seqNo && c != d && !c.Heartbeat? && !d.Heartbeat?
    requires Q.PopNext(p.q).1 == Some(Q.ControlFrame(c, held))
    ensures QueuedFresh(Sending(p, arg), d, seqNo)
  {
    assert Number(d) != Number(c);
  }

  lemma SendKeepsLive(p: Protocol, c: Q.Command, held: Q.Held<nat>, arg: string)
    requires Invariant(p) && !c.Heartbeat? && Q.PopNext(p.q).1 == Some(Q.ControlFrame(c, held))
    ensures LiveInFlight(Sending(p, arg))
  {
    var p' := Sending(p, arg);
    PopEffect(p.q);
    NoneLive(p, c);
    SendKeepsSide(p, c, held, arg);
    forall i | 0 <= i < |p'.sent| && Live(p'.sent, p'.s, i)
      ensures var inFlight := p'.q.At(CommandOf(p'.sent[i].msg.command)).inFlight;
        inFlight.Some? && inFlight.value.seqNo == p'.sent[i].msg.seqNo
    {
      if i < |p.sent| {
        assert CommandOf(p.sent[i].msg.command) != c;
      } else {
        assert CommandOf(Number(c)) == c;
      }
    }
  }

  // Whole runs.

  lemma StepKeeps(p: Protocol, a: Action)
    requires Invariant(p)
    ensures Invariant(Step(p, a))
  {
    match a
    case Ask(c, payload) => AskKeeps(p, c, payload);
    case AskHeartbeat(beat) => AskKeeps(p, Q.Heartbeat, beat);
    case Send(arg) => SendKeeps(p, arg);
    case Arrive(hasContext) => ArriveKeeps(p, hasContext);
    case Task(chance) => TaskKeeps(p, chance);
    case LoseOldest => LoseKeeps(p);
    case Transmit => TransmitKeeps(p);
    case Deliver => DeliverKeeps(p);
    case Unsolicited(code) => UnsolicitedKeeps(p, code);
    case Teardown => TeardownKeeps(p);
  }

  lemma {:induction false} RunKeeps(p: Protocol, actions: seq<Action>)
    requires Invariant(p)
    ensures Invariant(Run(p, actions))
    decreases actions
  {
    if actions != [] {
      StepKeeps(p, actions[0]);
      RunKeeps(Step(p, actions[0]), actions[1..]);
    }
  }

  lemma StartInvariant(audioCapacity: nat)
    ensures Invariant(Start(audioCapacity))
  {
  }

  lemma NotifyWaiter(q: Q.State<nat>, c: Q.Command, seqNo: nat, reason: Q.WaitReason, w: nat)
    requires w in q.waiters
    ensures var t := Q.Notify(q, c, seqNo, reason);
      w in t.waiters && (t.waiters[w] != q.waiters[w] ==> Q.Matches(q, c, seqNo) && w == q.At(c).inFlight.value.waiter)
  {
    if Q.Matches(q, c, seqNo) {
      var finished := Q.FinishInFlight(q, c, reason);
      assert finished.waiters == q.Completing(q.At(c).inFlight, reason).waiters;
    }
  }

  /** Some message in flight has this sequence number and this waiter. */
  ghost predicate WaitsFor(q: Q.State<nat>, seqNo: nat, w: nat) {
    exists c :: Q.Matches(q, c, seqNo) && w == q.At(c).inFlight.value.waiter
  }

  ghost predicate Fewer(q0: Q.State<nat>, q: Q.State<nat>) {
    forall d :: q.At(d).inFlight.Some? ==> q.At(d).inFlight == q0.At(d).inFlight
  }

  lemma NotifyLater(q0: Q.State<nat>, q: Q.State<nat>, c: Q.Command, seqNo: nat, reason: Q.WaitReason, w: nat)
    requires q.ScheduleInvariant() && Fewer(q0, q) && w in q.waiters
    ensures var t := Q.Notify(q, c, seqNo, reason);
      && t.ScheduleInvariant() && Fewer(q0, t) && w in t.waiters
      && (t.waiters[w] != q.waiters[w] ==> WaitsFor(q0, seqNo, w))
  {
    NotifyEffect(q, c, seqNo, reason);
    NotifyWaiter(q, c, seqNo, reason, w);
    assert Q.Matches(q, c, seqNo) ==> Q.Matches(q0, c, seqNo);
  }

  /** The waiters a STATUS may settle are those of the messages in flight with its sequence number. */
  lemma StatusWaiters(q: Q.State<nat>, seqNo: nat, reason: Q.WaitReason, w: nat)
    requires q.ScheduleInvariant() && w in q.waiters
    ensures w in ApplyStatus(q, seqNo, reason).waiters
    ensures ApplyStatus(q, seqNo, reason).waiters[w] != q.waiters[w] ==> WaitsFor(q, seqNo, w)
  {
    var q1 := Q.Notify(q, Q.Start, seqNo, reason);
    NotifyLater(q, q, Q.Start, seqNo, reason, w);
    var q2 := Q.Notify(q1, Q.Stop, seqNo, reason);
    NotifyLater(q, q1, Q.Stop, seqNo, reason, w);
    var q3 := Q.Notify(q2, Q.Flush, seqNo, reason);
    NotifyLater(q, q2, Q.Flush, seqNo, reason, w);
    NotifyLater(q, q3, Q.Reconfigure, seqNo, reason, w);
  }

  /** Delivering a reply changes no waiter but that of the message it answers. */
  lemma SettlesOwnWaiter(p: Protocol, w: nat)
    requires Invariant(p) && p.back != [] && w in p.q.waiters
    ensures w in ApplyReply(p.q, p.back[0]).waiters
    ensures ApplyReply(p.q, p.back[0]).waiters[w] != p.q.waiters[w] ==> w == p.sent[p.back[0].id].waiter
  {
    var r := p.back[0];
    StatusWaiters(p.q, r.seqNo, ReasonOf(r.code), w);
    NotifyWaiter(p.q, Q.Flush, r.seqNo, Q.Complete, w);
    forall c | Q.Matches(p.q, c, r.seqNo)
      ensures p.q.At(c).inFlight.value.waiter == p.sent[r.id].waiter
    {
      MatchesOwnMessage(p, r, c);
    }
  }

  /** From q to t no waiter but `own` has changed. */
  predicate OnlySettles(q: Q.State<nat>, t: Q.State<nat>, own: nat) {
    forall w :: w in q.waiters ==> w in t.waiters && (t.waiters[w] != q.waiters[w] ==> w == own)
  }

  /**
   In every run: the dispatcher stores each message in an empty slot or refuses it for want of a session, and a reply
   settles at most one waiter, that of its own message.
   */
  lemma EndToEnd(audioCapacity: nat, actions: seq<Action>)
    ensures var p := Run(Start(audioCapacity), actions);
      && (|p.s.arrivals| < |p.sent| ==>
            forall hasContext: bool ::
              p.s.d.Judge(p.sent[|p.s.arrivals|].msg, hasContext) == if hasContext then D.Stored(None) else D.NoContext)
      && (p.back != [] ==>
           p.back[0].id < |p.sent| && OnlySettles(p.q, ApplyReply(p.q, p.back[0]), p.sent[p.back[0].id].waiter))
  {
    var p := Run(Start(audioCapacity), actions);
    StartInvariant(audioCapacity);
    RunKeeps(Start(audioCapacity), actions);
    if |p.s.arrivals| < |p.sent| {
      NeverSuperseded(p, true);
      NeverSuperseded(p, false);
    }
    if p.back != [] {
      forall w | w in p.q.waiters
        ensures w in ApplyReply(p.q, p.back[0]).waiters
        ensures ApplyReply(p.q, p.back[0]).waiters[w] != p.q.waiters[w] ==> w == p.sent[p.back[0].id].waiter
      {
        SettlesOwnWaiter(p, w);
      }
    }
  }

  // What a reply does to its waiter.

  /** Waiters are numbered in order, and each unfinished one that expects a reply is in its slot. */
  ghost predicate Waits(p: Protocol) {
    p.q.WaiterInvariant() && forall w :: w in p.q.waiters ==> w < p.nextWaiter
  }

  lemma NotifyKeepsWaits(q: Q.State<nat>, c: Q.Command, seqNo: nat, reason: Q.WaitReason)
    requires q.WaiterInvariant() && reason != Q.NoReason
    ensures Q.Notify(q, c, seqNo, reason).WaiterInvariant()
    ensures Q.Notify(q, c, seqNo, reason).waiters.Keys == q.waiters.Keys
  {
    Q.NotifyKeepsWaiters(q, c, seqNo, reason);
    if Q.Matches(q, c, seqNo) {
      var finished := Q.FinishInFlight(q, c, reason);
      assert finished.waiters == q.Completing(q.At(c).inFlight, reason).waiters;
    }
  }

  lemma StatusKeepsWaits(q: Q.State<nat>, seqNo: nat, reason: Q.WaitReason)
    requires q.WaiterInvariant() && reason != Q.NoReason
    ensures ApplyStatus(q, seqNo, reason).WaiterInvariant()
    ensures ApplyStatus(q, seqNo, reason).waiters.Keys == q.waiters.Keys
  {
    var q1 := Q.Notify(q, Q.Start, seqNo, reason);
    NotifyKeepsWaits(q, Q.Start, seqNo, reason);
    var q2 := Q.Notify(q1, Q.Stop, seqNo, reason);
    NotifyKeepsWaits(q1, Q.Stop, seqNo, reason);
    var q3 := Q.Notify(q2, Q.Flush, seqNo, reason);
    NotifyKeepsWaits(q2, Q.Flush, seqNo, reason);
    NotifyKeepsWaits(q3, Q.Reconfigure, seqNo, reason);
  }

  lemma AskKeepsWaits(p: Protocol, c: Q.Command, seqNo: nat, payload: seq<byte>)
    requires Waits(p) && p.q.ScheduleInvariant()
    ensures Waits(Asking(p, c, seqNo, payload))
  {
    Q.EnqueueKeepsWaiters(p.q, p.nextWaiter, c, seqNo, payload);
    var t := Q.EnqueueControl(p.q, p.nextWaiter, c, seqNo, payload);
    forall w | w in t.waiters
      ensures w <= p.nextWaiter
    {
      EnqueueKeys(p.q, p.nextWaiter, c, seqNo, payload, w);
    }
  }

  lemma EnqueueKeys(q: Q.State<nat>, w: nat, c: Q.Command, seqNo: nat, payload: seq<byte>, v: nat)
    ensures v in Q.EnqueueControl(q, w, c, seqNo, payload).waiters ==> v in q.waiters || v == w
  {
    var finished := Q.FinishQueued(q, c, Q.Superseded);
    assert finished.waiters == q.Completing(q.At(c).queued, Q.Superseded).waiters;
  }

  lemma SendKeepsWaits(p: Protocol, arg: string)
    requires Waits(p) && p.q.ScheduleInvariant()
    ensures Waits(Sending(p, arg))
  {
    Q.NothingStale(p.q);
    Q.PopKeepsWaiters(p.q);
  }

  lemma {:induction false} DropAllKeys(q: Q.State<nat>, cs: seq<Q.Command>)
    ensures Q.DropAll(q, cs).waiters.Keys == q.waiters.Keys
    decreases cs
  {
    if cs != [] {
      DropKeys(q, cs[0]);
      DropAllKeys(Q.Drop(q, cs[0]), cs[1..]);
    }
  }

  lemma DropKeys(q: Q.State<nat>, c: Q.Command)
    ensures Q.Drop(q, c).waiters.Keys == q.waiters.Keys
  {
    var idle := Q.FinishInFlight(q, c, Q.Cancelled);
    assert idle.waiters == q.Completing(q.At(c).inFlight, Q.Cancelled).waiters;
    var emptied := Q.FinishQueued(idle, c, Q.NoSession);
    assert emptied.waiters == idle.Completing(idle.At(c).queued, Q.NoSession).waiters;
  }

  lemma StepKeepsWaits(p: Protocol, a: Action)
    requires Waits(p) && p.q.ScheduleInvariant()
    ensures Waits(Step(p, a))
  {
    match a
    case Ask(c, payload) => AskKeepsWaits(p, c, p.nextSeq, payload);
    case AskHeartbeat(beat) => AskKeepsWaits(p, Q.Heartbeat, 0, beat);
    case Send(arg) => SendKeepsWaits(p, arg);
    case Arrive(_) =>
    case Task(_) =>
    case LoseOldest =>
    case Transmit =>
    case Deliver =>
      if p.back != [] {
        NotifyKeepsWaits(p.q, Q.Flush, p.back[0].seqNo, Q.Complete);
        StatusKeepsWaits(p.q, p.back[0].seqNo, ReasonOf(p.back[0].code));
      }
    case Unsolicited(code) => StatusKeepsWaits(p.q, 0, ReasonOf(code));
    case Teardown =>
      Q.TeardownKeepsWaiters(p.q);
      DropAllKeys(p.q.(accepting := false), Q.COMMANDS);
  }

  lemma {:induction false} RunKeepsWaits(p: Protocol, actions: seq<Action>)
    requires Invariant(p) && Waits(p)
    ensures Invariant(Run(p, actions)) && Waits(Run(p, actions))
    decreases actions
  {
    if actions != [] {
      StepKeeps(p, actions[0]);
      StepKeepsWaits(p, actions[0]);
      RunKeepsWaits(Step(p, actions[0]), actions[1..]);
    }
  }

  /** Of the four notifies of apply_status only the one that matches acts. */
  lemma StatusIsOneNotify(q: Q.State<nat>, c: Q.Command, seqNo: nat, reason: Q.WaitReason)
    requires q.ScheduleInvariant() && !c.Heartbeat? && forall d :: Q.Matches(q, d, seqNo) ==> d == c
    ensures ApplyStatus(q, seqNo, reason) == Q.Notify(q, c, seqNo, reason)
  {
    var t := Q.Notify(q, c, seqNo, reason);
    NotifyEffect(q, c, seqNo, reason);
    forall d
      ensures !Q.Matches(t, d, seqNo)
    {
      assert t.At(d).inFlight == if d == c && Q.Matches(q, c, seqNo) then None else q.At(d).inFlight;
      assert Q.Matches(q, d, seqNo) ==> d == c;
    }
  }

  lemma NotifyGives(q: Q.State<nat>, c: Q.Command, seqNo: nat, reason: Q.WaitReason)
    requires q.WaiterInvariant() && Q.Matches(q, c, seqNo)
    ensures var t := Q.Notify(q, c, seqNo, reason);
      t.At(c).inFlight.None? && t.waiters == q.waiters[q.At(c).inFlight.value.waiter := Q.Ticket(c, reason)]
  {
    assert q.SlotsOf(c);
    var finished := Q.FinishInFlight(q, c, reason);
    assert finished.waiters == q.waiters[q.At(c).inFlight.value.waiter := Q.Ticket(c, reason)];
    assert finished.At(c) == q.At(c).(inFlight := None);
  }

  /**
   A reply whose message is still in flight finishes that message's waiter with the reason its code stands for, and
   frees the command; any other reply changes nothing.
   */
  lemma ReplySettlesExactly(audioCapacity: nat, actions: seq<Action>)
    requires Run(Start(audioCapacity), actions).back != []
    ensures var p := Run(Start(audioCapacity), actions); var r := p.back[0];
      && r.id < |p.sent|
      && var c, t := CommandOf(p.sent[r.id].msg.command), ApplyReply(p.q, r);
         if Q.Matches(p.q, c, r.seqNo) then
           t.At(c).inFlight.None? && t.waiters == p.q.waiters[p.sent[r.id].waiter := Q.Ticket(c, ReasonOf(r.code))]
         else
           t == p.q
  {
    StartInvariant(audioCapacity);
    RunKeepsWaits(Start(audioCapacity), actions);
    DeliverSettles(Run(Start(audioCapacity), actions));
  }

  /** A reply acts as one notify for the command of its own message. */
  lemma ReplyIsOneNotify(p: Protocol, r: D.Reply)
    requires Invariant(p) && Answers(p.s, r)
    ensures var c := CommandOf(p.sent[r.id].msg.command);
      && ApplyReply(p.q, r) == Q.Notify(p.q, c, r.seqNo, ReasonOf(r.code))
      && (Q.Matches(p.q, c, r.seqNo) ==> p.q.At(c).inFlight.value.waiter == p.sent[r.id].waiter)
  {
    var c := CommandOf(p.sent[r.id].msg.command);
    assert p.s.arrivals[r.id] == p.sent[r.id].msg;
    forall d | Q.Matches(p.q, d, r.seqNo)
      ensures d == c && p.q.At(d).inFlight.value.waiter == p.sent[r.id].waiter
    {
      MatchesOwnMessage(p, r, d);
    }
    StatusIsOneNotify(p.q, c, r.seqNo, ReasonOf(r.code));
  }

  lemma DeliverSettles(p: Protocol)
    requires Invariant(p) && Waits(p) && p.back != []
    ensures var r := p.back[0];
      && r.id < |p.sent|
      && var c, t := CommandOf(p.sent[r.id].msg.command), ApplyReply(p.q, r);
         if Q.Matches(p.q, c, r.seqNo) then
           t.At(c).inFlight.None? && t.waiters == p.q.waiters[p.sent[r.id].waiter := Q.Ticket(c, ReasonOf(r.code))]
         else
           t == p.q
  {
    var r := p.back[0];
    assert p.s.arrivals[r.id] == p.sent[r.id].msg;
    var c := CommandOf(p.sent[r.id].msg.command);
    ReplyIsOneNotify(p, r);
    if Q.Matches(p.q, c, r.seqNo) {
      NotifyGives(p.q, c, r.seqNo, ReasonOf(r.code));
    }
  }
}
