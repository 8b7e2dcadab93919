/**
 Runs of the control dispatcher: the asyncio task inside drain_once of src/obs_captions/ipc/control_dispatcher.py
 and the handlers of src/obs_captions/ipc/sidecar.py, with the reader thread's enqueue between any two of its steps.
 What the handlers and the session probes find is arbitrary at every step.
 */
module DispatchRuns {
  import opened Options
  import opened ControlDispatcher

  /** What follows clear_pending: nothing, the answer of a stop, or the end of a failed reconfigure. */
  datatype After = Back | Answer(k: nat, q: Queued) | Answered(k: nat, q: Queued)

  /** Where the drain task is. */
  datatype Place =
    | Idle
    | AtCommand(k: nat)
    | Taken(k: nat, q: Queued)
    | PuttingBack(k: nat, q: Queued)
    | Dropping(k: nat, q: Queued)
    | Rejecting(k: nat, q: Queued)
    | Running(k: nat, q: Queued)
    | Finishing(k: nat, q: Queued)
    | Clearing(c: nat, after: After)
    | Cancelling(c: nat, pending: Queued, after: After)

  datatype Outcome = Succeeds | ConfigFails | EngineFails | Raises

  /** What the drain task finds when it looks: the session probes and the outcome of the handler. */
  datatype Chance = Chance(hasBackend: bool, hasContext: bool, active: bool, outcome: Outcome)

  datatype State = State(d: Dispatcher, place: Place, arrivals: seq<Queued>, replies: seq<Reply>)

  function Arrive(s: State, command: nat, seqNo: nat, arg: string, hasContext: bool): State {
    var q := Queued(|s.arrivals|, command, seqNo, arg);
    s.(d := s.d.Enqueue(q, hasContext), arrivals := s.arrivals + [q],
      replies := s.replies + EnqueueReplies(q, s.d.Judge(q, hasContext)))
  }

  function Replying(s: State, q: Queued, code: Code, place: Place): State {
    s.(replies := s.replies + [ReplyTo(q, code)], place := place)
  }

  /** _run_control: the reply of each handler, and clear_pending before the answer of a stop or after a failed start. */
  function Handle(s: State, k: nat, q: Queued, chance: Chance): State {
    if k == START then
      Replying(s, q, if chance.hasBackend then Ok else NoSession, Finishing(k, q))
    else if k == STOP then
      s.(place := Clearing(START, Answer(k, q)))
    else if k == FLUSH then
      Replying(s, q,
        if !chance.hasBackend then NoSession else if chance.outcome.Raises? then RuntimeError else FlushDone,
        Finishing(k, q))
    else if q.arg == "" then
      Replying(s, q, ConfigError, Finishing(k, q))
    else
      match chance.outcome
      case Succeeds => Replying(s, q, Ok, Finishing(k, q))
      case Raises => Replying(s, q, RuntimeError, Finishing(k, q))
      case ConfigFails => Replying(s, q, ConfigError, Clearing(START, Answered(k, q)))
      case EngineFails => Replying(s, q, EngineInitFail, Clearing(START, Answered(k, q)))
  }

  /** The next step of the drain task. From Idle it may also fail the start of a session that a HELLO asked for. */
  function Advance(s: State, chance: Chance): State {
    match s.place
    case Idle =>
      s.(place := if chance.outcome.Succeeds? then AtCommand(START) else Clearing(START, Back))
    case AtCommand(k) =>
      if !Known(k) then
        s.(place := Idle)
      else
        var (d, control) := s.d.Take(k);
        s.(d := d, place := if control.Some? then Taken(k, control.value) else AtCommand(k + 1))
    case Taken(k, q) =>
      if (k == FLUSH || k == RECONFIGURE) && !chance.hasBackend then
        s.(place := if chance.hasContext && !chance.active then PuttingBack(k, q) else Dropping(k, q))
      else
        s.(place := Running(k, q))
    case PuttingBack(k, q) => s.(d := s.d.PutBack(q, k), place := AtCommand(k + 1))
    case Dropping(k, q) => s.(d := s.d.Release(k), place := Rejecting(k, q))
    case Rejecting(k, q) => Replying(s, q, NoSession, AtCommand(k + 1))
    case Running(k, q) => Handle(s, k, q, chance)
    case Finishing(k, q) => s.(d := s.d.Finish(q, k), place := AtCommand(k + 1))
    case Clearing(c, after) =>
      if !Known(c) then
        match after
        case Back => s.(place := Idle)
        case Answer(k, q) => Replying(s, q, Ok, Finishing(k, q))
        case Answered(k, q) => s.(place := Finishing(k, q))
      else
        var (d, pending) := s.d.Clear(c);
        s.(d := d, place := if pending.Some? then Cancelling(c, pending.value, after) else Clearing(c + 1, after))
    case Cancelling(c, pending, after) => Replying(s, pending, Code.Cancelled, Clearing(c + 1, after))
  }

  datatype Action = Message(command: nat, seqNo: nat, arg: string, hasContext: bool) | Task(chance: Chance)

  function Step(s: State, a: Action): State {
    match a
    case Message(command, seqNo, arg, hasContext) => Arrive(s, command, seqNo, arg, hasContext)
    case Task(chance) => Advance(s, chance)
  }

  function Run(s: State, actions: seq<Action>): State
    decreases actions
  {
    if actions == [] then s else Run(Step(s, actions[0]), actions[1..])
  }

  function Start(): State {
    State(New(), Idle, [], [])
  }

  // Where each message is.

  function One(b: bool): nat {
    if b then 1 else 0
  }

  function RepliesTo(replies: seq<Reply>, id: nat): nat
    decreases replies
  {
    if replies == [] then 0 else RepliesTo(replies[..|replies| - 1], id) + One(replies[|replies| - 1].id == id)
  }

  lemma RepliesToAppend(replies: seq<Reply>, r: Reply, id: nat)
    ensures RepliesTo(replies + [r], id) == RepliesTo(replies, id) + One(r.id == id)
  {
    assert (replies + [r])[..|replies|] == replies;
  }

  /** The drain task holds the message and has not answered it. */
  function InHand(place: Place, id: nat): nat {
    match place
    case Taken(_, q) => One(q.id == id)
    case PuttingBack(_, q) => One(q.id == id)
    case Dropping(_, q) => One(q.id == id)
    case Rejecting(_, q) => One(q.id == id)
    case Running(_, q) => One(q.id == id)
    case Clearing(_, after) => One(after.Answer? && after.q.id == id)
    case Cancelling(_, pending, after) => One(pending.id == id) + One(after.Answer? && after.q.id == id)
    case _ => 0
  }

  function InSlot(d: Dispatcher, q: Queued): nat {
    One(d.Slot(q.command) == Some(q))
  }

  /** How often the message counts: answered, waiting in its slot, or in the drain task's hands. */
  function Accounts(s: State, id: nat): nat
    requires id < |s.arrivals|
  {
    RepliesTo(s.replies, id) + InSlot(s.d, s.arrivals[id]) + InHand(s.place, id)
  }

  predicate Arrived(s: State, q: Queued) {
    q.id < |s.arrivals| && s.arrivals[q.id] == q
  }

  ghost predicate AfterArrived(s: State, after: After) {
    !after.Back? ==> Known(after.k) && Arrived(s, after.q) && after.q.command == after.k
  }

  ghost predicate HandInvariant(s: State) {
    match s.place
    case Idle => true
    case AtCommand(k) => k >= START
    case Clearing(c, after) => c >= START && AfterArrived(s, after)
    case Cancelling(c, pending, after) =>
      Known(c) && Arrived(s, pending) && pending.command == c && AfterArrived(s, after)
    case _ => Known(s.place.k) && Arrived(s, s.place.q) && s.place.q.command == s.place.k
  }

  /** While a message may still be put back, its slot is kept free by the mark in flight. */
  ghost predicate Reserved(s: State) {
    s.place.Taken? || s.place.PuttingBack? || s.place.Dropping? ==>
      s.d.InFlight(s.place.k).Some? && s.d.Slot(s.place.k).None?
  }

  ghost predicate SlotInvariant(s: State) {
    && (forall i :: 0 <= i < |s.arrivals| ==> s.arrivals[i].id == i)
    && (forall c :: s.d.Slot(c).Some? ==> Known(c) && Arrived(s, s.d.Slot(c).value) && s.d.Slot(c).value.command == c)
  }

  /** A reply carries the number of its message, and only a flush is answered with FLUSH_DONE. */
  predicate IsReply(s: State, r: Reply) {
    && r.id < |s.arrivals| && r.seqNo == s.arrivals[r.id].seqNo
    && (r.code.FlushDone? ==> s.arrivals[r.id].command == FLUSH)
  }

  /** Every message is accounted for exactly once, and every reply carries the number of its message. */
  ghost predicate RepliesInvariant(s: State) {
    && (forall id :: 0 <= id < |s.arrivals| ==> Accounts(s, id) == 1)
    && (forall i :: 0 <= i < |s.replies| ==> IsReply(s, s.replies[i]))
  }

  ghost predicate Invariant(s: State) {
    HandInvariant(s) && Reserved(s) && SlotInvariant(s) && RepliesInvariant(s)
  }

  lemma ReplyKeeps(s: State, q: Queued, code: Code, place: Place)
    requires Invariant(s) && Arrived(s, q) && (code.FlushDone? ==> q.command == FLUSH)
    requires forall id :: InHand(s.place, id) == InHand(place, id) + One(q.id == id)
    requires HandInvariant(s.(place := place)) && Reserved(s.(place := place))
    ensures Invariant(Replying(s, q, code, place))
  {
    var t := Replying(s, q, code, place);
    forall id | 0 <= id < |t.arrivals|
      ensures Accounts(t, id) == 1
    {
      RepliesToAppend(s.replies, ReplyTo(q, code), id);
      assert Accounts(s, id) == 1;
    }
  }

  lemma MoveKeeps(s: State, d: Dispatcher, place: Place)
    requires Invariant(s)
    requires var t := s.(d := d, place := place); HandInvariant(t) && Reserved(t) && SlotInvariant(t)
    requires forall id :: 0 <= id < |s.arrivals| ==>
                            InSlot(d, s.arrivals[id]) + InHand(place, id)
                              == InSlot(s.d, s.arrivals[id]) + InHand(s.place, id)
    ensures Invariant(s.(d := d, place := place))
  {
    var t := s.(d := d, place := place);
    forall id | 0 <= id < |t.arrivals|
      ensures Accounts(t, id) == 1
    {
      assert Accounts(s, id) == 1;
    }
  }

  lemma ArriveKeepsPlaces(s: State, command: nat, seqNo: nat, arg: string, hasContext: bool)
    requires Invariant(s)
    ensures var t := Arrive(s, command, seqNo, arg, hasContext); HandInvariant(t) && Reserved(t) && SlotInvariant(t)
  {
    var t := Arrive(s, command, seqNo, arg, hasContext);
    assert forall i :: 0 <= i < |s.arrivals| ==> t.arrivals[i] == s.arrivals[i];
    assert forall c :: c != command ==> t.d.Slot(c) == s.d.Slot(c);
    assert t.d.inflight == s.d.inflight;
  }

  /** Only the new message and the one it replaces change their account. */
  lemma ArriveAccounts(s: State, q: Queued, hasContext: bool, id: nat)
    requires Invariant(s) && q.id == |s.arrivals| && id <= q.id
    ensures var t := Arrive(s, q.command, q.seqNo, q.arg, hasContext); Accounts(t, id) == 1
  {
    var t := Arrive(s, q.command, q.seqNo, q.arg, hasContext);
    var verdict := s.d.Judge(q, hasContext);
    ArriveReplies(s, q, verdict, id);
    UnseenUnanswered(s, q.id);
    assert id < q.id ==> Accounts(s, id) == 1 && t.arrivals[id] == s.arrivals[id];
    ArriveSlots(s, q, hasContext, id);
  }

  lemma ArriveReplies(s: State, q: Queued, verdict: Verdict, id: nat)
    ensures RepliesTo(s.replies + EnqueueReplies(q, verdict), id) == RepliesTo(s.replies, id)
            + (if verdict.Stored? then One(verdict.prior.Some? && verdict.prior.value.id == id) else One(q.id == id))
  {
    var news := EnqueueReplies(q, verdict);
    if news == [] {
      assert s.replies + news == s.replies;
    } else {
      RepliesToAppend(s.replies, news[0], id);
    }
  }

  lemma ArriveSlots(s: State, q: Queued, hasContext: bool, id: nat)
    requires SlotInvariant(s) && q.id == |s.arrivals| && id <= q.id
    ensures var m, verdict := if id < q.id then s.arrivals[id] else q, s.d.Judge(q, hasContext);
      InSlot(s.d.Enqueue(q, hasContext), m) ==
      if !verdict.Stored? then InSlot(s.d, m)
      else if id == q.id then 1
      else InSlot(s.d, m) - One(verdict.prior.Some? && verdict.prior.value.id == id)
  {
  }

  lemma ArriveKeeps(s: State, command: nat, seqNo: nat, arg: string, hasContext: bool)
    requires Invariant(s)
    ensures Invariant(Arrive(s, command, seqNo, arg, hasContext))
  {
    var t := Arrive(s, command, seqNo, arg, hasContext);
    var q := Queued(|s.arrivals|, command, seqNo, arg);
    ArriveKeepsPlaces(s, command, seqNo, arg, hasContext);
    forall id | 0 <= id < |t.arrivals|
      ensures Accounts(t, id) == 1
    {
      ArriveAccounts(s, q, hasContext, id);
    }
    forall i | 0 <= i < |t.replies|
      ensures IsReply(t, t.replies[i])
    {
      assert i < |s.replies| ==> t.replies[i] == s.replies[i] && IsReply(s, s.replies[i]);
    }
  }

  lemma UnseenUnanswered(s: State, id: nat)
    requires Invariant(s) && id >= |s.arrivals|
    ensures RepliesTo(s.replies, id) == 0 && InHand(s.place, id) == 0
  {
    NoReply(s.replies, id);
  }

  lemma {:induction false} NoReply(replies: seq<Reply>, id: nat)
    requires forall i :: 0 <= i < |replies| ==> replies[i].id != id
    ensures RepliesTo(replies, id) == 0
    decreases replies
  {
    if replies != [] {
      NoReply(replies[..|replies| - 1], id);
    }
  }

  lemma HandleKeeps(s: State, k: nat, q: Queued, chance: Chance)
    requires Invariant(s) && s.place == Running(k, q)
    ensures Invariant(Handle(s, k, q, chance))
  {
    if k == STOP {
      MoveKeeps(s, s.d, Clearing(START, Answer(k, q)));
    } else if k == RECONFIGURE && q.arg != "" && (chance.outcome.ConfigFails? || chance.outcome.EngineFails?) {
      ReplyKeeps(s, q, if chance.outcome.ConfigFails? then ConfigError else EngineInitFail,
        Clearing(START, Answered(k, q)));
    } else {
      var t := Handle(s, k, q, chance);
      ReplyKeeps(s, q, t.replies[|s.replies|].code, Finishing(k, q));
    }
  }

  lemma TakeKeeps(s: State, chance: Chance)
    requires Invariant(s) && s.place.AtCommand?
    ensures Invariant(Advance(s, chance))
  {
    var t := Advance(s, chance);
    MoveKeeps(s, t.d, t.place);
  }

  lemma ClearKeeps(s: State, chance: Chance)
    requires Invariant(s) && s.place.Clearing?
    ensures Invariant(Advance(s, chance))
  {
    var t := Advance(s, chance);
    if s.place.c > RECONFIGURE && s.place.after.Answer? {
      ReplyKeeps(s, s.place.after.q, Ok, t.place);
    } else {
      MoveKeeps(s, t.d, t.place);
    }
  }

  lemma TakenKeeps(s: State, chance: Chance)
    requires Invariant(s) && s.place.Taken?
    ensures Invariant(Advance(s, chance))
  {
    var t := Advance(s, chance);
    MoveKeeps(s, t.d, t.place);
  }

  lemma PutBackKeeps(s: State, chance: Chance)
    requires Invariant(s) && s.place.PuttingBack?
    ensures Invariant(Advance(s, chance))
  {
    var t := Advance(s, chance);
    MoveKeeps(s, t.d, t.place);
  }

  lemma StepKeeps(s: State, a: Action)
    requires Invariant(s)
    ensures Invariant(Step(s, a))
  {
    match a
    case Message(command, seqNo, arg, hasContext) => ArriveKeeps(s, command, seqNo, arg, hasContext);
    case Task(chance) => AdvanceKeeps(s, chance);
  }

  lemma AdvanceKeeps(s: State, chance: Chance)
    requires Invariant(s)
    ensures Invariant(Advance(s, chance))
  {
    var t := Advance(s, chance);
    match s.place
    case Rejecting(k, q) => ReplyKeeps(s, q, NoSession, t.place);
    case Cancelling(_, pending, _) => ReplyKeeps(s, pending, Code.Cancelled, t.place);
    case Running(k, q) => HandleKeeps(s, k, q, chance);
    case AtCommand(_) => TakeKeeps(s, chance);
    case Clearing(_, _) => ClearKeeps(s, chance);
    case Idle => MoveKeeps(s, t.d, t.place);
    case Taken(_, _) => TakenKeeps(s, chance);
    case PuttingBack(_, _) => PutBackKeeps(s, chance);
    case Dropping(_, _) => MoveKeeps(s, t.d, t.place);
    case Finishing(_, _) => MoveKeeps(s, t.d, t.place);
  }

  lemma {:induction false} RunKeeps(s: State, actions: seq<Action>)
    requires Invariant(s)
    ensures Invariant(Run(s, actions))
    decreases actions
  {
    if actions != [] {
      StepKeeps(s, actions[0]);
      RunKeeps(Step(s, actions[0]), actions[1..]);
    }
  }

  /**
   In every run each message that has arrived got exactly one STATUS or FLUSH_DONE, or none yet and then it waits in
   its slot or is being handled, in exactly one of these; and every reply is one to a message that arrived.
   */
  lemma OneReplyEach(actions: seq<Action>)
    ensures var t := Run(Start(), actions);
      && (forall id ::
           0 <= id < |t.arrivals| ==> RepliesTo(t.replies, id) + InSlot(t.d, t.arrivals[id]) + InHand(t.place, id) == 1)
      && (forall i :: 0 <= i < |t.replies| ==> IsReply(t, t.replies[i]))
  {
    var t := Run(Start(), actions);
    RunKeeps(Start(), actions);
    forall id | 0 <= id < |t.arrivals|
      ensures RepliesTo(t.replies, id) + InSlot(t.d, t.arrivals[id]) + InHand(t.place, id) == 1
    {
      assert Accounts(t, id) == 1;
    }
  }

  /** Once the drain task is idle and the slots are empty, every message has been answered, once. */
  lemma AllAnswered(actions: seq<Action>, id: nat)
    requires var t := Run(Start(), actions); t.place.Idle? && (forall c :: t.d.Slot(c).None?) && id < |t.arrivals|
    ensures RepliesTo(Run(Start(), actions).replies, id) == 1
  {
    OneReplyEach(actions);
  }
}
