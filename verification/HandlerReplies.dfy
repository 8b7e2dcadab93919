/**
 What the code of a reply means. While DispatchRuns counts replies, this keeps beside a run what became of each
 message: how it was met on arrival, or what the drain task found when it ran it. In every run the code sent is the one
 that says so.
 */
module HandlerReplies {
  import opened Options
  import opened ControlDispatcher
  import opened DispatchRuns

  /** What became of a message. */
  datatype Finding =
    | Unknown
    | WithoutContext
    | SameNumber
    | OldNumber
    | Replaced
    | WithoutBackend
    | Swept
    | Ran(chance: Chance)

  /** How a message is met on arrival: its number against the mark in flight and the last number handled. */
  function Met(d: Dispatcher, q: Queued, hasContext: bool): Option<Finding> {
    if !Known(q.command) then Some(Unknown)
    else if !hasContext then Some(WithoutContext)
    else if d.InFlight(q.command) == Some(q.seqNo) then Some(SameNumber)
    else if d.InFlight(q.command).Some? then Some(OldNumber)
    else if q.seqNo == d.LastSeq(q.command) then Some(SameNumber)
    else if q.seqNo < d.LastSeq(q.command) then Some(OldNumber)
    else None
  }

  /** A flush or a reconfigure that finds no backend, and no session about to come up either. */
  predicate FindsNothing(place: Place, chance: Chance) {
    && place.Taken? && (place.k == FLUSH || place.k == RECONFIGURE)
    && !chance.hasBackend && !(chance.hasContext && !chance.active)
  }

  /** What is found in a step of the drain task, and about which message. */
  function FoundByTask(s: State, chance: Chance): Option<(nat, Finding)> {
    if FindsNothing(s.place, chance) then Some((s.place.q.id, WithoutBackend))
    else if s.place.Running? then Some((s.place.q.id, Ran(chance)))
    else if s.place.Clearing? && Known(s.place.c) && s.d.Slot(s.place.c).Some? then
      Some((s.d.Slot(s.place.c).value.id, Swept))
    else None
  }

  function Noted(s: State, found: map<nat, Finding>, a: Action): map<nat, Finding> {
    match a
    case Message(command, seqNo, arg, hasContext) =>
      var q := Queued(|s.arrivals|, command, seqNo, arg);
      var met := Met(s.d, q, hasContext);
      if met.Some? then found[q.id := met.value]
      else if s.d.Slot(command).Some? then found[s.d.Slot(command).value.id := Replaced]
      else found
    case Task(chance) =>
      var f := FoundByTask(s, chance);
      if f.Some? then found[f.value.0 := f.value.1] else found
  }

  /** What a run has found. */
  function FoundIn(s: State, found: map<nat, Finding>, actions: seq<Action>): map<nat, Finding>
    decreases actions
  {
    if actions == [] then found else FoundIn(Step(s, actions[0]), Noted(s, found, actions[0]), actions[1..])
  }

  /** The handler ran with a session, as far as it needs one, and did not fail. */
  predicate Succeeded(q: Queued, f: Finding) {
    f.Ran? &&
      match q.command
      case 1 => f.chance.hasBackend
      case 2 => true
      case 3 => f.chance.hasBackend && !f.chance.outcome.Raises?
      case _ => q.arg != "" && f.chance.outcome.Succeeds?
  }

  predicate LackedSession(q: Queued, f: Finding) {
    f.WithoutContext? || f.WithoutBackend?
      || (f.Ran? && (q.command == START || q.command == FLUSH) && !f.chance.hasBackend)
  }

  predicate BadConfig(q: Queued, f: Finding) {
    f.Ran? && q.command == RECONFIGURE && (q.arg == "" || f.chance.outcome.ConfigFails?)
  }

  predicate BadEngine(q: Queued, f: Finding) {
    f.Ran? && q.command == RECONFIGURE && q.arg != "" && f.chance.outcome.EngineFails?
  }

  predicate Failed(q: Queued, f: Finding) {
    || f.Unknown?
    || (f.Ran? && q.command == FLUSH && f.chance.hasBackend && f.chance.outcome.Raises?)
    || (f.Ran? && q.command == RECONFIGURE && q.arg != "" && f.chance.outcome.Raises?)
  }

  /** Each code is sent exactly for its reason. */
  predicate Means(code: Code, q: Queued, f: Finding) {
    && (code.FlushDone? <==> q.command == FLUSH && Succeeded(q, f))
    && (code.Ok? <==> f.SameNumber? || (q.command != FLUSH && Succeeded(q, f)))
    && (code.NoSession? <==> LackedSession(q, f))
    && (code.Cancelled? <==> f.OldNumber? || f.Replaced? || f.Swept?)
    && (code.ConfigError? <==> BadConfig(q, f))
    && (code.EngineInitFail? <==> BadEngine(q, f))
    && (code.RuntimeError? <==> Failed(q, f))
  }

  /** Every reply means what was found about its message. */
  ghost predicate Told(s: State, found: map<nat, Finding>) {
    forall i :: 0 <= i < |s.replies| ==>
      var r := s.replies[i]; r.id < |s.arrivals| && r.id in found && Means(r.code, s.arrivals[r.id], found[r.id])
  }

  /** What the drain task is about to reply is what it found. */
  ghost predicate InHandFound(place: Place, found: map<nat, Finding>) {
    match place
    case Dropping(_, q) => q.id in found && found[q.id].WithoutBackend?
    case Rejecting(_, q) => q.id in found && found[q.id].WithoutBackend?
    case Clearing(_, after) => AfterFound(after, found)
    case Cancelling(_, pending, after) => pending.id in found && found[pending.id].Swept? && AfterFound(after, found)
    case _ => true
  }

  ghost predicate AfterFound(after: After, found: map<nat, Finding>) {
    after.Answer? ==> after.k == STOP && after.q.id in found && found[after.q.id].Ran?
  }

  /** A message that was not answered is in no reply. */
  lemma {:induction false} Unanswered(replies: seq<Reply>, id: nat)
    requires RepliesTo(replies, id) == 0
    ensures forall i :: 0 <= i < |replies| ==> replies[i].id != id
    decreases replies
  {
    if replies != [] {
      Unanswered(replies[..|replies| - 1], id);
      assert forall i :: 0 <= i < |replies| - 1 ==> replies[i] == replies[..|replies| - 1][i];
    }
  }

  /** Noting what was found about an unanswered message. */
  lemma NoteKeepsTold(s: State, found: map<nat, Finding>, id: nat, f: Finding)
    requires Invariant(s) && Told(s, found) && id < |s.arrivals|
    requires InSlot(s.d, s.arrivals[id]) + InHand(s.place, id) >= 1
    ensures Told(s, found[id := f])
  {
    assert Accounts(s, id) == 1;
    Unanswered(s.replies, id);
  }

  lemma ReplyKeepsTold(s: State, found: map<nat, Finding>, q: Queued, code: Code, place: Place)
    requires Told(s, found) && Arrived(s, q) && q.id in found && Means(code, q, found[q.id])
    ensures Told(Replying(s, q, code, place), found)
  {
  }

  lemma MoveKeepsTold(s: State, found: map<nat, Finding>, d: Dispatcher, place: Place)
    requires Told(s, found)
    ensures Told(s.(d := d, place := place), found)
  {
  }

  lemma HandleTells(s: State, found: map<nat, Finding>, chance: Chance)
    requires Invariant(s) && Told(s, found) && s.place.Running?
    ensures var found1 := found[s.place.q.id := Ran(chance)]; var t := Handle(s, s.place.k, s.place.q, chance);
      Told(t, found1) && InHandFound(t.place, found1)
  {
    var k, q := s.place.k, s.place.q;
    var found1 := found[q.id := Ran(chance)];
    NoteKeepsTold(s, found, q.id, Ran(chance));
    var t := Handle(s, k, q, chance);
    if k == STOP {
      MoveKeepsTold(s, found1, s.d, t.place);
    } else {
      var code := t.replies[|s.replies|].code;
      assert t == Replying(s, q, code, t.place);
      ReplyKeepsTold(s, found1, q, code, t.place);
    }
  }

  lemma ClearTells(s: State, found: map<nat, Finding>, chance: Chance)
    requires Invariant(s) && Told(s, found) && InHandFound(s.place, found) && s.place.Clearing?
    ensures var t, found1 := Advance(s, chance), Noted(s, found, Task(chance));
      Told(t, found1) && InHandFound(t.place, found1)
  {
    var c, after := s.place.c, s.place.after;
    var t, found1 := Advance(s, chance), Noted(s, found, Task(chance));
    if Known(c) && s.d.Slot(c).Some? {
      var pending := s.d.Slot(c).value;
      NoteKeepsTold(s, found, pending.id, Swept);
      MoveKeepsTold(s, found1, t.d, t.place);
      if after.Answer? {
        assert Accounts(s, pending.id) == 1;
      }
    } else if !Known(c) && after.Answer? {
      ReplyKeepsTold(s, found, after.q, Ok, t.place);
    } else {
      MoveKeepsTold(s, found, t.d, t.place);
    }
  }

  lemma TakenTells(s: State, found: map<nat, Finding>, chance: Chance)
    requires Invariant(s) && Told(s, found) && s.place.Taken?
    ensures var t, found1 := Advance(s, chance), Noted(s, found, Task(chance));
      Told(t, found1) && InHandFound(t.place, found1)
  {
    var t := Advance(s, chance);
    if FindsNothing(s.place, chance) {
      NoteKeepsTold(s, found, s.place.q.id, WithoutBackend);
    }
    MoveKeepsTold(s, Noted(s, found, Task(chance)), t.d, t.place);
  }

  lemma TaskTells(s: State, found: map<nat, Finding>, chance: Chance)
    requires Invariant(s) && Told(s, found) && InHandFound(s.place, found)
    ensures var t, found1 := Advance(s, chance), Noted(s, found, Task(chance));
      Told(t, found1) && InHandFound(t.place, found1)
  {
    var t := Advance(s, chance);
    match s.place
    case Running(_, _) => HandleTells(s, found, chance);
    case Clearing(_, _) => ClearTells(s, found, chance);
    case Taken(_, _) => TakenTells(s, found, chance);
    case Rejecting(_, q) => ReplyKeepsTold(s, found, q, NoSession, t.place);
    case Cancelling(_, pending, _) => ReplyKeepsTold(s, found, pending, Code.Cancelled, t.place);
    case _ => MoveKeepsTold(s, found, t.d, t.place);
  }

  lemma GrownTold(s: State, found: map<nat, Finding>, q: Queued, d: Dispatcher)
    requires Told(s, found) && q.id == |s.arrivals|
    ensures Told(s.(d := d, arrivals := s.arrivals + [q]), found)
  {
  }

  /** A new message is not in the hands of the drain task, and no reply is to it. */
  lemma NewNoteKeeps(s: State, found: map<nat, Finding>, f: Finding)
    requires Invariant(s) && Told(s, found) && InHandFound(s.place, found)
    ensures Told(s, found[|s.arrivals| := f]) && InHandFound(s.place, found[|s.arrivals| := f])
  {
    UnseenUnanswered(s, |s.arrivals|);
  }

  lemma ReplacedKeeps(s: State, found: map<nat, Finding>, id: nat)
    requires Invariant(s) && Told(s, found) && InHandFound(s.place, found)
    requires id < |s.arrivals| && InSlot(s.d, s.arrivals[id]) == 1
    ensures Told(s, found[id := Replaced]) && InHandFound(s.place, found[id := Replaced])
  {
    NoteKeepsTold(s, found, id, Replaced);
    assert Accounts(s, id) == 1;
  }

  lemma MessageTells(s: State, found: map<nat, Finding>, command: nat, seqNo: nat, arg: string, hasContext: bool)
    requires Invariant(s) && Told(s, found) && InHandFound(s.place, found)
    ensures var a := Message(command, seqNo, arg, hasContext); var t, found1 := Step(s, a), Noted(s, found, a);
      Told(t, found1) && InHandFound(t.place, found1)
  {
    var q := Queued(|s.arrivals|, command, seqNo, arg);
    var d := s.d.Enqueue(q, hasContext);
    var verdict, met := s.d.Judge(q, hasContext), Met(s.d, q, hasContext);
    var grown := s.(d := d, arrivals := s.arrivals + [q]);
    if met.Some? {
      NewNoteKeeps(s, found, met.value);
      GrownTold(s, found[q.id := met.value], q, d);
      ReplyKeepsTold(grown, found[q.id := met.value], q, EnqueueReplies(q, verdict)[0].code, s.place);
    } else if s.d.Slot(command).Some? {
      var prior := s.d.Slot(command).value;
      ReplacedKeeps(s, found, prior.id);
      GrownTold(s, found[prior.id := Replaced], q, d);
      ReplyKeepsTold(grown, found[prior.id := Replaced], prior, Code.Cancelled, s.place);
    } else {
      GrownTold(s, found, q, d);
      assert s.replies + [] == s.replies;
    }
  }

  lemma {:induction false} RunTells(s: State, found: map<nat, Finding>, actions: seq<Action>)
    requires Invariant(s) && Told(s, found) && InHandFound(s.place, found)
    ensures var t, found1 := Run(s, actions), FoundIn(s, found, actions);
      Told(t, found1) && InHandFound(t.place, found1)
    decreases actions
  {
    if actions != [] {
      match actions[0] {
        case Message(command, seqNo, arg, hasContext) => MessageTells(s, found, command, seqNo, arg, hasContext);
        case Task(chance) => TaskTells(s, found, chance);
      }
      StepKeeps(s, actions[0]);
      RunTells(Step(s, actions[0]), Noted(s, found, actions[0]), actions[1..]);
    }
  }

  /** In every run the code of each reply is sent exactly for the reason it stands for. */
  lemma RepliesMean(actions: seq<Action>)
    ensures Told(Run(Start(), actions), FoundIn(Start(), map[], actions))
  {
    RunTells(Start(), map[], actions);
  }
}
