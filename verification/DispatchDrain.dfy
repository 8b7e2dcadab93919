/**
 What the marks of the dispatcher mean, what clear_pending does, and that the drain task gets everything done: with a
 session, one pass of it answers every message that waits.
 */
module DispatchDrain {
  import opened Options
  import opened ControlDispatcher
  import opened DispatchRuns

  // ---------- The marks ----------

  /** The message the drain task is at, until it has finished with it. */
  function AtHand(place: Place): Option<(nat, Queued)> {
    match place
    case Idle => None
    case AtCommand(_) => None
    case Rejecting(_, _) => None
    case Clearing(_, after) => AfterHand(after)
    case Cancelling(_, _, after) => AfterHand(after)
    case _ => Some((place.k, place.q))
  }

  function AfterHand(after: After): Option<(nat, Queued)> {
    if after.Back? then None else Some((after.k, after.q))
  }

  /** A mark in flight is the number of the message at hand, under its command. */
  ghost predicate MarksAtHand(s: State) {
    && (forall c :: s.d.InFlight(c).Some? ==>
          AtHand(s.place).Some? && AtHand(s.place).value.0 == c
            && s.d.InFlight(c).value == AtHand(s.place).value.1.seqNo)
    && (s.place.Taken? || s.place.PuttingBack? || s.place.Dropping? || s.place.Running? ==>
          s.d.InFlight(s.place.k) == Some(s.place.q.seqNo))
  }

  /** The message of each command that the drain task finished with last. */
  function NowLast(s: State, last: map<nat, Queued>, a: Action): map<nat, Queued> {
    if a.Task? && s.place.Finishing? then last[s.place.k := s.place.q] else last
  }

  function LastIn(s: State, last: map<nat, Queued>, actions: seq<Action>): map<nat, Queued>
    decreases actions
  {
    if actions == [] then last else LastIn(Step(s, actions[0]), NowLast(s, last, actions[0]), actions[1..])
  }

  ghost predicate LastNumbers(d: Dispatcher, last: map<nat, Queued>) {
    forall c :: Known(c) ==> d.LastSeq(c) == if c in last then last[c].seqNo else -1
  }

  lemma TakeKeepsMarks(s: State, chance: Chance)
    requires MarksAtHand(s) && s.place.AtCommand?
    ensures MarksAtHand(Advance(s, chance))
  {
    var t := Advance(s, chance);
    forall c: nat | c != s.place.k || t.place.AtCommand? || t.place.Idle?
      ensures t.d.InFlight(c).None?
    {
      assert s.d.InFlight(c).None?;
    }
  }

  lemma ClearKeepsMarks(s: State, chance: Chance)
    requires MarksAtHand(s) && s.place.Clearing?
    ensures MarksAtHand(Advance(s, chance))
  {
    var t := Advance(s, chance);
    assert forall c :: t.d.InFlight(c).Some? ==> t.d.InFlight(c) == s.d.InFlight(c);
  }

  lemma ReleaseKeepsMarks(s: State, chance: Chance)
    requires MarksAtHand(s) && (s.place.PuttingBack? || s.place.Dropping? || s.place.Finishing?)
    ensures MarksAtHand(Advance(s, chance))
  {
    var t := Advance(s, chance);
    assert forall c :: t.d.InFlight(c).Some? ==> t.d.InFlight(c) == s.d.InFlight(c) && c != s.place.k;
  }

  lemma StepKeepsMarks(s: State, a: Action)
    requires MarksAtHand(s)
    ensures MarksAtHand(Step(s, a))
  {
    match a
    case Message(command, seqNo, arg, hasContext) =>
      assert forall c: nat :: Step(s, a).d.InFlight(c) == s.d.InFlight(c);
    case Task(chance) =>
      if s.place.AtCommand? {
        TakeKeepsMarks(s, chance);
      } else if s.place.Clearing? {
        ClearKeepsMarks(s, chance);
      } else if s.place.PuttingBack? || s.place.Dropping? || s.place.Finishing? {
        ReleaseKeepsMarks(s, chance);
      } else {
        assert Step(s, a).d == s.d;
      }
  }

  lemma StepKeepsLast(s: State, last: map<nat, Queued>, a: Action)
    requires LastNumbers(s.d, last)
    ensures LastNumbers(Step(s, a).d, NowLast(s, last, a))
  {
  }

  lemma {:induction false} RunKeepsMarks(s: State, last: map<nat, Queued>, actions: seq<Action>)
    requires MarksAtHand(s) && LastNumbers(s.d, last)
    ensures MarksAtHand(Run(s, actions)) && LastNumbers(Run(s, actions).d, LastIn(s, last, actions))
    decreases actions
  {
    if actions != [] {
      StepKeepsMarks(s, actions[0]);
      StepKeepsLast(s, last, actions[0]);
      RunKeepsMarks(Step(s, actions[0]), NowLast(s, last, actions[0]), actions[1..]);
    }
  }

  /**
   In every run: a mark in flight is the number of the message being handled, and the last number of a command is that
   of the last message of it that was finished with, or -1.
   */
  lemma MarksMean(actions: seq<Action>)
    ensures MarksAtHand(Run(Start(), actions))
    ensures LastNumbers(Run(Start(), actions).d, LastIn(Start(), map[], actions))
  {
    RunKeepsMarks(Start(), map[], actions);
  }

  // ---------- clear_pending ----------

  /** The answers clear_pending gives: each waiting message of a command from c on is cancelled, in order of command. */
  ghost predicate CancelsFrom(d: Dispatcher, c: nat, replies: seq<Reply>)
    decreases RECONFIGURE + 1 - c
  {
    if !Known(c) then replies == []
    else if d.Slot(c).None? then CancelsFrom(d, c + 1, replies)
    else
      && replies != [] && replies[0].id == d.Slot(c).value.id && replies[0].seqNo == d.Slot(c).value.seqNo
      && replies[0].code.Cancelled? && CancelsFrom(d, c + 1, replies[1..])
  }

  lemma ClearOne(d: Dispatcher, c: nat)
    ensures forall k: nat :: d.Clear(c).0.Slot(k) == if k == c then None else d.Slot(k)
    ensures forall k: nat :: d.Clear(c).0.InFlight(k) == if k == c then None else d.InFlight(k)
  {
  }

  lemma {:induction false} CancelsSame(d: Dispatcher, e: Dispatcher, c: nat, replies: seq<Reply>)
    requires CancelsFrom(d, c, replies) && forall k: nat :: k >= c ==> e.Slot(k) == d.Slot(k)
    ensures CancelsFrom(e, c, replies)
    decreases RECONFIGURE + 1 - c
  {
    if Known(c) {
      CancelsSame(d, e, c + 1, if d.Slot(c).None? then replies else replies[1..]);
    }
  }

  lemma {:induction false} ClearedSlots(d: Dispatcher, c: nat)
    requires c >= START
    ensures var rest := ClearFrom(d, c).0;
      && (forall k: nat :: rest.Slot(k) == if Known(k) && k >= c then None else d.Slot(k))
      && (forall k: nat :: rest.InFlight(k) == if Known(k) && k >= c then None else d.InFlight(k))
      && rest.lastSeq == d.lastSeq
    decreases RECONFIGURE + 1 - c
  {
    if Known(c) {
      ClearOne(d, c);
      ClearedSlots(d.Clear(c).0, c + 1);
    }
  }

  lemma {:induction false} ClearedReplies(d: Dispatcher, c: nat)
    requires c >= START
    ensures CancelsFrom(d, c, ClearFrom(d, c).1)
    decreases RECONFIGURE + 1 - c
  {
    if Known(c) {
      var replies := ClearFrom(d.Clear(c).0, c + 1).1;
      ClearOne(d, c);
      ClearedReplies(d.Clear(c).0, c + 1);
      CancelsSame(d.Clear(c).0, d, c + 1, replies);
      if d.Slot(c).Some? {
        assert (CancelReply(d, c) + replies)[1..] == replies;
      } else {
        assert CancelReply(d, c) + replies == replies;
      }
    }
  }

  /** clear_pending empties every slot, clears every mark, and cancels exactly the messages that waited. */
  lemma ClearsAll(d: Dispatcher)
    ensures var (rest, replies) := ClearFrom(d, START);
      && (forall k: nat :: Known(k) ==> rest.Slot(k).None? && rest.InFlight(k).None?)
      && rest.lastSeq == d.lastSeq && CancelsFrom(d, START, replies)
  {
    ClearedSlots(d, START);
    ClearedReplies(d, START);
  }

  // ---------- The drain task alone ----------

  lemma FinishOne(d: Dispatcher, q: Queued, c: nat)
    ensures forall k: nat :: d.Finish(q, c).Slot(k) == d.Slot(k)
    ensures forall k: nat :: d.Finish(q, c).InFlight(k) == if k == c then None else d.InFlight(k)
  {
  }

  lemma TakeOne(d: Dispatcher, c: nat)
    requires d.InFlight(c).None? && d.Slot(c).Some?
    ensures d.Take(c).1 == d.Slot(c)
    ensures forall k: nat :: d.Take(c).0.Slot(k) == if k == c then None else d.Slot(k)
    ensures forall k: nat :: k != c ==> d.Take(c).0.InFlight(k) == d.InFlight(k)
  {
  }

  function Tasks(chance: Chance, n: nat): seq<Action> {
    if n == 0 then [] else [Task(chance)] + Tasks(chance, n - 1)
  }

  /** Steps of the drain task, finding the same each time, lead from s to t. */
  ghost predicate Leads(s: State, chance: Chance, t: State) {
    exists n: nat :: Run(s, Tasks(chance, n)) == t
  }

  lemma {:induction false} RunLast(s: State, chance: Chance, n: nat)
    ensures Run(s, Tasks(chance, n + 1)) == Advance(Run(s, Tasks(chance, n)), chance)
    decreases n
  {
    assert ([Task(chance)] + Tasks(chance, n))[1..] == Tasks(chance, n);
    if n > 0 {
      assert ([Task(chance)] + Tasks(chance, n - 1))[1..] == Tasks(chance, n - 1);
      RunLast(Advance(s, chance), chance, n - 1);
    } else {
      assert Run(Advance(s, chance), Tasks(chance, 0)) == Advance(s, chance);
    }
  }

  lemma LeadsNext(s: State, chance: Chance, t: State)
    requires Leads(s, chance, t)
    ensures Leads(s, chance, Advance(t, chance))
  {
    var n: nat :| Run(s, Tasks(chance, n)) == t;
    RunLast(s, chance, n);
    assert Run(s, Tasks(chance, n + 1)) == Advance(t, chance);
  }

  /** A session is there and every handler succeeds. */
  predicate Steady(chance: Chance) {
    chance.hasBackend && chance.outcome.Succeeds?
  }

  ghost predicate EmptyBelow(d: Dispatcher, k: nat) {
    forall c: nat :: c < k ==> d.Slot(c).None?
  }

  ghost predicate NoMarks(d: Dispatcher) {
    forall c :: d.InFlight(c).None?
  }

  /** clear_pending goes through all commands. */
  lemma {:induction false} ClearingLeads(s: State, chance: Chance, t: State) returns (u: State)
    requires Leads(s, chance, t) && t.place.Clearing? && t.place.c >= START && EmptyBelow(t.d, t.place.c)
    requires forall c :: t.d.Slot(c).Some? || t.d.InFlight(c).Some? ==> Known(c)
    requires forall c: nat :: c < t.place.c ==> t.d.InFlight(c).None?
    ensures Leads(s, chance, u) && u.place.Clearing? && !Known(u.place.c) && u.place.after == t.place.after
    ensures (forall c :: u.d.Slot(c).None?) && NoMarks(u.d)
    decreases RECONFIGURE + 1 - t.place.c
  {
    if !Known(t.place.c) {
      u := t;
    } else {
      LeadsNext(s, chance, t);
      ClearOne(t.d, t.place.c);
      var next := Advance(t, chance);
      if next.place.Cancelling? {
        LeadsNext(s, chance, next);
        next := Advance(next, chance);
      }
      u := ClearingLeads(s, chance, next);
    }
  }

  /** At command k with nothing marked, and nothing waiting for an earlier command. */
  ghost predicate Draining(t: State, k: nat) {
    && t.place == AtCommand(k) && EmptyBelow(t.d, k) && NoMarks(t.d)
    && forall c :: t.d.Slot(c).Some? ==> Known(c) && t.d.Slot(c).value.command == c
  }

  lemma TakenLeads(s: State, chance: Chance, t: State, k: nat) returns (u: State)
    requires Leads(s, chance, t) && Draining(t, k) && Known(k) && Steady(chance) && t.d.Slot(k).Some?
    ensures var q := t.d.Slot(k).value;
      Leads(s, chance, u) && u.place == Running(k, q) && (u.d, Some(q)) == t.d.Take(k)
  {
    LeadsNext(s, chance, t);
    LeadsNext(s, chance, Advance(t, chance));
    u := Advance(Advance(t, chance), chance);
  }

  lemma FinishingLeads(s: State, chance: Chance, t: State, k: nat) returns (u: State)
    requires Leads(s, chance, t) && t.place.Finishing? && t.place.k == k && EmptyBelow(t.d, k + 1)
    requires forall c: nat :: c != k ==> t.d.InFlight(c).None?
    requires forall c :: t.d.Slot(c).Some? ==> Known(c) && t.d.Slot(c).value.command == c
    ensures Leads(s, chance, u) && Draining(u, k + 1)
  {
    LeadsNext(s, chance, t);
    FinishOne(t.d, t.place.q, k);
    u := Advance(t, chance);
  }

  lemma HandledLeads(s: State, chance: Chance, t: State, k: nat) returns (u: State)
    requires Leads(s, chance, t) && Draining(t, k) && Known(k) && Steady(chance) && t.d.Slot(k).Some?
    ensures Leads(s, chance, u) && Draining(u, k + 1)
  {
    var running := TakenLeads(s, chance, t, k);
    TakeOne(t.d, k);
    LeadsNext(s, chance, running);
    var handled := Advance(running, chance);
    if k == STOP {
      var cleared := ClearingLeads(s, chance, handled);
      LeadsNext(s, chance, cleared);
      handled := Advance(cleared, chance);
    }
    u := FinishingLeads(s, chance, handled, k);
  }

  lemma {:induction false} CommandsLead(s: State, chance: Chance, t: State, k: nat) returns (u: State)
    requires Leads(s, chance, t) && Draining(t, k) && Steady(chance) && k >= START
    ensures Leads(s, chance, u) && u.place.Idle? && forall c :: u.d.Slot(c).None?
    decreases RECONFIGURE + 1 - k
  {
    if !Known(k) {
      LeadsNext(s, chance, t);
      u := Advance(t, chance);
    } else if t.d.Slot(k).Some? {
      var next := HandledLeads(s, chance, t, k);
      u := CommandsLead(s, chance, next, k + 1);
    } else {
      LeadsNext(s, chance, t);
      u := CommandsLead(s, chance, Advance(t, chance), k + 1);
    }
  }

  /** From a state at rest that any run has led to, one pass with a session answers every message that has arrived. */
  lemma DrainAnswersAll(actions: seq<Action>, chance: Chance) returns (n: nat)
    requires Run(Start(), actions).place.Idle? && Steady(chance)
    ensures var t := Run(Run(Start(), actions), Tasks(chance, n));
      && t.place.Idle? && (forall c :: t.d.Slot(c).None?) && t.arrivals == Run(Start(), actions).arrivals
      && forall id :: 0 <= id < |t.arrivals| ==> RepliesTo(t.replies, id) == 1
  {
    var s := Run(Start(), actions);
    RunKeeps(Start(), actions);
    MarksMean(actions);
    assert Run(s, Tasks(chance, 0)) == s;
    LeadsNext(s, chance, s);
    var u := CommandsLead(s, chance, Advance(s, chance), START);
    n :| Run(s, Tasks(chance, n)) == u;
    TasksKeep(s, chance, n);
    forall id | 0 <= id < |u.arrivals|
      ensures RepliesTo(u.replies, id) == 1
    {
      assert Accounts(u, id) == 1;
    }
  }

  lemma {:induction false} TasksKeep(s: State, chance: Chance, n: nat)
    requires Invariant(s)
    ensures Invariant(Run(s, Tasks(chance, n))) && Run(s, Tasks(chance, n)).arrivals == s.arrivals
    decreases n
  {
    if n > 0 {
      assert ([Task(chance)] + Tasks(chance, n - 1))[1..] == Tasks(chance, n - 1);
      AdvanceKeeps(s, chance);
      TasksKeep(Advance(s, chance), chance, n - 1);
    }
  }
}
