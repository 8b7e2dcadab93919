/** Why a waiter of the plugin finishes: what the sidecar found about its message, end to end. */
module ProtocolReasons {
  import opened Options
  import opened ControlProtocol
  import opened HandlerReplies
  import Q = OutQueueModel
  import D = ControlDispatcher
  import R = DispatchRuns
  import ReplyOrder

  /** What a step finds. */
  function NotedIn(p: Protocol, found: map<nat, Finding>, a: Action): map<nat, Finding> {
    match a
    case Arrive(hasContext) =>
      if |p.s.arrivals| < |p.sent| then
        var msg := p.sent[|p.s.arrivals|].msg;
        Noted(p.s, found, R.Message(msg.command, msg.seqNo, msg.arg, hasContext))
      else
        found
    case Task(chance) => Noted(p.s, found, R.Task(chance))
    case _ => found
  }

  /** What a run finds. */
  function FoundBy(p: Protocol, found: map<nat, Finding>, actions: seq<Action>): map<nat, Finding>
    decreases actions
  {
    if actions == [] then found else FoundBy(Step(p, actions[0]), NotedIn(p, found, actions[0]), actions[1..])
  }

  /** No message met another one of its command. */
  ghost predicate Alone(found: map<nat, Finding>) {
    forall id :: id in found ==>
      found[id].WithoutContext? || found[id].WithoutBackend? || found[id].Swept? || found[id].Ran?
  }

  /** What is on its way back was replied. */
  ghost predicate Genuine(p: Protocol) {
    && (forall r :: r in p.outgoing ==> r in p.s.replies)
    && (forall r :: r in p.back ==> r in p.s.replies)
  }

  ghost predicate Knows(p: Protocol, found: map<nat, Finding>) {
    Told(p.s, found) && InHandFound(p.s.place, found) && Alone(found) && Genuine(p)
  }

  lemma SidecarGenuine(p: Protocol, t: R.State)
    requires Genuine(p) && p.s.replies <= t.replies
    ensures Genuine(Sidecar(p, t))
  {
    var p1 := Sidecar(p, t);
    forall r | r in p.s.replies
      ensures r in t.replies
    {
      var i :| 0 <= i < |p.s.replies| && p.s.replies[i] == r;
      assert t.replies[i] == r;
    }
    forall r | r in p1.outgoing
      ensures r in t.replies
    {
      assert r in p.outgoing || r in t.replies[|p.s.replies|..];
    }
  }

  lemma ArriveKnows(p: Protocol, found: map<nat, Finding>, hasContext: bool)
    requires Invariant(p) && Knows(p, found) && |p.s.arrivals| < |p.sent|
    ensures var a := Action.Arrive(hasContext); Knows(Step(p, a), NotedIn(p, found, a))
  {
    var msg := p.sent[|p.s.arrivals|].msg;
    NeverSuperseded(p, hasContext);
    MessageTells(p.s, found, msg.command, msg.seqNo, msg.arg, hasContext);
    SidecarGenuine(p, R.Arrive(p.s, msg.command, msg.seqNo, msg.arg, hasContext));
  }

  lemma TaskKnows(p: Protocol, found: map<nat, Finding>, chance: R.Chance)
    requires Invariant(p) && Knows(p, found)
    ensures var a := Action.Task(chance); Knows(Step(p, a), NotedIn(p, found, a))
  {
    TaskTells(p.s, found, chance);
    ReplyOrder.TaskGrows(p.s, chance);
    SidecarGenuine(p, R.Advance(p.s, chance));
  }

  lemma PipesKnow(p: Protocol, t: Protocol, found: map<nat, Finding>)
    requires Knows(p, found) && t.s == p.s
    requires forall r :: r in t.outgoing ==> r in p.outgoing
    requires forall r :: r in t.back ==> r in p.back || r in p.outgoing
    ensures Knows(t, found)
  {
  }

  lemma StepKnows(p: Protocol, found: map<nat, Finding>, a: Action)
    requires Invariant(p) && Knows(p, found)
    ensures Knows(Step(p, a), NotedIn(p, found, a))
  {
    match a
    case Arrive(hasContext) => if |p.s.arrivals| < |p.sent| { ArriveKnows(p, found, hasContext); }
    case Task(chance) => TaskKnows(p, found, chance);
    case Transmit => PipesKnow(p, Step(p, a), found);
    case LoseOldest => PipesKnow(p, Step(p, a), found);
    case Deliver => PipesKnow(p, Step(p, a), found);
    case _ => PipesKnow(p, Step(p, a), found);
  }

  lemma {:induction false} RunKnows(p: Protocol, found: map<nat, Finding>, actions: seq<Action>)
    requires Invariant(p) && Knows(p, found)
    ensures Knows(Run(p, actions), FoundBy(p, found, actions))
    decreases actions
  {
    if actions != [] {
      StepKeeps(p, actions[0]);
      StepKnows(p, found, actions[0]);
      RunKnows(Step(p, actions[0]), NotedIn(p, found, actions[0]), actions[1..]);
    }
  }

  /** A waiter's reason tells what was found about its message. */
  predicate Tells(result: Q.WaitReason, msg: D.Queued, f: Finding) {
    && (result == Q.Complete <==> Succeeded(msg, f))
    && (result == Q.NoSession <==> LackedSession(msg, f))
    && (result == Q.Cancelled <==> f.Swept?)
    && (result == Q.Timeout <==> BadConfig(msg, f) || BadEngine(msg, f) || Failed(msg, f))
  }

  lemma ReasonTells(code: D.Code, msg: D.Queued, f: Finding)
    requires Means(code, msg, f) && (f.WithoutContext? || f.WithoutBackend? || f.Swept? || f.Ran?)
    ensures Tells(ReasonOf(code), msg, f)
  {
  }

  lemma BackIsMeant(p: Protocol, found: map<nat, Finding>, r: D.Reply)
    requires Invariant(p) && Knows(p, found) && r in p.back
    ensures r.id < |p.sent| && r.id in found && Tells(ReasonOf(r.code), p.sent[r.id].msg, found[r.id])
  {
    assert r in p.s.replies;
    var i :| 0 <= i < |p.s.replies| && p.s.replies[i] == r;
    assert p.s.arrivals[r.id] == p.sent[r.id].msg;
    ReasonTells(r.code, p.sent[r.id].msg, found[r.id]);
  }

  /**
   Delivering a reply to a message still in flight finishes its waiter for the reason found at the other end: as
   complete exactly when the handler ran with a session and succeeded, as no session exactly when there was none, as
   cancelled exactly when the message was swept away by a stop or a failed start, and as timed out when the handler
   failed.
   */
  lemma WaiterIsTold(audioCapacity: nat, actions: seq<Action>)
    requires var p := Run(Start(audioCapacity), actions); p.back != []
    ensures var p, found := Run(Start(audioCapacity), actions), FoundBy(Start(audioCapacity), map[], actions);
      var r := p.back[0];
      && r.id < |p.sent| && r.id in found
      && var msg, w, q := p.sent[r.id].msg, p.sent[r.id].waiter, ApplyReply(p.q, r);
         Q.Matches(p.q, CommandOf(msg.command), r.seqNo) ==>
           w in q.waiters && Tells(q.waiters[w].result, msg, found[r.id])
  {
    var p, found := Run(Start(audioCapacity), actions), FoundBy(Start(audioCapacity), map[], actions);
    StartInvariant(audioCapacity);
    RunKeeps(Start(audioCapacity), actions);
    RunKnows(Start(audioCapacity), map[], actions);
    BackIsMeant(p, found, p.back[0]);
    ReplySettlesExactly(audioCapacity, actions);
  }
}
