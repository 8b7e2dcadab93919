/**
 The way of the replies from the dispatcher to the plugin, over whole runs of the protocol: through the sidecar's out
 queue, which may drop its oldest entry, and through the pipe.
 */
module ReplyOrder {
  import opened Sequences
  import D = ControlDispatcher
  import R = DispatchRuns
  import opened ControlProtocol

  type Replies = seq<D.Reply>

  // ---------- What a step does to a reply ----------

  /** The dispatcher makes these. */
  function MakesNow(p: Protocol, a: Action): Replies {
    var replies := Step(p, a).s.replies;
    if |p.s.replies| <= |replies| then replies[|p.s.replies|..] else []
  }

  /** The sidecar's writer takes the oldest reply in the out queue. */
  function WritesNow(p: Protocol, a: Action): Replies {
    if a.Transmit? && AtAwait(p.s.place) then p.outgoing[..if p.outgoing == [] then 0 else 1] else []
  }

  /** The out queue drops its oldest reply. */
  function LosesNow(p: Protocol, a: Action): Replies {
    if a.LoseOldest? then p.outgoing[..if p.outgoing == [] then 0 else 1] else []
  }

  /** The plugin's reader takes the oldest reply in the pipe. */
  function HearsNow(p: Protocol, a: Action): Replies {
    if a.Deliver? then p.back[..if p.back == [] then 0 else 1] else []
  }

  // ---------- Over a run ----------

  function Made(p: Protocol, actions: seq<Action>): Replies
    decreases actions
  {
    if actions == [] then [] else MakesNow(p, actions[0]) + Made(Step(p, actions[0]), actions[1..])
  }

  function Written(p: Protocol, actions: seq<Action>): Replies
    decreases actions
  {
    if actions == [] then [] else WritesNow(p, actions[0]) + Written(Step(p, actions[0]), actions[1..])
  }

  function Lost(p: Protocol, actions: seq<Action>): Replies
    decreases actions
  {
    if actions == [] then [] else LosesNow(p, actions[0]) + Lost(Step(p, actions[0]), actions[1..])
  }

  function Heard(p: Protocol, actions: seq<Action>): Replies
    decreases actions
  {
    if actions == [] then [] else HearsNow(p, actions[0]) + Heard(Step(p, actions[0]), actions[1..])
  }

  lemma TaskGrows(s: R.State, chance: R.Chance)
    ensures s.replies <= R.Advance(s, chance).replies
  {
  }

  lemma ArriveGrows(s: R.State, command: nat, seqNo: nat, arg: string, hasContext: bool)
    ensures s.replies <= R.Arrive(s, command, seqNo, arg, hasContext).replies
  {
  }

  lemma StepGrows(p: Protocol, a: Action)
    ensures Step(p, a).s.replies == p.s.replies + MakesNow(p, a)
  {
    if a.Task? {
      TaskGrows(p.s, a.chance);
    } else if a.Arrive? && |p.s.arrivals| < |p.sent| {
      var msg := p.sent[|p.s.arrivals|].msg;
      ArriveGrows(p.s, msg.command, msg.seqNo, msg.arg, a.hasContext);
    }
  }

  /** In the out queue: replies made join at its end, and the oldest leaves. */
  lemma OutgoingMoves(p: Protocol, a: Action)
    ensures WritesNow(p, a) + (LosesNow(p, a) + Step(p, a).outgoing) == p.outgoing + MakesNow(p, a)
  {
    StepGrows(p, a);
  }

  /** In the pipe: what is written joins at its end, and the oldest leaves. */
  lemma BackMoves(p: Protocol, a: Action)
    ensures HearsNow(p, a) + Step(p, a).back == p.back + WritesNow(p, a)
  {
  }

  lemma {:induction false} PipeInOrder(p: Protocol, actions: seq<Action>)
    ensures Heard(p, actions) + Run(p, actions).back == p.back + Written(p, actions)
    decreases actions
  {
    if actions != [] {
      var a, t := actions[0], Step(p, actions[0]);
      BackMoves(p, a);
      PipeInOrder(t, actions[1..]);
      var later, back, written := Heard(t, actions[1..]), Run(p, actions).back, Written(t, actions[1..]);
      ConcatAssociates(HearsNow(p, a), later, back);
      ConcatAssociates(HearsNow(p, a), t.back, written);
      ConcatAssociates(p.back, WritesNow(p, a), written);
    }
  }

  lemma Taken<T>(first: seq<T>, kept: seq<T>, lost: seq<T>, all: seq<T>)
    requires |first| <= 1 && Shuffles(kept, lost, all)
    ensures Shuffles(first + kept, lost, first + all) && Shuffles(kept, first + lost, first + all)
  {
    if first == [] {
      assert first + kept == kept && first + lost == lost && first + all == all;
    } else {
      assert (first + kept)[1..] == kept && (first + lost)[1..] == lost && (first + all)[1..] == all;
    }
  }

  lemma {:induction false} QueueInOrder(p: Protocol, actions: seq<Action>)
    ensures Shuffles(Written(p, actions) + Run(p, actions).outgoing, Lost(p, actions), p.outgoing + Made(p, actions))
    decreases actions
  {
    if actions == [] {
      assert p.outgoing + [] == p.outgoing && [] + p.outgoing == p.outgoing;
      ShufflesNone(p.outgoing);
    } else {
      var a, t := actions[0], Step(p, actions[0]);
      var written, left := Written(t, actions[1..]), Run(p, actions).outgoing;
      var lost, made := Lost(t, actions[1..]), Made(t, actions[1..]);
      OutgoingMoves(p, a);
      QueueInOrder(t, actions[1..]);
      Taken(LosesNow(p, a), written + left, lost, t.outgoing + made);
      Taken(WritesNow(p, a), written + left, LosesNow(p, a) + lost, LosesNow(p, a) + (t.outgoing + made));
      ConcatAssociates(WritesNow(p, a), written, left);
      ConcatAssociates(LosesNow(p, a), t.outgoing, made);
      ConcatAssociates(WritesNow(p, a), LosesNow(p, a) + t.outgoing, made);
      ConcatAssociates(p.outgoing, MakesNow(p, a), made);
    }
  }

  lemma {:induction false} RunGrows(p: Protocol, actions: seq<Action>)
    ensures Run(p, actions).s.replies == p.s.replies + Made(p, actions)
    decreases actions
  {
    if actions == [] {
      assert p.s.replies + [] == p.s.replies;
    } else {
      StepGrows(p, actions[0]);
      RunGrows(Step(p, actions[0]), actions[1..]);
      ConcatAssociates(p.s.replies, MakesNow(p, actions[0]), Made(Step(p, actions[0]), actions[1..]));
    }
  }

  /**
   In every run: the replies the plugin has heard, followed by those in the pipe and those in the out queue, are those
   the dispatcher made but for the ones the out queue dropped, all in the order in which they were made.
   */
  lemma RepliesInOrder(audioCapacity: nat, actions: seq<Action>)
    ensures var p, t := Start(audioCapacity), Run(Start(audioCapacity), actions);
      Shuffles((Heard(p, actions) + t.back) + t.outgoing, Lost(p, actions), t.s.replies)
  {
    var p := Start(audioCapacity);
    PipeInOrder(p, actions);
    QueueInOrder(p, actions);
    RunGrows(p, actions);
    assert [] + Written(p, actions) == Written(p, actions) && [] + Made(p, actions) == Made(p, actions);
  }
}
