/**
 ProducerQuiesce of native-plugin/src/quiesce.cpp: any number of producers between producer_enter and
 producer_leave, and one thread in begin_quiesce_and_wait. Every atomic operation is one step.
 */
module Quiesce {

  /** A producer between its increment and its decrement. */
  datatype Producer = Entered | Inside | Refused

  datatype Phase = NotBegun | Waiting | Drained | TimedOut

  /** A producer that is not in the map has not incremented, or has decremented. */
  datatype State = State(accepting: bool, inflight: int, producers: map<nat, Producer>, phase: Phase)

  function Open(): State {
    State(true, 0, map[], NotBegun)
  }

  /** The next step of producer p: enter, look at the flag, and leave. */
  function ProducerStep(s: State, p: nat): State {
    if p !in s.producers then
      s.(inflight := s.inflight + 1, producers := s.producers[p := Entered])
    else
      match s.producers[p]
      case Entered => s.(producers := s.producers[p := if s.accepting then Inside else Refused])
      case Inside => s.(inflight := s.inflight - 1, producers := s.producers - {p})
      case Refused => s.(inflight := s.inflight - 1, producers := s.producers - {p})
  }

  /** begin_quiesce_and_wait: close the flag, then look at the counter until it is 0 or the deadline has passed. */
  function WaiterStep(s: State, deadline: bool): State {
    match s.phase
    case NotBegun => s.(accepting := false, phase := Waiting)
    case Waiting => s.(phase := if s.inflight == 0 then Drained else if deadline then TimedOut else Waiting)
    case Drained => s
    case TimedOut => s
  }

  datatype Action = Producer(p: nat) | Waiter(deadline: bool)

  function Step(s: State, a: Action): State {
    match a
    case Producer(p) => ProducerStep(s, p)
    case Waiter(deadline) => WaiterStep(s, deadline)
  }

  function Run(s: State, actions: seq<Action>): State
    decreases actions
  {
    if actions == [] then s else Run(Step(s, actions[0]), actions[1..])
  }

  predicate Idle(s: State) {
    forall p :: p in s.producers ==> !s.producers[p].Inside?
  }

  predicate Invariant(s: State) {
    && s.inflight == |s.producers|
    && (s.phase.NotBegun? <==> s.accepting)
    && (s.phase.Drained? ==> Idle(s))
  }

  lemma Leaves(producers: map<nat, Producer>, p: nat)
    requires p in producers
    ensures |producers - {p}| == |producers| - 1
  {
    assert (producers - {p}).Keys == producers.Keys - {p};
    assert |producers.Keys| == |producers|;
    assert |(producers - {p}).Keys| == |producers - {p}|;
  }

  lemma Changes(producers: map<nat, Producer>, p: nat, state: Producer)
    ensures |producers[p := state]| == if p in producers then |producers| else |producers| + 1
  {
    assert producers[p := state].Keys == producers.Keys + {p};
    assert |producers.Keys| == |producers|;
    assert |producers[p := state].Keys| == |producers[p := state]|;
  }

  lemma StepKeeps(s: State, a: Action)
    requires Invariant(s)
    ensures Invariant(Step(s, a))
    ensures s.phase.Drained? ==> Step(s, a).phase.Drained?
  {
    match a
    case Waiter(_) =>
      assert s.inflight == 0 ==> s.producers == map[];
    case Producer(p) =>
      if p !in s.producers {
        Changes(s.producers, p, Entered);
      } else if s.producers[p].Entered? {
        Changes(s.producers, p, if s.accepting then Inside else Refused);
      } else {
        Leaves(s.producers, p);
      }
  }

  lemma {:induction false} RunKeeps(s: State, actions: seq<Action>)
    requires Invariant(s)
    ensures Invariant(Run(s, actions))
    ensures s.phase.Drained? ==> Run(s, actions).phase.Drained?
    decreases actions
  {
    if actions != [] {
      StepKeeps(s, actions[0]);
      RunKeeps(Step(s, actions[0]), actions[1..]);
    }
  }

  /**
   The counter is the number of producers between increment and decrement; once begin_quiesce_and_wait has returned
   true no producer is inside, and none gets in however the run goes on.
   */
  lemma NobodyInsideAfterDrain(before: seq<Action>, after: seq<Action>)
    ensures var s := Run(Open(), before);
      && s.inflight == |s.producers|
      && (s.phase.Drained? ==> Idle(s) && Idle(Run(s, after)))
  {
    RunKeeps(Open(), before);
    RunKeeps(Run(Open(), before), after);
  }
}
