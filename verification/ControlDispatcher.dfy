/**
 ControlDispatcher of src/obs_captions/ipc/control_dispatcher.py: one slot and one message in flight per
 command. Each method here is one section under the lock; what happens between them is in DispatchRuns.
 */
module ControlDispatcher {
  import opened Options
  import opened Sequences

  const START := 1
  const STOP := 2
  const FLUSH := 3
  const RECONFIGURE := 4

  predicate Known(command: nat) {
    START <= command <= RECONFIGURE
  }

  /** `id` numbers the messages in order of arrival; the program compares only sequence numbers. */
  datatype Queued = Queued(id: nat, command: nat, seqNo: nat, arg: string)

  datatype Code = Ok | EngineInitFail | RuntimeError | ConfigError | Cancelled | NoSession | FlushDone

  /** A STATUS or FLUSH_DONE about one message. */
  datatype Reply = Reply(id: nat, seqNo: nat, code: Code)

  function ReplyTo(q: Queued, code: Code): Reply {
    Reply(q.id, q.seqNo, code)
  }

  /** What enqueue does with a message. */
  datatype Verdict = UnknownCommand | NoContext | Acknowledged | Superseded | Stored(prior: Option<Queued>)

  datatype Dispatcher = Dispatcher(slots: map<nat, Option<Queued>>, inflight: map<nat, Option<nat>>,
                                   lastSeq: map<nat, int>) {
    function Slot(c: nat): Option<Queued> {
      if c in slots then slots[c] else None
    }

    function InFlight(c: nat): Option<nat> {
      if c in inflight then inflight[c] else None
    }

    function LastSeq(c: nat): int {
      if c in lastSeq then lastSeq[c] else -1
    }

    /** The branches of enqueue, in its order. */
    function Judge(q: Queued, hasContext: bool): Verdict {
      if !Known(q.command) then UnknownCommand
      else if !hasContext then NoContext
      else if InFlight(q.command).Some? then
        if InFlight(q.command).value == q.seqNo then Acknowledged else Superseded
      else if q.seqNo == LastSeq(q.command) then Acknowledged
      else if q.seqNo < LastSeq(q.command) then Superseded
      else Stored(Slot(q.command))
    }

    function Enqueue(q: Queued, hasContext: bool): Dispatcher {
      if Judge(q, hasContext).Stored? then this.(slots := slots[q.command := Some(q)]) else this
    }

    /** The section that takes a message out of its slot and marks it in flight. */
    function Take(c: nat): (Dispatcher, Option<Queued>) {
      if InFlight(c).Some? || Slot(c).None? then
        (this, None)
      else
        (this.(slots := slots[c := None], inflight := inflight[c := Some(Slot(c).value.seqNo)]), Slot(c))
    }

    function PutBack(q: Queued, c: nat): Dispatcher {
      this.(slots := slots[c := Some(q)], inflight := inflight[c := None])
    }

    function Release(c: nat): Dispatcher {
      this.(inflight := inflight[c := None])
    }

    function Finish(q: Queued, c: nat): Dispatcher {
      this.(lastSeq := lastSeq[c := q.seqNo], inflight := inflight[c := None])
    }

    /** clear_pending for one command. */
    function Clear(c: nat): (Dispatcher, Option<Queued>) {
      (this.(slots := slots[c := None], inflight := inflight[c := None]), Slot(c))
    }
  }

  /** The replies of enqueue, with the message that was in the slot answered too. */
  function EnqueueReplies(q: Queued, verdict: Verdict): seq<Reply> {
    match verdict
    case UnknownCommand => [ReplyTo(q, RuntimeError)]
    case NoContext => [ReplyTo(q, NoSession)]
    case Acknowledged => [ReplyTo(q, Ok)]
    case Superseded => [ReplyTo(q, Cancelled)]
    case Stored(prior) => if prior.Some? then [ReplyTo(prior.value, Cancelled)] else []
  }

  function New(): Dispatcher {
    Dispatcher(map[START := None, STOP := None, FLUSH := None, RECONFIGURE := None],
               map[START := None, STOP := None, FLUSH := None, RECONFIGURE := None],
               map[START := -1, STOP := -1, FLUSH := -1, RECONFIGURE := -1])
  }

  /** The reply that clear_pending owes for one command. */
  function CancelReply(d: Dispatcher, c: nat): seq<Reply> {
    if d.Slot(c).Some? then [ReplyTo(d.Slot(c).value, Cancelled)] else []
  }

  /**
   clear_pending over the commands from c on, when nothing comes between. The measure names a field of the state so that
   the verifier does not unfold a literal command by itself.
   */
  function ClearFrom(d: Dispatcher, c: nat): (Dispatcher, seq<Reply>)
    decreases RECONFIGURE + 1 - c, |d.slots|
  {
    if !Known(c) then
      (d, [])
    else
      var (rest, replies) := ClearFrom(d.Clear(c).0, c + 1);
      (rest, CancelReply(d, c) + replies)
  }

  class ControlDispatcher {
    var slots: map<nat, Option<Queued>>
    var inflight: map<nat, Option<nat>>
    var lastSeq: map<nat, int>
    /** What the enqueue_status callback was given. */
    var replies: seq<Reply>

    ghost function View(): Dispatcher
      reads this
    {
      Dispatcher(slots, inflight, lastSeq)
    }

    ghost predicate Valid()
      reads this
    {
      forall c :: Known(c) ==> c in slots && c in inflight && c in lastSeq
    }

    constructor ()
      ensures Valid() && View() == New() && replies == []
    {
      slots := map[START := None, STOP := None, FLUSH := None, RECONFIGURE := None];
      inflight := map[START := None, STOP := None, FLUSH := None, RECONFIGURE := None];
      lastSeq := map[START := -1, STOP := -1, FLUSH := -1, RECONFIGURE := -1];
      replies := [];
    }

    method Send(r: Reply)
      modifies this`replies
      ensures replies == old(replies) + [r]
    {
      replies := replies + [r];
    }

    method Enqueue(q: Queued, hasContext: bool)
      requires Valid()
      modifies this`slots, this`replies
      ensures Valid() && View() == old(View()).Enqueue(q, hasContext)
      ensures replies == old(replies) + EnqueueReplies(q, old(View()).Judge(q, hasContext))
    {
      if !Known(q.command) {
        Send(ReplyTo(q, RuntimeError));
        return;
      }
      if !hasContext {
        Send(ReplyTo(q, NoSession));
        return;
      }
      if inflight[q.command].Some? {
        if inflight[q.command].value == q.seqNo {
          Send(ReplyTo(q, Ok));
          return;
        }
        Send(ReplyTo(q, Cancelled));
        return;
      }
      var last := lastSeq[q.command];
      if q.seqNo == last {
        Send(ReplyTo(q, Ok));
        return;
      }
      if q.seqNo < last {
        Send(ReplyTo(q, Cancelled));
        return;
      }
      var prior := slots[q.command];
      if prior.Some? {
        Send(ReplyTo(prior.value, Cancelled));
      }
      slots := slots[q.command := Some(q)];
    }

    method Take(c: nat) returns (control: Option<Queued>)
      requires Valid() && Known(c)
      modifies this`slots, this`inflight
      ensures Valid() && (View(), control) == old(View()).Take(c)
    {
      if inflight[c].Some? {
        return None;
      }
      control := slots[c];
      if control.None? {
        return;
      }
      slots := slots[c := None];
      inflight := inflight[c := Some(control.value.seqNo)];
    }

    method PutBack(q: Queued, c: nat)
      requires Valid() && Known(c)
      modifies this`slots, this`inflight
      ensures Valid() && View() == old(View()).PutBack(q, c)
    {
      slots := slots[c := Some(q)];
      inflight := inflight[c := None];
    }

    method Release(c: nat)
      requires Valid() && Known(c)
      modifies this`inflight
      ensures Valid() && View() == old(View()).Release(c)
    {
      inflight := inflight[c := None];
    }

    method Finish(q: Queued, c: nat)
      requires Valid() && Known(c)
      modifies this`lastSeq, this`inflight
      ensures Valid() && View() == old(View()).Finish(q, c)
    {
      lastSeq := lastSeq[c := q.seqNo];
      inflight := inflight[c := None];
    }

    method ClearOne(c: nat)
      requires Valid() && Known(c)
      modifies this`slots, this`inflight, this`replies
      ensures Valid() && View() == old(View()).Clear(c).0
      ensures replies == old(replies) + CancelReply(old(View()), c)
    {
      var pending := slots[c];
      slots := slots[c := None];
      inflight := inflight[c := None];
      if pending.Some? {
        Send(ReplyTo(pending.value, Cancelled));
      }
    }

    method ClearPending()
      requires Valid()
      modifies this`slots, this`inflight, this`replies
      ensures Valid()
      ensures (View(), replies) == (ClearFrom(old(View()), START).0, old(replies) + ClearFrom(old(View()), START).1)
    {
      var c := START;
      while c <= RECONFIGURE
        invariant START <= c <= RECONFIGURE + 1 && Valid()
        invariant ClearFrom(View(), c).0 == ClearFrom(old(View()), START).0
        invariant replies + ClearFrom(View(), c).1 == old(replies) + ClearFrom(old(View()), START).1
      {
        ghost var before := View();
        ghost var sent := replies;
        ClearOne(c);
        ConcatAssociates(sent, CancelReply(before, c), ClearFrom(View(), c + 1).1);
        c := c + 1;
      }
      assert replies + [] == replies;
    }

    method HasPending() returns (pending: bool)
      requires Valid()
      ensures pending <==> exists c :: Known(c) && (View().Slot(c).Some? || View().InFlight(c).Some?)
    {
      var c := START;
      while c <= RECONFIGURE
        invariant START <= c <= RECONFIGURE + 1
        invariant forall d: nat :: Known(d) && d < c ==> View().Slot(d).None? && View().InFlight(d).None?
      {
        if slots[c].Some? || inflight[c].Some? {
          assert Known(c) && (View().Slot(c).Some? || View().InFlight(c).Some?);
          return true;
        }
        c := c + 1;
      }
      return false;
    }
  }
}
