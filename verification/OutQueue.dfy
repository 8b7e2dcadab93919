/**
 The classes Waiter and OutQueue of native-plugin/src/out_queue.cpp, every method proved against the state machine of
 OutQueueModel. Each method holds the mutex throughout, so each is one step.
 */
module OutQueue {
  import opened Bytes
  import opened Options
  import opened OutQueueModel

  class Waiter {
    var result: WaitReason

    constructor ()
      ensures result == NoReason
    {
      result := NoReason;
    }

    /** Only the first reason counts. */
    method Complete(reason: WaitReason) returns (first: bool)
      modifies this
      ensures first <==> old(result) == NoReason
      ensures result == if first then reason else old(result)
    {
      if result != NoReason {
        return false;
      }
      result := reason;
      return true;
    }

    function Done(): bool
      reads this
    {
      result != NoReason
    }
  }

  class OutQueue {
    var commands: map<Command, CommandState<Waiter>>
    var scheduledControls: seq<Command>
    var audioQueue: seq<seq<byte>>
    const audioCapacity: nat
    var droppedAudio: nat
    var accepting: bool
    /** Every waiter made so far, with what it was made for. */
    ghost var waiters: map<Waiter, Ticket>

    ghost function View(): State<Waiter>
      reads this
    {
      State(commands, scheduledControls, audioQueue, audioCapacity, droppedAudio, accepting, waiters)
    }

    /** The record of the waiters agrees with the waiters themselves. */
    ghost predicate InSync()
      reads this, waiters.Keys
    {
      forall w :: w in waiters ==> w.result == waiters[w].result
    }

    ghost predicate Valid()
      reads this, waiters.Keys
    {
      InSync() && View().Invariant()
    }

    constructor (audioCapacity: nat)
      ensures Valid() && View() == Empty(audioCapacity)
    {
      commands, scheduledControls, audioQueue := map[], [], [];
      this.audioCapacity := audioCapacity;
      droppedAudio, accepting, waiters := 0, true, map[];
    }

    function At(c: Command): CommandState<Waiter>
      reads this
    {
      if c in commands then commands[c] else CommandState(None, None, false)
    }

    method CancelWaiter(held: Option<Held<Waiter>>, reason: WaitReason)
      requires InSync() && (held.Some? ==> held.value.waiter in waiters)
      modifies this`waiters, waiters.Keys
      ensures InSync() && View() == old(View()).Completing(held, reason)
      ensures waiters.Keys == old(waiters.Keys)
    {
      if held.Some? {
        var _ := held.value.waiter.Complete(reason);
        waiters := waiters[held.value.waiter := waiters[held.value.waiter].Completed(reason)];
      }
    }

    method CompleteQueued(c: Command, reason: WaitReason)
      requires InSync() && (At(c).queued.Some? ==> At(c).queued.value.waiter in waiters)
      modifies this`waiters, this`commands, waiters.Keys
      ensures InSync() && View() == FinishQueued(old(View()), c, reason)
      ensures waiters.Keys == old(waiters.Keys)
    {
      CancelWaiter(At(c).queued, reason);
      commands := commands[c := At(c).(queued := None)];
    }

    method CompleteInFlight(c: Command, reason: WaitReason)
      requires InSync() && (At(c).inFlight.Some? ==> At(c).inFlight.value.waiter in waiters)
      modifies this`waiters, this`commands, waiters.Keys
      ensures InSync() && View() == FinishInFlight(old(View()), c, reason)
      ensures waiters.Keys == old(waiters.Keys)
    {
      CancelWaiter(At(c).inFlight, reason);
      commands := commands[c := At(c).(inFlight := None)];
    }

    method PushSchedule(c: Command)
      requires InSync()
      modifies this`commands, this`scheduledControls
      ensures InSync() && View() == Reschedule(old(View()), c)
    {
      scheduledControls := scheduledControls + [c];
      commands := commands[c := At(c).(inSchedule := true)];
    }

    /** What enqueue_control does to an accepting queue. */
    method Take(waiter: Waiter, c: Command, seqNo: nat, payload: seq<byte>)
      requires InSync() && accepting && waiter.result == NoReason && waiter !in waiters
      requires At(c).queued.Some? ==> At(c).queued.value.waiter in waiters
      modifies this`commands, this`scheduledControls, this`waiters, waiters.Keys
      ensures InSync() && waiters.Keys == old(waiters.Keys) + {waiter}
      ensures View() == OutQueueModel.EnqueueControl(old(View()), waiter, c, seqNo, payload)
    {
      var schedule := !At(c).inSchedule && At(c).inFlight.None?;
      CompleteQueued(c, Superseded);
      commands := commands[c := At(c).(queued := Some(Held(waiter, seqNo, payload)))];
      waiters := waiters[waiter := Ticket(c, NoReason)];
      if schedule {
        PushSchedule(c);
      }
    }

    method EnqueueControl(command: Command, seqNo: nat, payload: seq<byte>) returns (waiter: Waiter)
      requires Valid()
      modifies this, waiters.Keys
      ensures fresh(waiter) && Valid() && waiters.Keys == old(waiters.Keys) + {waiter}
      ensures View() == OutQueueModel.EnqueueControl(old(View()), waiter, command, seqNo, payload)
    {
      waiter := new Waiter();
      assert waiter !in waiters;
      EnqueueKeeps(View(), waiter, command, seqNo, payload);
      if !accepting {
        var _ := waiter.Complete(NoSession);
        waiters := waiters[waiter := Ticket(command, NoSession)];
      } else {
        assert View().SlotsOf(command);
        Take(waiter, command, seqNo, payload);
      }
    }

    method EnqueueHeartbeat(payload: seq<byte>) returns (waiter: Waiter)
      requires Valid()
      modifies this, waiters.Keys
      ensures fresh(waiter) && Valid() && waiters.Keys == old(waiters.Keys) + {waiter}
      ensures View() == OutQueueModel.EnqueueControl(old(View()), waiter, Heartbeat, 0, payload)
    {
      waiter := EnqueueControl(Heartbeat, 0, payload);
    }

    /** With a capacity of 0 the program would pop from an empty queue. */
    method EnqueueAudio(payload: seq<byte>)
      requires Valid() && audioCapacity > 0
      modifies this
      ensures Valid() && waiters == old(waiters)
      ensures View() == OutQueueModel.EnqueueAudio(old(View()), payload)
    {
      AudioKeeps(View(), payload);
      if |audioQueue| >= audioCapacity {
        audioQueue := audioQueue[1..];
        droppedAudio := droppedAudio + 1;
      }
      audioQueue := audioQueue + [payload];
    }

    method RemoveStaleControls()
      modifies this`commands, this`scheduledControls
      ensures View() == RemoveStale(old(View()))
    {
      while scheduledControls != []
        invariant RemoveStale(View()) == RemoveStale(old(View()))
        decreases |scheduledControls|
      {
        var c := scheduledControls[0];
        if At(c).queued.None? {
          scheduledControls := scheduledControls[1..];
          commands := commands[c := At(c).(inSchedule := false)];
          continue;
        }
        break;
      }
    }

    method PopNext() returns (frame: Option<OutFrame<Waiter>>)
      requires Valid()
      modifies this
      ensures Valid() && waiters == old(waiters)
      ensures (View(), frame) == OutQueueModel.PopNext(old(View()))
    {
      PopKeeps(View());
      RemoveStaleControls();
      if scheduledControls != [] {
        var c := scheduledControls[0];
        scheduledControls := scheduledControls[1..];
        ghost var before := commands;
        commands := commands[c := At(c).(inSchedule := false)];
        if At(c).queued.Some? {
          var held := At(c).queued.value;
          commands := commands[c := CommandState(if ExpectsReply(c) then Some(held) else None, None, false)];
          assert commands == before[c := At(c)];
          return Some(ControlFrame(c, held));
        }
      }
      if audioQueue != [] {
        var payload := audioQueue[0];
        audioQueue := audioQueue[1..];
        return Some(AudioFrame(payload));
      }
      return None;
    }

    /** True exactly when the message in flight has this sequence number; then its waiter gets the reason. */
    method Notify(command: Command, seqNo: nat, reason: WaitReason) returns (matched: bool)
      requires Valid() && reason != NoReason
      modifies this, waiters.Keys
      ensures Valid() && waiters.Keys == old(waiters.Keys)
      ensures matched <==> Matches(old(View()), command, seqNo)
      ensures View() == OutQueueModel.Notify(old(View()), command, seqNo, reason)
    {
      NotifyKeeps(View(), command, seqNo, reason);
      var state := At(command);
      if state.inFlight.None? {
        return false;
      }
      if state.inFlight.value.seqNo != seqNo {
        return false;
      }
      assert View().SlotsOf(command);
      CompleteInFlight(command, reason);
      if state.queued.Some? && !state.inSchedule {
        PushSchedule(command);
      }
      return true;
    }

    method Timeout(command: Command, seqNo: nat) returns (matched: bool)
      requires Valid()
      modifies this, waiters.Keys
      ensures Valid() && waiters.Keys == old(waiters.Keys)
      ensures matched <==> Matches(old(View()), command, seqNo)
      ensures View() == OutQueueModel.Notify(old(View()), command, seqNo, OutQueueModel.Timeout)
    {
      matched := Notify(command, seqNo, OutQueueModel.Timeout);
    }

    method Cancel(command: Command, seqNo: nat) returns (matched: bool)
      requires Valid()
      modifies this, waiters.Keys
      ensures Valid() && waiters.Keys == old(waiters.Keys)
      ensures matched <==> Matches(old(View()), command, seqNo)
      ensures View() == OutQueueModel.Notify(old(View()), command, seqNo, Cancelled)
    {
      matched := Notify(command, seqNo, Cancelled);
    }

    method DropCommand(c: Command)
      requires InSync()
      requires At(c).inFlight.Some? ==> At(c).inFlight.value.waiter in waiters
      requires At(c).queued.Some? ==> At(c).queued.value.waiter in waiters
      modifies this`waiters, this`commands, waiters.Keys
      ensures InSync() && View() == Drop(old(View()), c) && waiters.Keys == old(waiters.Keys)
    {
      CompleteInFlight(c, Cancelled);
      CompleteQueued(c, NoSession);
      commands := commands[c := At(c).(inSchedule := false)];
    }

    method DropCommands()
      requires InSync() && View().WaiterInvariant()
      modifies this`waiters, this`commands, waiters.Keys
      ensures InSync() && View() == DropAll(old(View()), COMMANDS) && waiters.Keys == old(waiters.Keys)
    {
      for i := 0 to |COMMANDS|
        invariant InSync() && View().WaiterInvariant() && waiters.Keys == old(waiters.Keys)
        invariant DropAll(View(), COMMANDS[i..]) == DropAll(old(View()), COMMANDS)
      {
        assert COMMANDS[i..][1..] == COMMANDS[i + 1..];
        DropKeepsWaiters(View(), COMMANDS[i]);
        assert View().SlotsOf(COMMANDS[i]);
        DropCommand(COMMANDS[i]);
      }
    }

    method BeginTeardown()
      requires Valid()
      modifies this, waiters.Keys
      ensures Valid() && waiters.Keys == old(waiters.Keys)
      ensures View() == OutQueueModel.BeginTeardown(old(View()))
    {
      ghost var before := View();
      Close();
      DropCommands();
      scheduledControls := [];
      TeardownKeeps(before);
    }

    method Close()
      requires Valid()
      modifies this`accepting
      ensures InSync() && View().WaiterInvariant() && View() == old(View()).(accepting := false)
    {
      ClosedKeepsWaiters(View());
      accepting := false;
    }
  }
}
