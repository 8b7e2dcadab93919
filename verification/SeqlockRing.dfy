/**
 SeqlockRing of native-plugin/src/ring.hpp with push and pop not overlapping: an array ring that
 refines a bounded queue evicting its oldest element, with exact drop accounting.
 */
module SeqlockRing {
  import opened Bytes
  import opened Options
  import opened RingSlots
  import opened Sequences

  /** A ring value: a sequence number, its bitwise complement as a marker, and the rest. */
  datatype Frame<T> = Frame(seqNo: nat, marker: int, body: T) {
    predicate IsConsistent() {
      marker == U64_LIMIT - 1 - seqNo
    }
  }

  function Min(a: int, b: int): int {
    if a < b then a else b
  }

  /** What pop may return after `last`: a consistent frame with a larger sequence number. */
  predicate Deliverable<T>(f: Frame<T>, last: Option<nat>) {
    f.IsConsistent() && (last.Some? ==> last.value < f.seqNo)
  }

  /** How many frames pop skips at the front of the queue. */
  function Skipped<T>(queue: seq<Frame<T>>, last: Option<nat>): (n: nat)
    ensures n <= |queue|
    ensures forall i :: 0 <= i < n ==> !Deliverable(queue[i], last)
    ensures n < |queue| ==> Deliverable(queue[n], last)
  {
    if queue == [] || Deliverable(queue[0], last) then 0 else 1 + Skipped(queue[1..], last)
  }

  datatype Turn<T> = Empty | Again | Taken(frame: Frame<T>)

  /** The slot of frame i holds it, for every frame from `oldest` on. */
  ghost predicate Holds<T>(slots: seq<Frame<T>>, history: seq<Frame<T>>, oldest: nat) {
    |slots| > 0 && forall i {:trigger SlotOf(i, |slots|)} ::
      oldest <= i < |history| ==> slots[SlotOf(i, |slots|)] == history[i]
  }

  /** A push overwrites the slot of frame |history| - capacity and no other that is still wanted. */
  lemma HoldsAfterPush<T>(slots: seq<Frame<T>>, history: seq<Frame<T>>, oldest: nat, value: Frame<T>, later: nat)
    requires Holds(slots, history, oldest)
    requires oldest <= later && |history| < later + |slots|
    ensures Holds(slots[SlotOf(|history|, |slots|) := value], history + [value], later)
  {
    var grown := history + [value];
    var written := slots[SlotOf(|history|, |slots|) := value];
    forall i {:trigger SlotOf(i, |written|)} | later <= i < |grown|
      ensures written[SlotOf(i, |written|)] == grown[i]
    {
      if i < |history| {
        SlotsDiffer(i, |history|, |slots|);
        assert grown[i] == history[i];
      }
    }
  }

  lemma QueueGrows<T>(history: seq<Frame<T>>, oldest: nat, later: nat, value: Frame<T>)
    requires oldest <= later <= |history| && later <= oldest + 1
    ensures (history + [value])[later..]
      == (if later == oldest then history[oldest..] else history[oldest..][1..]) + [value]
  {
  }

  /** fetch_add(1) on a 32-bit version. */
  function Bump(version: nat): nat {
    (version + 1) % U32_LIMIT
  }

  predicate AtRest(versions: seq<nat>) {
    forall j :: 0 <= j < |versions| ==> versions[j] < U32_LIMIT && versions[j] % 2 == 0
  }

  /** Frames as push_audio makes them: right markers and increasing sequence numbers. */
  ghost predicate Orderly<T>(frames: seq<Frame<T>>) {
    && (forall i, j :: 0 <= i < j < |frames| ==> frames[i].seqNo < frames[j].seqNo)
    && (forall i :: 0 <= i < |frames| ==> frames[i].IsConsistent())
  }

  /** The frames pop can still see, the number of the last one returned, and how many were dropped. */
  datatype Content<T> = Content(queue: seq<Frame<T>>, last: Option<nat>, dropped: nat)

  function Pushed<T>(c: Content<T>, capacity: nat, f: Frame<T>): Content<T> {
    if c.queue != [] && |c.queue| >= capacity then c.(queue := c.queue[1..] + [f], dropped := c.dropped + 1)
    else c.(queue := c.queue + [f])
  }

  function Popped<T>(c: Content<T>): (Content<T>, Option<Frame<T>>) {
    var n := Skipped(c.queue, c.last);
    if n < |c.queue| then (Content(c.queue[n + 1..], Some(c.queue[n].seqNo), c.dropped + n), Some(c.queue[n]))
    else (Content([], c.last, c.dropped + n), None)
  }

  /** A frame skipped is counted, and the rest goes on as before. */
  lemma SkipFront<T>(c: Content<T>)
    requires c.queue != [] && !Deliverable(c.queue[0], c.last)
    ensures Popped(Content(c.queue[1..], c.last, c.dropped + 1)) == Popped(c)
  {
    var n := Skipped(c.queue[1..], c.last);
    assert c.queue[1..][n..] == c.queue[n + 1..];
    if n < |c.queue| - 1 {
      assert c.queue[1..][n + 1..] == c.queue[n + 2..];
    }
  }

  /** A turn that ends in no frame leaves what pop will return. */
  lemma TurnKeeps<T>(before: Content<T>, after: Content<T>, turn: Turn<T>)
    requires turn.Empty? ==> before.queue == [] && after == before
    requires turn.Again? ==>
      after == before
        || (before.queue != [] && !Deliverable(before.queue[0], before.last)
             && after == Content(before.queue[1..], before.last, before.dropped + 1))
    requires turn.Taken? ==>
      before.queue != [] && Deliverable(before.queue[0], before.last) && turn.frame == before.queue[0]
                             && after == Content(before.queue[1..], Some(turn.frame.seqNo), before.dropped)
    ensures Popped(before) ==
      match turn case Again => Popped(after) case Empty => (after, None) case Taken(f) => (after, Some(f))
  {
    if turn.Again? && after != before {
      SkipFront(before);
    }
  }

  /** Pop skips nothing when the last frame returned came before all that are left. */
  lemma NothingSkipped<T>(history: seq<Frame<T>>, oldest: nat, last: Option<nat>, lastIndex: nat)
    requires Orderly(history) && oldest <= |history|
    requires last.Some? ==> lastIndex < oldest && history[lastIndex].seqNo == last.value
    ensures Skipped(history[oldest..], last) == 0
  {
  }

  lemma FrontFirst<T>(history: seq<Frame<T>>, oldest: nat, last: Option<nat>, lastIndex: nat, dropped: nat)
    requires oldest <= |history|
    requires last.Some? ==> lastIndex < oldest && history[lastIndex].seqNo == last.value
    ensures Orderly(history) ==>
              var queue := history[oldest..];
              Popped(Content(queue, last, dropped)) ==
              if queue == [] then (Content([], last, dropped), None)
              else (Content(queue[1..], Some(queue[0].seqNo), dropped), Some(queue[0]))
  {
    if Orderly(history) {
      NothingSkipped(history, oldest, last, lastIndex);
    }
  }

  class SeqlockRing<T(0)> {
    const capacity: nat
    const versions: array<nat>
    const values: array<Frame<T>>
    var head: nat
    var tail: nat
    var droppedFrames: nat
    var lastPoppedSeq: Option<nat>
    /** Every frame pushed so far, and how many pop has returned. */
    ghost var history: seq<Frame<T>>
    ghost var popped: nat
    /** The index of the last frame returned. */
    ghost var lastIndex: nat

    ghost predicate Valid()
      reads this, versions, values
    {
      && capacity > 0
      && versions.Length == capacity && values.Length == capacity
      && head <= tail == |history|
      && AtRest(versions[..])
      && Holds(values[..], history, Oldest())
      && tail == popped + droppedFrames + Min(tail - head, capacity)
      && (lastPoppedSeq.Some? ==> lastIndex < Oldest() && history[lastIndex].seqNo == lastPoppedSeq.value)
    }

    /** The index of the oldest frame not lost yet. */
    function Oldest(): (i: nat)
      reads this
    {
      if tail - head > capacity then tail - capacity else head
    }

    /** The frames pop can still see, oldest first. */
    ghost function Queue(): (q: seq<Frame<T>>)
      reads this, versions, values
      requires Valid()
      ensures |q| == Min(tail - head, capacity)
    {
      history[Oldest()..]
    }

    ghost function View(): Content<T>
      reads this, versions, values
      requires Valid()
    {
      Content(Queue(), lastPoppedSeq, droppedFrames)
    }

    /** The constructor refuses a zero capacity. */
    static method Create(capacity: nat) returns (ring: Option<SeqlockRing<T>>)
      ensures ring.Some? <==> capacity > 0
      ensures ring.Some? ==>
        fresh(ring.value) && ring.value.Valid() && ring.value.Queue() == [] && ring.value.capacity == capacity
    {
      if capacity == 0 {
        return None;
      }
      var made := new SeqlockRing<T>(capacity);
      return Some(made);
    }

    constructor (capacity: nat)
      requires capacity > 0
      ensures Valid() && Queue() == [] && this.capacity == capacity
      ensures tail == 0 && popped == 0 && droppedFrames == 0 && lastPoppedSeq == None
      ensures fresh(versions) && fresh(values)
    {
      this.capacity := capacity;
      versions := new nat[capacity](_ => 0);
      values := new Frame<T>[capacity];
      head, tail, droppedFrames, lastPoppedSeq, popped, lastIndex, history := 0, 0, 0, None, 0, 0, [];
    }

    /** The two version bumps around the write. */
    method WriteSlot(slot: nat, value: Frame<T>)
      requires slot < versions.Length == values.Length && AtRest(versions[..])
      modifies versions, values
      ensures AtRest(versions[..])
      ensures values[..] == old(values[..])[slot := value]
    {
      versions[slot] := Bump(versions[slot]);
      values[slot] := value;
      versions[slot] := Bump(versions[slot]);
      assert versions[..] == old(versions[..])[slot := Bump(Bump(old(versions[..])[slot]))];
    }

    /** The body of push. */
    method Store(value: Frame<T>) returns (droppedOldest: bool)
      requires Valid()
      modifies this`tail, this`droppedFrames, this`history, versions, values
      ensures Valid()
      ensures droppedOldest <==> |old(Queue())| == capacity
      ensures Queue() == (if droppedOldest then old(Queue())[1..] else old(Queue())) + [value]
      ensures droppedFrames == old(droppedFrames) + (if droppedOldest then 1 else 0)
      ensures history == old(history) + [value]
    {
      var slot := SlotOf(tail, capacity);
      ghost var later := if tail + 1 - head > capacity then tail + 1 - capacity else head;
      HoldsAfterPush(values[..], history, Oldest(), value, later);
      QueueGrows(history, Oldest(), later, value);
      WriteSlot(slot, value);
      var nextTail := tail + 1;
      tail := nextTail;
      history := history + [value];
      assert Holds(values[..], history, Oldest());
      droppedOldest := false;
      if nextTail > head + capacity {
        droppedFrames := droppedFrames + 1;
        droppedOldest := true;
      }
    }

    /** push: never refuses; the oldest frame goes exactly when the ring is full. */
    method Push(value: Frame<T>) returns (droppedOldest: bool)
      requires Valid()
      modifies this`tail, this`droppedFrames, this`history, versions, values
      ensures Valid() && history == old(history) + [value]
      ensures droppedOldest <==> |old(Queue())| == capacity
      ensures View() == Pushed(old(View()), capacity, value)
    {
      droppedOldest := Store(value);
    }

    /** The copy between two loads of the version; nothing is torn when no push overlaps. */
    method CopyOldest() returns (torn: bool, copied: Frame<T>)
      requires Valid() && head < tail <= head + capacity
      ensures !torn && copied == Queue()[0]
    {
      var slot := SlotOf(head, capacity);
      var before := versions[slot];
      copied := values[slot];
      var after := versions[slot];
      assert AtRest(versions[..]) && versions[..][slot] == before;
      assert values[..][slot] == history[head];
      torn := before % 2 != 0 || before != after;
    }

    /** The frames stepped over here were counted as dropped by push. */
    method CatchUp()
      requires Valid() && tail - head > capacity
      modifies this`head
      ensures Valid() && Queue() == old(Queue()) && tail - head == capacity
    {
      var distance := tail - head;
      var catchUp := distance - capacity;
      head := head + catchUp;
    }

    method SkipOldest()
      requires Valid() && head < tail <= head + capacity
      modifies this`head, this`droppedFrames
      ensures Valid() && tail - head == old(tail - head) - 1
      ensures Queue() == old(Queue())[1..] && droppedFrames == old(droppedFrames) + 1
    {
      head := head + 1;
      droppedFrames := droppedFrames + 1;
    }

    /** The frame at the head is returned. */
    method StepOver(copied: Frame<T>)
      requires Valid() && head < tail <= head + capacity && copied == Queue()[0]
      modifies this`head, this`popped, this`lastPoppedSeq, this`lastIndex
      ensures Valid() && lastPoppedSeq == Some(copied.seqNo)
      ensures Queue() == old(Queue())[1..] && popped == old(popped) + 1
    {
      lastPoppedSeq := Some(copied.seqNo);
      lastIndex := head;
      head := head + 1;
      popped := popped + 1;
    }

    /** One turn of pop's loop. The four skipping branches act alike and are one here. */
    method Attempt() returns (turn: Turn<T>)
      requires Valid()
      modifies this`head, this`droppedFrames, this`lastPoppedSeq, this`popped, this`lastIndex
      ensures Valid() && (turn.Again? ==> tail - head < old(tail - head))
      ensures turn.Empty? ==> Queue() == old(Queue()) == []
      ensures turn.Again? ==>
        Queue() == old(Queue())
          || (old(Queue()) != [] && !Deliverable(old(Queue())[0], lastPoppedSeq) && Queue() == old(Queue())[1..])
      ensures turn.Taken? ==> old(Queue()) != [] && Queue() == old(Queue())[1..] && turn.frame == old(Queue())[0]
                              && Deliverable(turn.frame, old(lastPoppedSeq)) && lastPoppedSeq == Some(turn.frame.seqNo)
      ensures !turn.Taken? ==> lastPoppedSeq == old(lastPoppedSeq) && popped == old(popped)
      ensures turn.Taken? ==> popped == old(popped) + 1
      ensures droppedFrames + |Queue()| + popped == old(droppedFrames + |Queue()| + popped)
    {
      if head >= tail {
        return Empty;
      }
      if tail - head > capacity {
        CatchUp();
        return Again;
      }
      var torn, copied := CopyOldest();
      if torn || !Deliverable(copied, lastPoppedSeq) {
        SkipOldest();
        return Again;
      }
      StepOver(copied);
      return Taken(copied);
    }

    /** The same turn: it leaves what pop will return, or returns it. */
    method Turned() returns (turn: Turn<T>)
      requires Valid()
      modifies this`head, this`droppedFrames, this`lastPoppedSeq, this`popped, this`lastIndex
      ensures Valid() && (turn.Again? ==> tail - head < old(tail - head))
      ensures popped == old(popped) + (if turn.Taken? then 1 else 0)
      ensures Popped(old(View()))
        == (match turn case Again => Popped(View()) case Empty => (View(), None) case Taken(f) => (View(), Some(f)))
    {
      ghost var before := View();
      turn := Attempt();
      TurnKeeps(before, View(), turn);
    }

    /** The loop of pop. */
    method Fetch() returns (ok: bool, value: Option<Frame<T>>)
      requires Valid()
      modifies this`head, this`droppedFrames, this`lastPoppedSeq, this`popped, this`lastIndex
      ensures Valid() && ok == value.Some? && popped == old(popped) + (if ok then 1 else 0)
      ensures (View(), value) == Popped(old(View()))
    {
      while true
        invariant Valid() && popped == old(popped)
        invariant Popped(View()) == Popped(old(View()))
        decreases tail - head
      {
        var turn := Turned();
        if turn.Empty? {
          return false, None;
        }
        if turn.Taken? {
          return true, Some(turn.frame);
        }
      }
    }

    /**
     pop: skips what is torn, inconsistent or not newer than the last frame returned, each counted as dropped. With
     orderly frames that is nothing: it returns the front of the queue.
     */
    method Pop() returns (ok: bool, value: Option<Frame<T>>)
      requires Valid()
      modifies this`head, this`droppedFrames, this`lastPoppedSeq, this`popped, this`lastIndex
      ensures Valid() && ok == value.Some? && popped == old(popped) + (if ok then 1 else 0)
      ensures (View(), value) == Popped(old(View()))
      ensures Orderly(history) ==>
                && ok == (old(Queue()) != []) && droppedFrames == old(droppedFrames)
                && (ok ==> value == Some(old(Queue())[0]) && Queue() == old(Queue())[1..])
    {
      FrontFirst(history, Oldest(), lastPoppedSeq, lastIndex, droppedFrames);
      ok, value := Fetch();
    }
  }

  // Any sequence of pushes and pops.

  datatype Op<T> = Put(frame: Frame<T>) | Take

  /** The frames pushed. */
  function Puts<T>(ops: seq<Op<T>>): seq<Frame<T>> {
    if ops == [] then [] else (if ops[0].Put? then [ops[0].frame] else []) + Puts(ops[1..])
  }

  function ToSeq<T>(f: Option<Frame<T>>): seq<Frame<T>> {
    if f.Some? then [f.value] else []
  }

  /** The ring: what is left, and the frames popped. */
  function RunRing<T>(c: Content<T>, capacity: nat, ops: seq<Op<T>>): (Content<T>, seq<Frame<T>>)
    decreases ops
  {
    if ops == [] then (c, [])
    else
      match ops[0]
      case Put(f) => RunRing(Pushed(c, capacity, f), capacity, ops[1..])
      case Take =>
        var (taken, f) := Popped(c);
        var (rest, more) := RunRing(taken, capacity, ops[1..]);
        (rest, ToSeq(f) + more)
  }

  /**
   A bounded first-in first-out queue that evicts its oldest element: what is left, what left it, what was evicted.
   */
  function RunQueue<T>(queue: seq<Frame<T>>, capacity: nat, ops: seq<Op<T>>)
      : (seq<Frame<T>>, seq<Frame<T>>, seq<Frame<T>>)
    requires capacity > 0
    decreases ops
  {
    if ops == [] then (queue, [], [])
    else if ops[0].Put? && |queue| < capacity then
      RunQueue(queue + [ops[0].frame], capacity, ops[1..])
    else if ops[0].Put? then
      var (rest, more, evicted) := RunQueue(queue[1..] + [ops[0].frame], capacity, ops[1..]);
      (rest, more, [queue[0]] + evicted)
    else if queue == [] then
      RunQueue(queue, capacity, ops[1..])
    else
      var (rest, more, evicted) := RunQueue(queue[1..], capacity, ops[1..]);
      (rest, [queue[0]] + more, evicted)
  }

  /** Each frame pushed is popped, left or evicted, once, and each of these in the order of the pushes. */
  lemma {:induction false} QueueConserves<T>(queue: seq<Frame<T>>, capacity: nat, ops: seq<Op<T>>)
    requires capacity > 0
    ensures var (rest, popped, evicted) := RunQueue(queue, capacity, ops);
      Shuffles(popped + rest, evicted, queue + Puts(ops))
    decreases ops
  {
    if ops == [] {
      assert queue + [] == queue && [] + queue == queue;
      ShufflesNone(queue);
    } else {
      var later := Puts(ops[1..]);
      match ops[0]
      case Put(f) =>
        if |queue| < capacity {
          QueueConserves(queue + [f], capacity, ops[1..]);
          ConcatAssociates(queue, [f], later);
        } else {
          var (rest, popped, evicted) := RunQueue(queue[1..] + [f], capacity, ops[1..]);
          QueueConserves(queue[1..] + [f], capacity, ops[1..]);
          ShufflesEvicted(queue, f, popped + rest, evicted, later);
        }
      case Take =>
        assert Puts(ops) == later;
        if queue == [] {
          QueueConserves(queue, capacity, ops[1..]);
        } else {
          var (rest, popped, evicted) := RunQueue(queue[1..], capacity, ops[1..]);
          QueueConserves(queue[1..], capacity, ops[1..]);
          ShufflesPopped(queue, popped, rest, evicted, later);
        }
    }
  }

  /** The frames held and those to come are orderly and newer than the last one returned. */
  ghost predicate Ready<T>(c: Content<T>, capacity: nat, puts: seq<Frame<T>>) {
    && |c.queue| <= capacity
    && Orderly(c.queue + puts)
    && (c.last.Some? ==> forall i :: 0 <= i < |c.queue + puts| ==> c.last.value < (c.queue + puts)[i].seqNo)
  }

  lemma PopReady<T>(c: Content<T>, capacity: nat, puts: seq<Frame<T>>)
    requires Ready(c, capacity, puts)
    ensures var (taken, f) := Popped(c);
      && Ready(taken, capacity, puts) && taken.dropped == c.dropped
      && taken.queue == (if c.queue == [] then [] else c.queue[1..])
      && f == (if c.queue == [] then None else Some(c.queue[0]))
  {
    if c.queue != [] {
      assert (c.queue + puts)[0] == c.queue[0];
      assert Deliverable(c.queue[0], c.last);
      assert (c.queue + puts)[1..] == c.queue[1..] + puts;
    }
  }

  lemma PushReady<T>(c: Content<T>, capacity: nat, f: Frame<T>, puts: seq<Frame<T>>)
    requires Ready(c, capacity, [f] + puts) && capacity > 0
    ensures Ready(Pushed(c, capacity, f), capacity, puts)
  {
    var all := c.queue + ([f] + puts);
    assert all == (c.queue + [f]) + puts;
    if c.queue != [] && |c.queue| >= capacity {
      assert all[1..] == (c.queue[1..] + [f]) + puts;
    }
  }

  /**
   With frames as push_audio makes them, any sequence of pushes and pops makes the ring a bounded queue: the same
   frames popped, the same frames left, and exactly the evicted ones counted as dropped.
   */
  lemma {:induction false} RingIsBoundedQueue<T>(c: Content<T>, capacity: nat, ops: seq<Op<T>>)
    requires capacity > 0 && Ready(c, capacity, Puts(ops))
    ensures var (rest, popped, evicted) := RunQueue(c.queue, capacity, ops);
      var (left, out) := RunRing(c, capacity, ops);
      left.queue == rest && out == popped && left.dropped == c.dropped + |evicted|
    decreases ops
  {
    if ops != [] {
      match ops[0]
      case Put(f) =>
        PushReady(c, capacity, f, Puts(ops[1..]));
        RingIsBoundedQueue(Pushed(c, capacity, f), capacity, ops[1..]);
      case Take =>
        assert Puts(ops) == Puts(ops[1..]);
        PopReady(c, capacity, Puts(ops));
        RingIsBoundedQueue(Popped(c).0, capacity, ops[1..]);
    }
  }

  /** From an empty ring. */
  lemma NewRingIsBoundedQueue<T>(capacity: nat, ops: seq<Op<T>>)
    requires capacity > 0 && Orderly(Puts(ops))
    ensures var (rest, popped, evicted) := RunQueue([], capacity, ops);
      var (left, out) := RunRing(Content([], None, 0), capacity, ops);
      left.queue == rest && out == popped && left.dropped == |evicted|
  {
    assert [] + Puts(ops) == Puts(ops);
    RingIsBoundedQueue(Content([], None, 0), capacity, ops);
  }
}
