/**
 The interleaved ring while only one thread is inside: a push or a pop that is not overlapped does what the bounded
 queue of SeqlockRing does, whatever happened before it.
 */
module SeqlockAlone {
  import opened Bytes
  import opened Options
  import opened RingSlots
  import opened SeqlockInterleaved
  import Ring = SeqlockRing

  // ---------- One thread's steps ----------

  function Repeat(a: Action, n: nat): seq<Action> {
    if n == 0 then [] else [a] + Repeat(a, n - 1)
  }

  /** Steps of one thread alone lead from s to t. */
  ghost predicate Reaches(s: State, a: Action, t: State)
    requires s.Invariant()
  {
    exists n: nat :: Run(s, Repeat(a, n)) == t
  }

  lemma ReachesItself(s: State, a: Action)
    requires s.Invariant()
    ensures Reaches(s, a, s)
  {
    assert Run(s, Repeat(a, 0)) == s;
  }

  lemma {:induction false} RunLast(s: State, a: Action, n: nat)
    requires s.Invariant() && Run(s, Repeat(a, n)).NoWrap()
    ensures Run(s, Repeat(a, n)).Invariant() && Run(s, Repeat(a, n + 1)) == Step(Run(s, Repeat(a, n)), a)
    decreases n
  {
    assert ([a] + Repeat(a, n))[1..] == Repeat(a, n);
    if n == 0 {
      assert Repeat(a, 1) == [a];
    } else {
      assert ([a] + Repeat(a, n - 1))[1..] == Repeat(a, n - 1);
      StepKeeps(s, a);
      RunLast(Step(s, a), a, n - 1);
    }
  }

  lemma ReachesNext(s: State, a: Action, t: State)
    requires s.Invariant() && Reaches(s, a, t) && t.NoWrap()
    ensures t.Invariant() && Reaches(s, a, Step(t, a))
  {
    var n: nat :| Run(s, Repeat(a, n)) == t;
    RunLast(s, a, n);
    assert Run(s, Repeat(a, n + 1)) == Step(t, a);
  }

  // ---------- As the bounded queue ----------

  /** The newest frame of a slot went there. */
  predicate Placed(s: State)
    requires s.Shaped()
  {
    forall j :: 0 <= j < |s.slots| && s.slots[j].last >= 0 ==>
      s.slots[j].last < |s.placed| && s.placed[s.slots[j].last] == j
  }

  lemma PushPlaced(s: State, frame: Frame)
    requires s.Shaped() && Placed(s)
    ensures BeginPushStep(s, frame).Shaped() && Placed(BeginPushStep(s, frame))
  {
    var t := BeginPushStep(s, frame);
    forall j | 0 <= j < |t.slots| && t.slots[j].last >= 0
      ensures t.slots[j].last < |t.placed| && t.placed[t.slots[j].last] == j
    {
      assert t.slots[j] == s.slots[j];
    }
  }

  lemma ProducerPlaced(s: State)
    requires s.Shaped() && s.WriterInvariant() && Placed(s)
    ensures var t := ProducerStep(s); t.Shaped() && Placed(t)
  {
    var t := ProducerStep(s);
    if s.writer.SecondBump? {
      assert s.placed[s.tail] == s.writer.slot;
    }
  }

  lemma ConsumerPlaced(s: State)
    requires s.Shaped() && s.ReaderInvariant() && Placed(s)
    ensures var t := ConsumerStep(s); t.Shaped() && Placed(t)
  {
    var t := ConsumerStep(s);
    assert t.slots == s.slots && t.placed == s.placed && t.pushes == s.pushes && t.width == s.width;
  }

  lemma PlacedStep(s: State, a: Action)
    requires s.Invariant() && Placed(s)
    ensures Step(s, a).Shaped() && Placed(Step(s, a))
  {
    match a
    case BeginPush(frame) => PushPlaced(s, frame);
    case Producer => ProducerPlaced(s);
    case BeginPop =>
    case Consumer => ConsumerPlaced(s);
  }

  lemma {:induction false} PlacedKeeps(s: State, actions: seq<Action>)
    requires s.Invariant() && Placed(s)
    ensures Run(s, actions).Invariant() && Placed(Run(s, actions))
    decreases actions
  {
    if actions != [] && s.NoWrap() {
      PlacedStep(s, actions[0]);
      StepKeeps(s, actions[0]);
      PlacedKeeps(Step(s, actions[0]), actions[1..]);
    }
  }

  lemma ReachedSound(s: State, a: Action, t: State)
    requires s.Invariant() && Placed(s) && Reaches(s, a, t)
    ensures t.Invariant() && Placed(t)
  {
    var n: nat :| Run(s, Repeat(a, n)) == t;
    PlacedKeeps(s, Repeat(a, n));
  }

  function RingFrame(f: Frame): Ring.Frame<seq<nat>> {
    Ring.Frame(f[0], f[1], f[2..])
  }

  function RingFrames(fs: seq<Frame>): (r: seq<Ring.Frame<seq<nat>>>)
    ensures |r| == |fs| && forall i :: 0 <= i < |fs| ==> r[i] == RingFrame(fs[i])
  {
    if fs == [] then [] else [RingFrame(fs[0])] + RingFrames(fs[1..])
  }

  predicate Sized(s: State) {
    s.head <= s.tail <= |s.pushes| && |s.slots| > 0 && s.width >= 2
  }

  function Oldest(s: State): (i: nat)
    requires Sized(s)
    ensures i <= s.tail
  {
    if s.tail - s.head > |s.slots| then s.tail - |s.slots| else s.head
  }

  /** The frames not lost yet, the number of the last one popped, and how many were dropped. */
  function ContentOf(s: State): Ring.Content<seq<nat>>
    requires Sized(s)
  {
    Ring.Content(RingFrames(s.pushes[Oldest(s)..s.tail]), Last(s.pops), s.dropped)
  }

  function Last(pops: seq<Taken>): Option<nat> {
    if pops == [] then None else Some(pops[|pops| - 1].frame[0])
  }

  /** Neither thread is inside. */
  predicate Idle(s: State) {
    s.Invariant() && Placed(s) && s.writer.Outside? && s.reader.Away?
  }

  // ---------- A pop alone: its steps ----------

  /** There is a frame at the head, and it was not overrun. */
  predicate Front(t: State) {
    Sized(t) && t.writer.Outside? && 0 < t.tail - t.head <= |t.slots|
  }

  function HeadSlot(t: State): nat
    requires Sized(t)
  {
    SlotOf(t.head, |t.slots|)
  }

  /** When nothing is being written the slot of the head holds the frame of the head. */
  lemma HeadIsThere(t: State)
    requires t.Invariant() && Placed(t) && Front(t)
    ensures var slot := t.slots[HeadSlot(t)];
      slot.bumps % 2 == 0 && slot.last == t.head && slot.words == t.pushes[t.head]
  {
    var j := HeadSlot(t);
    assert t.placed[t.head] == j;
    var last := t.slots[j].last;
    assert t.head <= last < t.tail && t.placed[last] == j;
    if last > t.head {
      SlotsDiffer(t.head, last, |t.slots|);
    }
  }

  lemma ReachedHead(s: State, t: State)
    requires s.Invariant() && Placed(s) && Reaches(s, Consumer, t) && Front(t)
    ensures var slot := t.slots[HeadSlot(t)];
      slot.bumps % 2 == 0 && slot.last == t.head && slot.words == t.pushes[t.head] && |slot.words| == t.width
  {
    ReachedSound(s, Consumer, t);
    HeadIsThere(t);
  }

  lemma LoadHeadAlone(s: State, t: State)
    requires s.Invariant() && Reaches(s, Consumer, t) && t.reader.LoadHeadFirst?
    ensures Reaches(s, Consumer, t.(reader := LoadTail(t.head)))
  {
    ReachesNext(s, Consumer, t);
  }

  lemma LoadTailAlone(s: State, t: State)
    requires s.Invariant() && Reaches(s, Consumer, t) && Sized(t) && t.reader == LoadTail(t.head)
    ensures Reaches(s, Consumer, t.(reader := if t.head >= t.tail then Away
                                              else if t.tail - t.head > |t.slots| then CatchUp(t.tail - t.head)
                                              else LoadBefore(HeadSlot(t))))
  {
    ReachesNext(s, Consumer, t);
  }

  lemma CatchingUpAlone(s: State, t: State)
    requires s.Invariant() && Reaches(s, Consumer, t) && t.tail - t.head > |t.slots|
    requires t.reader == CatchUp(t.tail - t.head)
    ensures Reaches(s, Consumer, t.(head := t.tail - |t.slots|, reader := LoadHeadFirst))
  {
    ReachesNext(s, Consumer, t);
  }

  lemma EvenVersion(bumps: nat)
    requires bumps % 2 == 0
    ensures bumps % U32_LIMIT % 2 == 0
  {
  }

  lemma LoadBeforeAlone(s: State, t: State)
    requires s.Invariant() && Reaches(s, Consumer, t) && t.reader.LoadBefore? && t.reader.slot < |t.slots|
    requires t.slots[t.reader.slot].bumps % 2 == 0
    ensures Reaches(s, Consumer, t.(reader := CopyWord(t.reader.slot, t.slots[t.reader.slot].bumps, [])))
  {
    EvenVersion(t.slots[t.reader.slot].bumps);
    ReachesNext(s, Consumer, t);
  }

  lemma OneCopyAlone(s: State, t: State)
    requires s.Invariant() && Reaches(s, Consumer, t) && t.reader.CopyWord? && t.reader.slot < |t.slots|
    requires |t.reader.sofar| < |t.slots[t.reader.slot].words| == t.width
    ensures var j, sofar := t.reader.slot, t.reader.sofar;
      var more := sofar + [t.slots[j].words[|sofar|]];
      Reaches(s, Consumer, t.(reader := if |more| < t.width then CopyWord(j, t.reader.bumps, more)
                                        else LoadAfter(j, t.reader.bumps, more)))
  {
    ReachesNext(s, Consumer, t);
  }

  /** While nobody writes the slot the copy is what is in it. */
  lemma {:induction false} CopyAlone(s: State, t: State)
    requires s.Invariant() && Reaches(s, Consumer, t) && t.reader.CopyWord? && t.reader.slot < |t.slots|
    requires var words := t.slots[t.reader.slot].words; var n := |t.reader.sofar|;
      n < |words| == t.width && t.reader.sofar == words[..n]
    ensures var words := t.slots[t.reader.slot].words;
      Reaches(s, Consumer, t.(reader := LoadAfter(t.reader.slot, t.reader.bumps, words)))
    decreases t.width - |t.reader.sofar|
  {
    var j, sofar := t.reader.slot, t.reader.sofar;
    var words := t.slots[j].words;
    var more := sofar + [words[|sofar|]];
    assert more == words[..|more|];
    OneCopyAlone(s, t);
    if |more| < t.width {
      CopyAlone(s, t.(reader := CopyWord(j, t.reader.bumps, more)));
    } else {
      assert words[..|more|] == words;
    }
  }

  /** The test after the second load, when nothing was torn. */
  lemma JudgeAlone(s: State, t: State)
    requires s.Invariant() && Reaches(s, Consumer, t) && t.reader.LoadAfter? && t.reader.slot < |t.slots|
    requires t.reader.bumps == t.slots[t.reader.slot].bumps && t.slots[t.reader.slot].last >= 0
    ensures Reaches(s, Consumer,
      t.(reader := if !Ring.Deliverable(RingFrame(t.reader.copied), Last(t.pops)) then SkipHead
                                              else Accept(t.slots[t.reader.slot].last, t.reader.copied)))
  {
    ReachesNext(s, Consumer, t);
  }

  lemma SkipHeadAlone(s: State, t: State)
    requires s.Invariant() && Reaches(s, Consumer, t) && t.reader.SkipHead?
    ensures Reaches(s, Consumer, t.(head := t.head + 1, reader := CountSkip))
  {
    ReachesNext(s, Consumer, t);
  }

  lemma CountSkipAlone(s: State, t: State)
    requires s.Invariant() && Reaches(s, Consumer, t) && t.reader.CountSkip?
    ensures Reaches(s, Consumer, t.(dropped := t.dropped + 1, reader := LoadHeadFirst))
  {
    ReachesNext(s, Consumer, t);
  }

  lemma AcceptAlone(s: State, t: State)
    requires s.Invariant() && Reaches(s, Consumer, t) && t.reader.Accept?
    ensures Reaches(s, Consumer, t.(head := t.head + 1, reader := Away,
                                    pops := t.pops + [Taken(t.reader.index, t.reader.copied)]))
  {
    ReachesNext(s, Consumer, t);
  }

  // ---------- A pop alone: its turns ----------

  lemma EmptyAlone(s: State, t: State)
    requires s.Invariant() && Reaches(s, Consumer, t) && Sized(t) && t.reader.LoadHeadFirst? && t.head >= t.tail
    ensures Reaches(s, Consumer, t.(reader := Away))
  {
    LoadHeadAlone(s, t);
    LoadTailAlone(s, t.(reader := LoadTail(t.head)));
  }

  lemma CatchUpAlone(s: State, t: State)
    requires s.Invariant() && Reaches(s, Consumer, t) && Sized(t) && t.reader.LoadHeadFirst?
    requires t.tail - t.head > |t.slots|
    ensures Reaches(s, Consumer, t.(head := t.tail - |t.slots|))
    ensures ContentOf(t.(head := t.tail - |t.slots|)) == ContentOf(t)
  {
    LoadHeadAlone(s, t);
    LoadTailAlone(s, t.(reader := LoadTail(t.head)));
    CatchingUpAlone(s, t.(reader := CatchUp(t.tail - t.head)));
  }

  /** From the first load of the version to the verdict, when the slot is at rest. */
  lemma ReadAlone(s: State, t: State)
    requires s.Invariant() && Reaches(s, Consumer, t) && t.reader.LoadBefore? && t.reader.slot < |t.slots|
    requires var slot := t.slots[t.reader.slot]; slot.bumps % 2 == 0 && |slot.words| == t.width >= 2 && slot.last >= 0
    ensures var slot := t.slots[t.reader.slot];
      Reaches(s, Consumer, t.(reader := if !Ring.Deliverable(RingFrame(slot.words), Last(t.pops)) then SkipHead
                                        else Accept(slot.last, slot.words)))
  {
    var j := t.reader.slot;
    LoadBeforeAlone(s, t);
    CopyAlone(s, t.(reader := CopyWord(j, t.slots[j].bumps, [])));
    JudgeAlone(s, t.(reader := LoadAfter(j, t.slots[j].bumps, t.slots[j].words)));
  }

  lemma FrontAlone(s: State, t: State)
    requires s.Invariant() && Placed(s) && Reaches(s, Consumer, t) && Front(t) && t.reader.LoadHeadFirst?
    ensures |t.pushes[t.head]| >= 2
    ensures Reaches(s, Consumer,
      t.(reader := if !Ring.Deliverable(RingFrame(t.pushes[t.head]), Last(t.pops)) then SkipHead
                                              else Accept(t.head, t.pushes[t.head])))
  {
    ReachedHead(s, t);
    LoadHeadAlone(s, t);
    LoadTailAlone(s, t.(reader := LoadTail(t.head)));
    ReadAlone(s, t.(reader := LoadBefore(HeadSlot(t))));
  }

  function Skipping(t: State): State {
    t.(head := t.head + 1, dropped := t.dropped + 1)
  }

  function Taking(t: State): State
    requires t.head < |t.pushes|
  {
    t.(head := t.head + 1, pops := t.pops + [Taken(t.head, t.pushes[t.head])], reader := Away)
  }

  lemma ContentAfter(t: State, u: State)
    requires Front(t) && Sized(u)
    requires u.head == t.head + 1 && u.tail == t.tail && u.pushes == t.pushes && |u.slots| == |t.slots|
    ensures ContentOf(t).queue == [RingFrame(t.pushes[t.head])] + ContentOf(u).queue
  {
    assert t.pushes[t.head..t.tail] == [t.pushes[t.head]] + t.pushes[t.head + 1..t.tail];
  }

  lemma SkipsFront<T>(c: Ring.Content<T>, f: Ring.Frame<T>, d: Ring.Content<T>)
    requires c.queue == [f] + d.queue && d.last == c.last && d.dropped == c.dropped + 1 && !Ring.Deliverable(f, c.last)
    ensures Ring.Popped(d) == Ring.Popped(c)
  {
    assert c.queue[1..] == d.queue;
    Ring.SkipFront(c);
  }

  lemma TakesFront<T>(c: Ring.Content<T>, f: Ring.Frame<T>, d: Ring.Content<T>)
    requires c.queue == [f] + d.queue && d.last == Some(f.seqNo) && d.dropped == c.dropped
    requires Ring.Deliverable(f, c.last)
    ensures Ring.Popped(c) == (d, Some(f))
  {
    assert c.queue[1..] == d.queue;
    Ring.TurnKeeps(c, d, Ring.Turn.Taken(f));
  }

  /** A frame that is not wanted is skipped and counted. */
  lemma SkipAlone(s: State, t: State)
    requires s.Invariant() && Placed(s) && Reaches(s, Consumer, t) && Front(t) && t.reader.LoadHeadFirst?
    requires !Ring.Deliverable(RingFrame(t.pushes[t.head]), Last(t.pops))
    ensures Reaches(s, Consumer, Skipping(t)) && Ring.Popped(ContentOf(Skipping(t))) == Ring.Popped(ContentOf(t))
  {
    FrontAlone(s, t);
    SkipHeadAlone(s, t.(reader := SkipHead));
    CountSkipAlone(s, t.(head := t.head + 1, reader := CountSkip));
    ContentAfter(t, Skipping(t));
    SkipsFront(ContentOf(t), RingFrame(t.pushes[t.head]), ContentOf(Skipping(t)));
  }

  /** A frame that is wanted is returned. */
  lemma TakeAlone(s: State, t: State)
    requires s.Invariant() && Placed(s) && Reaches(s, Consumer, t) && Front(t) && t.reader.LoadHeadFirst?
    requires Ring.Deliverable(RingFrame(t.pushes[t.head]), Last(t.pops))
    ensures Reaches(s, Consumer, Taking(t))
    ensures Ring.Popped(ContentOf(t)) == (ContentOf(Taking(t)), Some(RingFrame(t.pushes[t.head])))
  {
    FrontAlone(s, t);
    AcceptAlone(s, t.(reader := Accept(t.head, t.pushes[t.head])));
    ContentAfter(t, Taking(t));
    TakesFront(ContentOf(t), RingFrame(t.pushes[t.head]), ContentOf(Taking(t)));
  }

  /** What a pop that has returned has changed. */
  ghost predicate Returned(t: State, u: State, popped: Option<Ring.Frame<seq<nat>>>) {
    && u == t.(head := u.head, dropped := u.dropped, pops := u.pops, reader := Away)
    && Grown(t.pops, u.pops, popped)
  }

  predicate Grown(before: seq<Taken>, after: seq<Taken>, popped: Option<Ring.Frame<seq<nat>>>) {
    if popped.None? then after == before
    else before < after && |after| == |before| + 1 && RingFrame(after[|before|].frame) == popped.value
  }

  lemma {:induction false} LoopAlone(s: State, t: State) returns (u: State)
    requires s.Invariant() && Placed(s) && Reaches(s, Consumer, t)
    requires Sized(t) && t.writer.Outside? && t.reader.LoadHeadFirst?
    ensures Reaches(s, Consumer, u) && Sized(u)
    ensures Ring.Popped(ContentOf(t)).0 == ContentOf(u) && Returned(t, u, Ring.Popped(ContentOf(t)).1)
    decreases t.tail - t.head
  {
    if t.head >= t.tail {
      EmptyAlone(s, t);
      u := t.(reader := Away);
    } else if t.tail - t.head > |t.slots| {
      CatchUpAlone(s, t);
      u := LoopAlone(s, t.(head := t.tail - |t.slots|));
    } else if Ring.Deliverable(RingFrame(t.pushes[t.head]), Last(t.pops)) {
      TakeAlone(s, t);
      u := Taking(t);
    } else {
      SkipAlone(s, t);
      u := LoopAlone(s, Skipping(t));
    }
  }

  lemma BegunPop(s: State)
    requires Idle(s)
    ensures var t := s.(reader := LoadHeadFirst); t.Invariant() && Placed(t) && Reaches(t, Consumer, t)
  {
    BeginPopKeeps(s);
    ReachesItself(s.(reader := LoadHeadFirst), Consumer);
  }

  lemma StepsOfPop(s: State, t: State) returns (n: nat)
    requires s.Invariant() && s.reader.Away? && s.(reader := LoadHeadFirst).Invariant()
    requires Reaches(s.(reader := LoadHeadFirst), Consumer, t)
    ensures Run(s, [BeginPop] + Repeat(Consumer, n)) == t
  {
    n :| Run(s.(reader := LoadHeadFirst), Repeat(Consumer, n)) == t;
    assert ([BeginPop] + Repeat(Consumer, n))[1..] == Repeat(Consumer, n);
  }

  lemma IdleSized(s: State)
    requires s.Invariant()
    ensures Sized(s)
  {
  }

  lemma PopReached(s: State) returns (t: State)
    requires s.(reader := LoadHeadFirst).Invariant() && Placed(s.(reader := LoadHeadFirst)) && s.writer.Outside?
    requires Sized(s)
    requires s.reader.Away? && Reaches(s.(reader := LoadHeadFirst), Consumer, s.(reader := LoadHeadFirst))
    ensures Reaches(s.(reader := LoadHeadFirst), Consumer, t) && Sized(t)
    ensures ContentOf(t) == Ring.Popped(ContentOf(s)).0 && Returned(s, t, Ring.Popped(ContentOf(s)).1)
  {
    var s1 := s.(reader := LoadHeadFirst);
    t := LoopAlone(s1, s1);
    assert ContentOf(s1) == ContentOf(s);
  }

  /**
   A pop alone, in any state that any interleaving has led to: it returns, and has done what the bounded queue does.
   */
  lemma PopAlone(s: State) returns (n: nat)
    requires Idle(s)
    ensures var t := Run(s, [BeginPop] + Repeat(Consumer, n));
      && Sized(s) && Sized(t) && ContentOf(t) == Ring.Popped(ContentOf(s)).0
      && Returned(s, t, Ring.Popped(ContentOf(s)).1)
  {
    IdleSized(s);
    BegunPop(s);
    var t := PopReached(s);
    n := StepsOfPop(s, t);
  }

  // ---------- A push alone ----------

  /** The thread that pops does not hold a version that could wrap. */
  predicate Standing(t: State) {
    t.reader.Away? || t.reader.LoadBefore?
  }

  lemma FirstBumpAlone(s: State, t: State)
    requires s.Invariant() && Standing(t) && Reaches(s, Producer, t) && t.writer.FirstBump? && t.writer.slot < |t.slots|
    ensures var j := t.writer.slot;
      Reaches(s, Producer,
        t.(slots := t.slots[j := t.slots[j].(bumps := t.slots[j].bumps + 1)], writer := WriteWord(j, 0)))
  {
    ReachesNext(s, Producer, t);
  }

  predicate InWords(t: State) {
    && t.writer.WriteWord? && t.writer.slot < |t.slots| && t.tail < |t.pushes| && t.writer.done <= t.width
    && |t.slots[t.writer.slot].words| == t.width == |t.pushes[t.tail]|
    && t.slots[t.writer.slot].words[..t.writer.done] == t.pushes[t.tail][..t.writer.done]
  }

  lemma LastWordAlone(s: State, t: State)
    requires s.Invariant() && Standing(t) && Reaches(s, Producer, t) && t.writer.WriteWord? && t.writer.done == t.width
    ensures Reaches(s, Producer, t.(writer := SecondBump(t.writer.slot)))
  {
    ReachesNext(s, Producer, t);
  }

  function WithWord(t: State): State
    requires InWords(t) && t.writer.done < t.width
  {
    var j, done := t.writer.slot, t.writer.done;
    var words := t.slots[j].words[done := t.pushes[t.tail][done]];
    t.(slots := t.slots[j := t.slots[j].(words := words)], writer := WriteWord(j, done + 1))
  }

  lemma OneWordAlone(s: State, t: State)
    requires s.Invariant() && Standing(t) && Reaches(s, Producer, t) && InWords(t) && t.writer.done < t.width
    ensures Reaches(s, Producer, WithWord(t))
  {
    ReachesNext(s, Producer, t);
  }

  lemma {:induction false} WordsAlone(s: State, t: State)
    requires s.Invariant() && Standing(t) && Reaches(s, Producer, t) && InWords(t)
    ensures var j := t.writer.slot;
      Reaches(s, Producer, t.(slots := t.slots[j := t.slots[j].(words := t.pushes[t.tail])], writer := SecondBump(j)))
    decreases t.width - t.writer.done
  {
    var j, done, frame := t.writer.slot, t.writer.done, t.pushes[t.tail];
    if done == t.width {
      assert t.slots[j].words[..t.width] == t.slots[j].words && frame[..t.width] == frame;
      assert t.slots[j := t.slots[j].(words := frame)] == t.slots;
      LastWordAlone(s, t);
    } else {
      OneWordAlone(s, t);
      WordStored(t.slots[j].words, frame, done);
      WordsAlone(s, WithWord(t));
      assert WithWord(t).slots[j := WithWord(t).slots[j].(words := frame)] == t.slots[j := t.slots[j].(words := frame)];
    }
  }

  lemma SecondBumpAlone(s: State, t: State)
    requires s.Invariant() && Standing(t) && Reaches(s, Producer, t) && t.writer.SecondBump?
    requires t.writer.slot < |t.slots|
    ensures var j := t.writer.slot;
      Reaches(s, Producer, t.(slots := t.slots[j := t.slots[j].(bumps := t.slots[j].bumps + 1, last := t.tail)],
                              writer := StoreTail(j)))
  {
    ReachesNext(s, Producer, t);
  }

  lemma StoreTailAlone(s: State, t: State)
    requires s.Invariant() && Standing(t) && Reaches(s, Producer, t) && t.writer.StoreTail?
    ensures Reaches(s, Producer, t.(tail := t.tail + 1, writer := LoadHead(t.tail + 1)))
  {
    ReachesNext(s, Producer, t);
  }

  lemma LoadHeadOfPushAlone(s: State, t: State)
    requires s.Invariant() && Standing(t) && Reaches(s, Producer, t) && t.writer.LoadHead?
    ensures Reaches(s, Producer, t.(writer := if t.writer.nextTail > t.head + |t.slots| then CountDrop else Outside))
  {
    ReachesNext(s, Producer, t);
  }

  lemma CountDropAlone(s: State, t: State)
    requires s.Invariant() && Standing(t) && Reaches(s, Producer, t) && t.writer.CountDrop?
    ensures Reaches(s, Producer, t.(dropped := t.dropped + 1, writer := Outside))
  {
    ReachesNext(s, Producer, t);
  }

  /** After a whole push. */
  function Pushing(s: State, frame: Frame): State
    requires |s.slots| > 0
  {
    var j := SlotOf(s.tail, |s.slots|);
    s.(slots := s.slots[j := Slot(s.slots[j].bumps + 2, frame, s.tail)], tail := s.tail + 1,
       dropped := s.dropped + (if s.tail + 1 > s.head + |s.slots| then 1 else 0),
       pushes := s.pushes + [frame], placed := s.placed + [j])
  }

  function Begun(s: State, frame: Frame): State
    requires |s.slots| > 0
  {
    var j := SlotOf(s.tail, |s.slots|);
    s.(writer := FirstBump(j), pushes := s.pushes + [frame], placed := s.placed + [j])
  }

  lemma BegunAlone(s: State, frame: Frame)
    requires s.Invariant() && s.writer.Outside? && |frame| == s.width
    ensures |s.slots| > 0 && |s.pushes| == s.tail && Step(s, BeginPush(frame)) == Begun(s, frame)
    ensures Begun(s, frame).Invariant() && |s.slots[SlotOf(s.tail, |s.slots|)].words| == s.width
  {
    BeginPushKeeps(s, frame);
  }

  lemma WrittenAlone(s: State, t: State)
    requires s.Invariant() && Standing(t) && Reaches(s, Producer, t) && t.writer.FirstBump? && t.writer.slot < |t.slots|
    requires t.tail < |t.pushes| && |t.pushes[t.tail]| == |t.slots[t.writer.slot].words| == t.width
    ensures var j := t.writer.slot;
      Reaches(s, Producer, t.(slots := t.slots[j := Slot(t.slots[j].bumps + 1, t.pushes[t.tail], t.slots[j].last)],
                              writer := SecondBump(j)))
  {
    var j := t.writer.slot;
    FirstBumpAlone(s, t);
    var bumped := t.(slots := t.slots[j := t.slots[j].(bumps := t.slots[j].bumps + 1)], writer := WriteWord(j, 0));
    WordsAlone(s, bumped);
    assert bumped.slots[j := bumped.slots[j].(words := t.pushes[t.tail])]
        == t.slots[j := Slot(t.slots[j].bumps + 1, t.pushes[t.tail], t.slots[j].last)];
  }

  lemma StoredAlone(s: State, t: State)
    requires s.Invariant() && Standing(t) && Reaches(s, Producer, t) && t.writer.SecondBump?
    requires t.writer.slot < |t.slots|
    ensures var j := t.writer.slot;
      Reaches(s, Producer, t.(slots := t.slots[j := t.slots[j].(bumps := t.slots[j].bumps + 1, last := t.tail)],
                              tail := t.tail + 1, writer := Outside,
                              dropped := t.dropped + (if t.tail + 1 > t.head + |t.slots| then 1 else 0)))
  {
    var j := t.writer.slot;
    SecondBumpAlone(s, t);
    var u := t.(slots := t.slots[j := t.slots[j].(bumps := t.slots[j].bumps + 1, last := t.tail)],
      writer := StoreTail(j));
    StoreTailAlone(s, u);
    var v := u.(tail := t.tail + 1, writer := LoadHead(t.tail + 1));
    LoadHeadOfPushAlone(s, v);
    if t.tail + 1 > t.head + |t.slots| {
      CountDropAlone(s, v.(writer := CountDrop));
    }
  }

  lemma PushReached(s: State, frame: Frame)
    requires s.Invariant() && Standing(s) && s.writer.Outside? && |frame| == s.width
    ensures |s.slots| > 0 && Begun(s, frame).Invariant() && Reaches(Begun(s, frame), Producer, Pushing(s, frame))
  {
    BegunAlone(s, frame);
    var j, t := SlotOf(s.tail, |s.slots|), Begun(s, frame);
    ReachesItself(t, Producer);
    WrittenAlone(t, t);
    var written := t.(slots := t.slots[j := Slot(t.slots[j].bumps + 1, frame, t.slots[j].last)],
      writer := SecondBump(j));
    StoredAlone(t, written);
    assert written.slots[j := written.slots[j].(bumps := written.slots[j].bumps + 1, last := s.tail)]
        == Pushing(s, frame).slots;
  }

  lemma RingFramesAppend(a: seq<Frame>, f: Frame)
    ensures RingFrames(a + [f]) == RingFrames(a) + [RingFrame(f)]
  {
    var all := RingFrames(a + [f]);
    assert forall i :: 0 <= i < |a| ==> (a + [f])[i] == a[i];
  }

  lemma QueueAfterPush(pushes: seq<Frame>, oldest: nat, later: nat, frame: Frame)
    requires oldest <= later <= |pushes| && later <= oldest + 1
    ensures RingFrames((pushes + [frame])[later..|pushes| + 1]) ==
      (if later == oldest then RingFrames(pushes[oldest..|pushes|]) else RingFrames(pushes[oldest..|pushes|])[1..])
      + [RingFrame(frame)]
  {
    assert (pushes + [frame])[later..|pushes| + 1] == pushes[later..|pushes|] + [frame];
    RingFramesAppend(pushes[later..|pushes|], frame);
    assert later > oldest ==> pushes[oldest..|pushes|][1..] == pushes[later..|pushes|];
    var all := RingFrames(pushes[oldest..|pushes|]);
    assert later > oldest ==> all[1..] == RingFrames(pushes[later..|pushes|]);
  }

  lemma PushContent(s: State, frame: Frame)
    requires Sized(s) && s.tail == |s.pushes|
    ensures ContentOf(Pushing(s, frame)) == Ring.Pushed(ContentOf(s), |s.slots|, RingFrame(frame))
  {
    QueueAfterPush(s.pushes, Oldest(s), Oldest(Pushing(s, frame)), frame);
  }

  /** A push alone, also while a pop stands before its first load of a version: it does what the bounded queue does. */
  lemma PushAlone(s: State, frame: Frame) returns (n: nat)
    requires s.Invariant() && Standing(s) && s.writer.Outside? && |frame| == s.width
    ensures Sized(s) && s.tail == |s.pushes|
    ensures var t := Run(s, [BeginPush(frame)] + Repeat(Producer, n));
      t == Pushing(s, frame) && ContentOf(t) == Ring.Pushed(ContentOf(s), |s.slots|, RingFrame(frame))
  {
    IdleSized(s);
    BegunAlone(s, frame);
    PushReached(s, frame);
    PushContent(s, frame);
    n :| Run(Begun(s, frame), Repeat(Producer, n)) == Pushing(s, frame);
    assert ([BeginPush(frame)] + Repeat(Producer, n))[1..] == Repeat(Producer, n);
  }

  // ---------- Calls that do not overlap ----------

  datatype Call = Push(frame: Frame) | Pop

  function RingOps(calls: seq<Call>): seq<Ring.Op<seq<nat>>> {
    if calls == [] then []
    else [if calls[0].Push? then Ring.Put(RingFrame(calls[0].frame)) else Ring.Take] + RingOps(calls[1..])
  }

  function FramesOf(pops: seq<Taken>): (fs: seq<Frame>)
    ensures |fs| == |pops| && forall i :: 0 <= i < |pops| ==> fs[i] == pops[i].frame
  {
    if pops == [] then [] else [pops[0].frame] + FramesOf(pops[1..])
  }

  lemma {:induction false} RunThen(s: State, a: seq<Action>, b: seq<Action>)
    requires s.Invariant()
    ensures Run(s, a).Invariant() && Run(s, a + b) == Run(Run(s, a), b)
    decreases |a|
  {
    RunKeeps(s, a);
    if a == [] {
      assert a + b == b;
    } else if s.NoWrap() {
      assert (a + b)[1..] == a[1..] + b;
      StepKeeps(s, a[0]);
      RunThen(Step(s, a[0]), a[1..], b);
    }
  }

  lemma PoppedThen(before: seq<Taken>, middle: seq<Taken>, after: seq<Taken>)
    requires before <= middle <= after
    ensures RingFrames(FramesOf(after[|before|..]))
         == RingFrames(FramesOf(middle[|before|..])) + RingFrames(FramesOf(after[|middle|..]))
  {
  }

  /** One call alone. */
  lemma CallAlone(s: State, call: Call) returns (actions: seq<Action>)
    requires Idle(s) && (call.Push? ==> |call.frame| == s.width)
    ensures var t := Run(s, actions);
      && Idle(t) && t.width == s.width && |t.slots| == |s.slots| && s.pops <= t.pops && Sized(s) && Sized(t)
      && (call.Push? ==>
           t.pops == s.pops && ContentOf(t) == Ring.Pushed(ContentOf(s), |s.slots|, RingFrame(call.frame)))
      && (call.Pop? ==>
            && ContentOf(t) == Ring.Popped(ContentOf(s)).0
            && RingFrames(FramesOf(t.pops[|s.pops|..])) == Ring.ToSeq(Ring.Popped(ContentOf(s)).1))
  {
    IdleSized(s);
    match call
    case Push(frame) =>
      var n := PushAlone(s, frame);
      actions := [BeginPush(frame)] + Repeat(Producer, n);
      PlacedKeeps(s, actions);
      assert s.pops <= s.pops;
    case Pop =>
      var n := PopAlone(s);
      actions := [BeginPop] + Repeat(Consumer, n);
      PlacedKeeps(s, actions);
      GrownFrames(s.pops, Run(s, actions).pops, Ring.Popped(ContentOf(s)).1);
  }

  lemma GrownFrames(before: seq<Taken>, after: seq<Taken>, popped: Option<Ring.Frame<seq<nat>>>)
    requires Grown(before, after, popped)
    ensures RingFrames(FramesOf(after[|before|..])) == Ring.ToSeq(popped)
  {
    if popped.Some? {
      assert after[|before|..] == [after[|before|]];
    } else {
      assert after[|before|..] == [];
    }
  }

  /**
   Pushes and pops that do not overlap, in any number and order, after whatever went before: step by step they do what
   the ring of the class does, frame for frame and drop for drop.
   */
  lemma {:induction false} CallsAlone(s: State, calls: seq<Call>) returns (actions: seq<Action>)
    requires Idle(s) && forall i :: 0 <= i < |calls| && calls[i].Push? ==> |calls[i].frame| == s.width
    ensures var t := Run(s, actions);
      && Idle(t) && s.pops <= t.pops && Sized(s) && Sized(t)
      && (ContentOf(t), RingFrames(FramesOf(t.pops[|s.pops|..])))
           == Ring.RunRing(ContentOf(s), |s.slots|, RingOps(calls))
    decreases |calls|
  {
    IdleSized(s);
    if calls == [] {
      actions := [];
      assert s.pops[|s.pops|..] == [];
    } else {
      var first := CallAlone(s, calls[0]);
      var t := Run(s, first);
      var rest := CallsAlone(t, calls[1..]);
      actions := first + rest;
      RunThen(s, first, rest);
      PoppedThen(s.pops, t.pops, Run(t, rest).pops);
      FirstRingOp(ContentOf(s), |s.slots|, calls);
      assert calls[0].Push? ==> t.pops[|s.pops|..] == [];
    }
  }

  lemma FirstRingOp(c: Ring.Content<seq<nat>>, capacity: nat, calls: seq<Call>)
    requires calls != []
    ensures var after := if calls[0].Push? then Ring.Pushed(c, capacity, RingFrame(calls[0].frame))
      else Ring.Popped(c).0;
      var (rest, more) := Ring.RunRing(after, capacity, RingOps(calls[1..]));
      Ring.RunRing(c, capacity, RingOps(calls))
        == (rest, (if calls[0].Push? then [] else Ring.ToSeq(Ring.Popped(c).1)) + more)
  {
    var ops := RingOps(calls);
    assert ops[1..] == RingOps(calls[1..]);
    if calls[0].Push? {
      var more := Ring.RunRing(Ring.Pushed(c, capacity, RingFrame(calls[0].frame)), capacity, ops[1..]).1;
      assert [] + more == more;
    }
  }

  // ---------- What a pop takes, with frames as push_audio makes them ----------

  /** The first frame newer than the last one popped, or the oldest one left. */
  function Wanted(s: State): nat
    requires Sized(s)
  {
    var next := if s.pops == [] then 0 else s.pops[|s.pops| - 1].index + 1;
    if next < Oldest(s) then Oldest(s) else next
  }

  lemma {:induction false} SkippedIs<T>(queue: seq<Ring.Frame<T>>, last: Option<nat>, n: nat)
    requires n <= |queue| && forall i :: 0 <= i < n ==> !Ring.Deliverable(queue[i], last)
    requires n < |queue| ==> Ring.Deliverable(queue[n], last)
    ensures Ring.Skipped(queue, last) == n
    decreases n
  {
    if n > 0 {
      assert forall i :: 0 <= i < n - 1 ==> queue[1..][i] == queue[i + 1];
      SkippedIs(queue[1..], last, n - 1);
    }
  }

  lemma SkippedUpTo(s: State)
    requires s.Invariant() && s.tail == |s.pushes| && Sized(s) && Ring.Orderly(RingFrames(s.pushes))
    ensures var n := Wanted(s) - Oldest(s);
      Ring.Skipped(ContentOf(s).queue, Last(s.pops)) == if Wanted(s) < s.tail then n else s.tail - Oldest(s)
  {
    var queue, last := ContentOf(s).queue, Last(s.pops);
    var n := if Wanted(s) < s.tail then Wanted(s) - Oldest(s) else s.tail - Oldest(s);
    forall i | 0 <= i < |queue|
      ensures Ring.Deliverable(queue[i], last) <==> Oldest(s) + i >= Wanted(s)
    {
      FrameWanted(s, Oldest(s) + i);
      assert queue[i] == RingFrame(s.pushes[Oldest(s) + i]);
    }
    SkippedIs(queue, last, n);
  }

  lemma FrameWanted(s: State, i: nat)
    requires s.Invariant() && Sized(s) && Oldest(s) <= i < |s.pushes| && Ring.Orderly(RingFrames(s.pushes))
    ensures Ring.Deliverable(RingFrame(s.pushes[i]), Last(s.pops)) <==> i >= Wanted(s)
  {
    var all := RingFrames(s.pushes);
    assert all[i].IsConsistent();
    if s.pops != [] {
      var k := s.pops[|s.pops| - 1].index;
      assert s.pops[|s.pops| - 1].frame == s.pushes[k];
      assert all[k].seqNo == s.pushes[k][0] && all[i].seqNo == s.pushes[i][0];
      assert k < i ==> all[k].seqNo < all[i].seqNo;
      assert i < k ==> all[i].seqNo < all[k].seqNo;
    }
  }

  /**
   Exactly what a pop alone takes: the first frame newer than the last one popped, with the older ones left skipped and
   counted as dropped; nothing if and only if there is none.
   */
  lemma PopTakes(s: State) returns (n: nat)
    requires Idle(s) && Ring.Orderly(RingFrames(s.pushes))
    ensures Sized(s) && s.tail == |s.pushes|
    ensures var t := Run(s, [BeginPop] + Repeat(Consumer, n));
      if Wanted(s) < s.tail then
        t.dropped == s.dropped + (Wanted(s) - Oldest(s)) && FramesOf(t.pops) == FramesOf(s.pops) + [s.pushes[Wanted(s)]]
      else
        t.dropped == s.dropped + (s.tail - Oldest(s)) && t.pops == s.pops
  {
    IdleSized(s);
    n := PopAlone(s);
    SkippedUpTo(s);
    TakesWanted(s, Run(s, [BeginPop] + Repeat(Consumer, n)));
  }

  lemma TakesWanted(s: State, t: State)
    requires Sized(s) && Sized(t) && s.tail == |s.pushes|
    requires ContentOf(t) == Ring.Popped(ContentOf(s)).0 && Grown(s.pops, t.pops, Ring.Popped(ContentOf(s)).1)
    requires Ring.Skipped(ContentOf(s).queue, Last(s.pops)) ==
             if Wanted(s) < s.tail then Wanted(s) - Oldest(s) else s.tail - Oldest(s)
    ensures if Wanted(s) < s.tail then
        t.dropped == s.dropped + (Wanted(s) - Oldest(s)) && FramesOf(t.pops) == FramesOf(s.pops) + [s.pushes[Wanted(s)]]
      else
        t.dropped == s.dropped + (s.tail - Oldest(s)) && t.pops == s.pops
  {
    PoppedAfter(ContentOf(s));
    if Wanted(s) < s.tail {
      WantedThere(s.pushes, Oldest(s), s.tail, Wanted(s));
      PopGrows(s.pops, t.pops, s.pushes[Wanted(s)]);
    }
  }

  lemma PoppedAfter(c: Ring.Content<seq<nat>>)
    ensures var n := Ring.Skipped(c.queue, c.last);
      && Ring.Popped(c).0.dropped == c.dropped + n
      && Ring.Popped(c).1 == if n < |c.queue| then Some(c.queue[n]) else None
  {
  }

  lemma WantedThere(pushes: seq<Frame>, oldest: nat, tail: nat, i: nat)
    requires oldest <= i < tail <= |pushes|
    ensures RingFrames(pushes[oldest..tail])[i - oldest] == RingFrame(pushes[i])
  {
  }

  lemma PopGrows(before: seq<Taken>, after: seq<Taken>, f: Frame)
    requires before < after && |after| == |before| + 1 && RingFrame(after[|before|].frame) == RingFrame(f)
    ensures FramesOf(after) == FramesOf(before) + [f]
  {
    SameFrame(after[|before|].frame, f);
  }

  lemma SameFrame(f: Frame, g: Frame)
    requires RingFrame(f) == RingFrame(g)
    ensures f == g
  {
    assert f == [f[0], f[1]] + f[2..];
    assert g == [g[0], g[1]] + g[2..];
  }

  /** It takes the oldest frame left, and drops none, if and only if the last one popped is older. */
  lemma TakesOldestIff(s: State)
    requires Idle(s) && Sized(s) && Oldest(s) < s.tail
    ensures Wanted(s) == Oldest(s) <==> s.pops == [] || s.pops[|s.pops| - 1].index < Oldest(s)
  {
  }

  // ---------- A pop that is overrun ----------

  /** The pop has loaded head and tail of a full ring and stands before its first load of a version. */
  function Poised(s: State): State
    requires Sized(s)
  {
    s.(reader := LoadBefore(HeadSlot(s)))
  }

  lemma PoisedAlone(s: State)
    requires Idle(s) && Sized(s) && s.tail - s.head == |s.slots|
    ensures Poised(s).Invariant() && Run(s, [BeginPop] + ([Consumer] + [Consumer])) == Poised(s)
  {
    BegunPop(s);
    var t := s.(reader := LoadHeadFirst);
    LoadHeadAlone(t, t);
    LoadTailAlone(t, t.(reader := LoadTail(t.head)));
    ReachedSound(t, Consumer, Poised(s));
    TwoSteps(t);
    assert ([BeginPop] + ([Consumer] + [Consumer]))[1..] == [Consumer] + [Consumer];
  }

  lemma TwoSteps(t: State)
    requires t.Invariant() && Sized(t) && t.reader.LoadHeadFirst? && t.tail - t.head == |t.slots|
    ensures Run(t, [Consumer] + [Consumer]) == Poised(t)
  {
    StepKeeps(t, Consumer);
    assert ([Consumer] + [Consumer])[1..] == [Consumer];
    StepKeeps(t.(reader := LoadTail(t.head)), Consumer);
    assert [Consumer][1..] == [];
  }

  /** After the overrun: the new frame was popped, and the head moved by one. */
  function Overrun(s: State, frame: Frame): State
    requires Sized(s)
  {
    var t := Pushing(s, frame);
    t.(head := s.head + 1, pops := s.pops + [Taken(s.tail, frame)], reader := Away)
  }

  lemma OverrunReached(s: State, frame: Frame) returns (n: nat)
    requires Idle(s) && Sized(s) && s.tail - s.head == |s.slots| && |frame| == s.width
    requires Ring.Deliverable(RingFrame(frame), Last(s.pops)) && Pushing(Poised(s), frame).Invariant()
    ensures Run(Pushing(Poised(s), frame), Repeat(Consumer, n)) == Overrun(s, frame)
  {
    HeadIsThere(s);
    var t := Pushing(Poised(s), frame);
    ReachesItself(t, Consumer);
    assert SlotOf(s.tail, |s.slots|) == HeadSlot(s);
    ReadAlone(t, t);
    AcceptAlone(t, t.(reader := Accept(s.tail, frame)));
    n :| Run(t, Repeat(Consumer, n)) == Overrun(s, frame);
  }

  lemma OverrunAlone(s: State, frame: Frame) returns (overlapping: seq<Action>)
    requires Idle(s) && Sized(s) && s.tail - s.head == |s.slots| && |frame| == s.width
    requires Ring.Deliverable(RingFrame(frame), Last(s.pops))
    ensures Run(s, overlapping) == Overrun(s, frame)
  {
    PoisedAlone(s);
    var n := PushAlone(Poised(s), frame);
    var pushing := [BeginPush(frame)] + Repeat(Producer, n);
    RunKeeps(Poised(s), pushing);
    var m := OverrunReached(s, frame);
    overlapping := [BeginPop] + ([Consumer] + [Consumer]) + (pushing + Repeat(Consumer, m));
    RunThen(s, [BeginPop] + ([Consumer] + [Consumer]), pushing + Repeat(Consumer, m));
    RunThen(Poised(s), pushing, Repeat(Consumer, m));
  }

  /**
   A push that gets in after pop has looked at head and tail of a full ring: pop returns the new frame, not the oldest.
   All the other frames are then older than the last one popped, so the next pop returns nothing and drops them all,
   the new frame among them.
   */
  lemma OverrunLosesRing(s: State, frame: Frame) returns (overlapping: seq<Action>, next: nat)
    requires Idle(s) && Sized(s) && s.tail - s.head == |s.slots| && |frame| == s.width
    requires Ring.Orderly(RingFrames(s.pushes + [frame])) && s.tail == |s.pushes|
    requires Ring.Deliverable(RingFrame(frame), Last(s.pops))
    ensures var t := Run(s, overlapping);
      && Idle(t) && t.pops == s.pops + [Taken(s.tail, frame)] && t.dropped == s.dropped + 1 && t.tail == s.tail + 1
      && var u := Run(t, [BeginPop] + Repeat(Consumer, next)); u.pops == t.pops && u.dropped == t.dropped + |s.slots|
  {
    overlapping := OverrunAlone(s, frame);
    PlacedKeeps(s, overlapping);
    next := PopTakes(Overrun(s, frame));
  }
}
