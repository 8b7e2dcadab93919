/**
 SeqlockRing of native-plugin/src/ring.hpp with one producer inside push and one consumer inside pop
 at the same time. Every load, store, version bump and every word of the frame copies is a step of its own, and
 the steps of the two threads mix in any order.
 */
module SeqlockInterleaved {
  import opened Bytes
  import opened RingSlots

  /** The words of a ring value: the sequence number, its complement as a marker, then the payload. */
  type Frame = f: seq<nat> | |f| >= 2 witness [0, 0]

  predicate IsConsistent(f: Frame) {
    f[1] == U64_LIMIT - 1 - f[0]
  }

  /** `bumps` counts every bump; the version a thread loads is its low 32 bits. `last` is the newest frame written. */
  datatype Slot = Slot(bumps: nat, words: Frame, last: int) {
    function Version(): nat {
      bumps % U32_LIMIT
    }
  }

  /** What push does next. */
  datatype Writer =
    | Outside
    | FirstBump(slot: nat)
    | WriteWord(slot: nat, done: nat)
    | SecondBump(slot: nat)
    | StoreTail(slot: nat)
    | LoadHead(nextTail: nat)
    | CountDrop

  /** What pop does next. */
  datatype Reader =
    | Away
    | LoadHeadFirst
    | LoadTail(head: nat)
    | CatchUp(distance: nat)
    | LoadBefore(slot: nat)
    | CopyWord(slot: nat, bumps: nat, sofar: seq<nat>)
    | LoadAfter(slot: nat, bumps: nat, copied: Frame)
    | SkipHead
    | CountSkip
    | Accept(index: nat, copied: Frame)

  datatype Taken = Taken(index: nat, frame: Frame)

  /** `pushes`, `placed` (the slot of each push) and `pops` record the run; no step depends on their past. */
  datatype State = State(
    width: nat,
    slots: seq<Slot>,
    head: nat,
    tail: nat,
    dropped: nat,
    writer: Writer,
    reader: Reader,
    pushes: seq<Frame>,
    placed: seq<nat>,
    pops: seq<Taken>
  ) {
    predicate Shaped() {
      && width >= 2 && |slots| > 0
      && (forall j :: 0 <= j < |slots| ==> |slots[j].words| == width)
      && |placed| == |pushes|
      && (forall i :: 0 <= i < |pushes| ==> |pushes[i]| == width)
      && (forall i :: 0 <= i < |placed| ==> placed[i] == SlotOf(i, |slots|))
    }

    /** The writer is before its store of the tail: frame `tail` is under way. */
    predicate Writing() {
      writer.FirstBump? || writer.WriteWord? || writer.SecondBump? || writer.StoreTail?
    }

    predicate MidWrite(j: nat) {
      (writer.WriteWord? || writer.SecondBump?) && j == writer.slot
    }

    /** What the writer has done so far to its slot. */
    predicate WriterInvariant()
      requires Shaped()
    {
      && |pushes| == tail + (if Writing() then 1 else 0)
      && (Writing() ==> writer.slot == placed[tail])
      && (writer.WriteWord? ==>
           writer.done <= width && slots[writer.slot].words[..writer.done] == pushes[tail][..writer.done])
      && (writer.SecondBump? ==> slots[writer.slot].words == pushes[tail])
      && (writer.StoreTail? ==> slots[writer.slot].last == tail)
    }

    /** An even version means a whole frame, the newest written there. */
    predicate SlotsInvariant()
      requires Shaped()
    {
      && (forall j :: 0 <= j < |slots| ==>
                        && slots[j].last < |pushes|
                        && (slots[j].bumps % 2 == 1 <==> MidWrite(j))
                        && (slots[j].bumps % 2 == 0 && slots[j].last >= 0 ==> slots[j].words == pushes[slots[j].last]))
      && (forall i :: 0 <= i < tail && i < |placed| ==> slots[placed[i]].last >= i)
    }

    predicate ReaderInvariant()
      requires Shaped()
    {
      && (reader.LoadTail? ==> reader.head == head)
      && (reader.CatchUp? ==> |slots| < reader.distance && head + reader.distance <= tail)
      && (reader.LoadBefore? || reader.CopyWord? || reader.LoadAfter? ==>
           head < tail <= |placed| && reader.slot == placed[head])
      && (reader.CopyWord? ==>
            && reader.bumps % 2 == 0 && reader.bumps <= slots[reader.slot].bumps && |reader.sofar| < width
            && (reader.bumps == slots[reader.slot].bumps ==>
                 reader.sofar == slots[reader.slot].words[..|reader.sofar|]))
      && (reader.LoadAfter? ==>
            && reader.bumps % 2 == 0 && reader.bumps <= slots[reader.slot].bumps
            && (reader.bumps == slots[reader.slot].bumps ==> reader.copied == slots[reader.slot].words))
      && (reader.SkipHead? ==> head < tail)
      && (reader.Accept? ==>
            && head < tail && reader.index < |pushes| && reader.copied == pushes[reader.index]
            && (pops != [] ==> pops[|pops| - 1].frame[0] < reader.copied[0]))
    }

    /** What the consumer may rely on: whole frames, in increasing order of sequence number. */
    predicate Safe() {
      && head <= tail
      && (forall k :: 0 <= k < |pops| ==> pops[k].index < |pushes| && pops[k].frame == pushes[pops[k].index])
      && (forall j, k :: 0 <= j < k < |pops| ==> pops[j].frame[0] < pops[k].frame[0])
    }

    predicate Invariant() {
      Shaped() && WriterInvariant() && SlotsInvariant() && ReaderInvariant() && Safe()
    }

    /** Fewer than 2^32 bumps hit the slot being read between the two loads of its version. */
    predicate NoWrap() {
      reader.LoadAfter? && reader.slot < |slots| ==> slots[reader.slot].bumps < reader.bumps + U32_LIMIT
    }
  }

  predicate Initial(s: State) {
    && s.width >= 2 && |s.slots| > 0
    && (forall j ::
         0 <= j < |s.slots| ==> s.slots[j].bumps == 0 && s.slots[j].last == -1 && |s.slots[j].words| == s.width)
    && s.head == s.tail == s.dropped == 0
    && s.writer == Outside && s.reader == Away && s.pushes == [] && s.placed == [] && s.pops == []
  }

  /** A thread enters push or pop, or takes its next step inside. */
  datatype Action = BeginPush(frame: Frame) | Producer | BeginPop | Consumer

  function BeginPushStep(s: State, frame: Frame): State
    requires s.Shaped()
  {
    if s.writer.Outside? && |frame| == s.width && |s.pushes| == s.tail then
      var slot := SlotOf(s.tail, |s.slots|);
      s.(writer := FirstBump(slot), pushes := s.pushes + [frame], placed := s.placed + [slot])
    else
      s
  }

  function ProducerStep(s: State): State
    requires s.Shaped() && s.WriterInvariant()
  {
    match s.writer
    case Outside => s
    case FirstBump(j) =>
      s.(slots := s.slots[j := s.slots[j].(bumps := s.slots[j].bumps + 1)], writer := WriteWord(j, 0))
    case WriteWord(j, done) =>
      if done < s.width then
        var words := s.slots[j].words[done := s.pushes[s.tail][done]];
        s.(slots := s.slots[j := s.slots[j].(words := words)], writer := WriteWord(j, done + 1))
      else
        s.(writer := SecondBump(j))
    case SecondBump(j) =>
      s.(slots := s.slots[j := s.slots[j].(bumps := s.slots[j].bumps + 1, last := s.tail)], writer := StoreTail(j))
    case StoreTail(j) => s.(tail := s.tail + 1, writer := LoadHead(s.tail + 1))
    case LoadHead(nextTail) => s.(writer := if nextTail > s.head + |s.slots| then CountDrop else Outside)
    case CountDrop => s.(dropped := s.dropped + 1, writer := Outside)
  }

  function ConsumerStep(s: State): State
    requires s.Shaped() && s.ReaderInvariant()
  {
    match s.reader
    case Away => s
    case LoadHeadFirst => s.(reader := LoadTail(s.head))
    case LoadTail(head) =>
      if head >= s.tail then s.(reader := Away)
      else if s.tail - head > |s.slots| then s.(reader := CatchUp(s.tail - head))
      else s.(reader := LoadBefore(SlotOf(head, |s.slots|)))
    case CatchUp(distance) => s.(head := s.head + (distance - |s.slots|), reader := LoadHeadFirst)
    case LoadBefore(j) =>
      s.(reader := if s.slots[j].Version() % 2 != 0 then SkipHead else CopyWord(j, s.slots[j].bumps, []))
    case CopyWord(j, bumps, sofar) =>
      var more := sofar + [s.slots[j].words[|sofar|]];
      s.(reader := if |more| < s.width then CopyWord(j, bumps, more) else LoadAfter(j, bumps, more))
    case LoadAfter(j, bumps, copied) =>
      if bumps % U32_LIMIT != s.slots[j].Version() || !IsConsistent(copied)
         || (s.pops != [] && copied[0] <= s.pops[|s.pops| - 1].frame[0])
      then s.(reader := SkipHead)
      else s.(reader := Accept(if s.slots[j].last >= 0 then s.slots[j].last else 0, copied))
    case SkipHead => s.(head := s.head + 1, reader := CountSkip)
    case CountSkip => s.(dropped := s.dropped + 1, reader := LoadHeadFirst)
    case Accept(index, copied) => s.(head := s.head + 1, pops := s.pops + [Taken(index, copied)], reader := Away)
  }

  lemma BeginPushKeeps(s: State, frame: Frame)
    requires s.Invariant()
    ensures BeginPushStep(s, frame).Invariant()
  {
  }

  lemma BeginPopKeeps(s: State)
    requires s.Invariant() && s.reader.Away?
    ensures s.(reader := LoadHeadFirst).Invariant()
  {
  }

  lemma WordStored(words: Frame, frame: Frame, done: nat)
    requires done < |words| == |frame| && words[..done] == frame[..done]
    ensures words[done := frame[done]][..done + 1] == frame[..done + 1]
  {
  }

  lemma WriteWordKeeps(s: State)
    requires s.Invariant() && s.writer.WriteWord? && s.writer.done < s.width
    ensures ProducerStep(s).Invariant()
  {
    WordStored(s.slots[s.writer.slot].words, s.pushes[s.tail], s.writer.done);
  }

  lemma LastWordKeeps(s: State)
    requires s.Invariant() && s.writer.WriteWord? && s.writer.done >= s.width
    ensures ProducerStep(s).Invariant()
  {
  }

  lemma FirstBumpKeeps(s: State)
    requires s.Invariant() && s.writer.FirstBump?
    ensures ProducerStep(s).Invariant()
  {
  }

  lemma SecondBumpKeeps(s: State)
    requires s.Invariant() && s.writer.SecondBump?
    ensures ProducerStep(s).Invariant()
  {
  }

  lemma StoreTailKeeps(s: State)
    requires s.Invariant() && s.writer.StoreTail?
    ensures ProducerStep(s).Invariant()
  {
  }

  lemma LoadHeadKeeps(s: State)
    requires s.Invariant() && s.writer.LoadHead?
    ensures ProducerStep(s).Invariant()
  {
  }

  lemma CountDropKeeps(s: State)
    requires s.Invariant() && s.writer.CountDrop?
    ensures ProducerStep(s).Invariant()
  {
  }

  lemma LoadHeadFirstKeeps(s: State)
    requires s.Invariant() && s.NoWrap() && s.reader.LoadHeadFirst?
    ensures ConsumerStep(s).Invariant()
  {
  }

  lemma LoadTailKeeps(s: State)
    requires s.Invariant() && s.NoWrap() && s.reader.LoadTail?
    ensures ConsumerStep(s).Invariant()
  {
  }

  lemma CatchUpKeeps(s: State)
    requires s.Invariant() && s.NoWrap() && s.reader.CatchUp?
    ensures ConsumerStep(s).Invariant()
  {
  }

  lemma LoadBeforeKeeps(s: State)
    requires s.Invariant() && s.NoWrap() && s.reader.LoadBefore?
    ensures ConsumerStep(s).Invariant()
  {
  }

  lemma CopyWordKeeps(s: State)
    requires s.Invariant() && s.NoWrap() && s.reader.CopyWord?
    ensures ConsumerStep(s).Invariant()
  {
  }

  lemma SameVersion(bumps: nat, later: nat)
    requires bumps <= later < bumps + U32_LIMIT && bumps % U32_LIMIT == later % U32_LIMIT
    ensures bumps == later
  {
  }

  /** Two equal versions around the copy: the words are those of one push, no older than the head. */
  lemma CopyIsWhole(s: State)
    requires s.Invariant() && s.NoWrap() && s.reader.LoadAfter?
    requires s.reader.bumps % U32_LIMIT == s.slots[s.reader.slot].Version()
    ensures var last := s.slots[s.reader.slot].last;
      s.head <= last < |s.pushes| && s.reader.copied == s.pushes[last]
  {
    SameVersion(s.reader.bumps, s.slots[s.reader.slot].bumps);
    assert s.slots[s.placed[s.head]].last >= s.head;
  }

  lemma RejectKeeps(s: State)
    requires s.Invariant() && s.reader.LoadAfter?
    ensures s.(reader := SkipHead).Invariant()
  {
  }

  lemma AdmitKeeps(s: State, index: nat)
    requires s.Invariant() && s.reader.LoadAfter? && index < |s.pushes| && s.reader.copied == s.pushes[index]
    requires s.pops != [] ==> s.pops[|s.pops| - 1].frame[0] < s.reader.copied[0]
    ensures s.(reader := Accept(index, s.reader.copied)).Invariant()
  {
  }

  lemma LoadAfterKeeps(s: State)
    requires s.Invariant() && s.NoWrap() && s.reader.LoadAfter?
    ensures ConsumerStep(s).Invariant()
  {
    var slot := s.slots[s.reader.slot];
    RejectKeeps(s);
    if s.reader.bumps % U32_LIMIT == slot.Version() {
      CopyIsWhole(s);
      if !(s.pops != [] && s.reader.copied[0] <= s.pops[|s.pops| - 1].frame[0]) {
        AdmitKeeps(s, slot.last);
      }
    }
  }

  lemma SkipHeadKeeps(s: State)
    requires s.Invariant() && s.NoWrap() && s.reader.SkipHead?
    ensures ConsumerStep(s).Invariant()
  {
  }

  lemma CountSkipKeeps(s: State)
    requires s.Invariant() && s.NoWrap() && s.reader.CountSkip?
    ensures ConsumerStep(s).Invariant()
  {
  }

  lemma AcceptKeeps(s: State)
    requires s.Invariant() && s.NoWrap() && s.reader.Accept?
    ensures ConsumerStep(s).Invariant()
  {
  }

  lemma ProducerKeeps(s: State)
    requires s.Invariant()
    ensures ProducerStep(s).Invariant()
  {
    match s.writer
    case Outside =>
    case FirstBump(_) => FirstBumpKeeps(s);
    case WriteWord(_, done) => if done < s.width { WriteWordKeeps(s); } else { LastWordKeeps(s); }
    case SecondBump(_) => SecondBumpKeeps(s);
    case StoreTail(_) => StoreTailKeeps(s);
    case LoadHead(_) => LoadHeadKeeps(s);
    case CountDrop => CountDropKeeps(s);
  }

  lemma ConsumerKeeps(s: State)
    requires s.Invariant() && s.NoWrap()
    ensures ConsumerStep(s).Invariant()
  {
    match s.reader
    case Away =>
    case LoadHeadFirst => LoadHeadFirstKeeps(s);
    case LoadTail(_) => LoadTailKeeps(s);
    case CatchUp(_) => CatchUpKeeps(s);
    case LoadBefore(_) => LoadBeforeKeeps(s);
    case CopyWord(_, _, _) => CopyWordKeeps(s);
    case LoadAfter(_, _, _) => LoadAfterKeeps(s);
    case SkipHead => SkipHeadKeeps(s);
    case CountSkip => CountSkipKeeps(s);
    case Accept(_, _) => AcceptKeeps(s);
  }

  /** An action that its thread cannot take now leaves the state alone. */
  function Step(s: State, a: Action): State
    requires s.Invariant()
  {
    match a
    case BeginPush(frame) => BeginPushStep(s, frame)
    case Producer => ProducerStep(s)
    case BeginPop => if s.reader.Away? then s.(reader := LoadHeadFirst) else s
    case Consumer => ConsumerStep(s)
  }

  lemma StepKeeps(s: State, a: Action)
    requires s.Invariant() && s.NoWrap()
    ensures Step(s, a).Invariant()
  {
    match a
    case BeginPush(frame) => BeginPushKeeps(s, frame);
    case Producer => ProducerKeeps(s);
    case BeginPop => if s.reader.Away? { BeginPopKeeps(s); }
    case Consumer => ConsumerKeeps(s);
  }

  /** Any interleaving of the two threads, followed as long as no version wraps within one read. */
  function Run(s: State, actions: seq<Action>): State
    requires s.Invariant()
    decreases actions
  {
    if actions == [] || !s.NoWrap() then
      s
    else
      StepKeeps(s, actions[0]);
      Run(Step(s, actions[0]), actions[1..])
  }

  lemma {:induction false} RunKeeps(s: State, actions: seq<Action>)
    requires s.Invariant()
    ensures Run(s, actions).Invariant()
    decreases actions
  {
    if actions != [] && s.NoWrap() {
      StepKeeps(s, actions[0]);
      RunKeeps(Step(s, actions[0]), actions[1..]);
    }
  }

  /** What pop returned, as indices into what push was given. */
  predicate IncreasingSubsequence(pushes: seq<Frame>, pops: seq<Taken>) {
    && (forall k :: 0 <= k < |pops| ==> pops[k].index < |pushes| && pops[k].frame == pushes[pops[k].index])
    && (forall j, k :: 0 <= j < k < |pops| ==> pops[j].index < pops[k].index)
  }

  predicate IncreasingSeqs(pushes: seq<Frame>) {
    forall i, j :: 0 <= i < j < |pushes| ==> pushes[i][0] < pushes[j][0]
  }

  /** Every frame pop returns is one whole pushed frame, whatever the interleaving. */
  lemma OnlyWholeFrames(s: State, actions: seq<Action>)
    requires Initial(s)
    ensures s.Invariant()
    ensures var t := Run(s, actions);
      && t.head <= t.tail
      && (forall k ::
           0 <= k < |t.pops| ==> t.pops[k].index < |t.pushes| && t.pops[k].frame == t.pushes[t.pops[k].index])
      && (IncreasingSeqs(t.pushes) ==> IncreasingSubsequence(t.pushes, t.pops))
  {
    InitialKeeps(s);
    RunKeeps(s, actions);
    var t := Run(s, actions);
    if IncreasingSeqs(t.pushes) {
      forall j, k | 0 <= j < k < |t.pops|
        ensures t.pops[j].index < t.pops[k].index
      {
        var a, b := t.pops[j].index, t.pops[k].index;
        assert t.pops[j].frame == t.pushes[a] && t.pops[k].frame == t.pushes[b];
        assert t.pushes[a][0] < t.pushes[b][0];
      }
    }
  }

  lemma InitialKeeps(s: State)
    requires Initial(s)
    ensures s.Invariant()
  {
  }
}
