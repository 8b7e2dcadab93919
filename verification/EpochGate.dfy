/** EpochGate of native-plugin/src/epoch_gate.cpp: which captions the plugin shows, and in what order. */
module EpochGate {
  import opened Bytes

  datatype Event = Event(epoch: nat, seqNo: nat, timestamp: nat, text: string, isFinal: bool)

  datatype Decision = Accept | DropStaleEpoch | DropOutOfOrder | DropDuplicate

  datatype Gate = Gate(active: nat, hasLast: bool, lastSeq: nat, lastTimestamp: nat, lastText: string) {
    predicate ShouldApply(epoch: nat) {
      epoch == active
    }

    function Advanced(): Gate {
      Gate((active + 1) % U32_LIMIT, false, 0, 0, "")
    }

    function Decide(e: Event): Decision {
      if !ShouldApply(e.epoch) then DropStaleEpoch
      else if hasLast && e.seqNo < lastSeq then DropOutOfOrder
      else if hasLast && e.isFinal && e.timestamp == lastTimestamp && e.text == lastText then DropDuplicate
      else Accept
    }

    /** The caption compared with the next one changes only with the sequence number or the text. */
    function After(e: Event): Gate {
      if Decide(e).Accept? && (!hasLast || e.seqNo > lastSeq || e.text != lastText) then
        Gate(active, true, e.seqNo, e.timestamp, e.text)
      else
        this
    }
  }

  class EpochGate {
    var activeEpoch: nat
    var hasLast: bool
    var lastSeq: nat
    var lastTimestamp: nat
    var lastText: string

    ghost function View(): Gate
      reads this
    {
      Gate(activeEpoch, hasLast, lastSeq, lastTimestamp, lastText)
    }

    constructor (initialEpoch: nat)
      requires initialEpoch < U32_LIMIT
      ensures View() == Gate(initialEpoch, false, 0, 0, "")
    {
      activeEpoch, hasLast, lastSeq, lastTimestamp, lastText := initialEpoch, false, 0, 0, "";
    }

    method AdvanceEpoch()
      modifies this
      ensures View() == old(View()).Advanced()
    {
      activeEpoch := (activeEpoch + 1) % U32_LIMIT;
      hasLast := false;
      lastSeq := 0;
      lastTimestamp := 0;
      lastText := "";
    }

    method Evaluate(e: Event) returns (decision: Decision)
      modifies this
      ensures decision == old(View()).Decide(e) && View() == old(View()).After(e)
    {
      if e.epoch != activeEpoch {
        return DropStaleEpoch;
      }
      if hasLast {
        if e.seqNo < lastSeq {
          return DropOutOfOrder;
        }
        if e.isFinal && e.timestamp == lastTimestamp && e.text == lastText {
          return DropDuplicate;
        }
      }
      if !hasLast || e.seqNo > lastSeq || e.text != lastText {
        lastSeq := e.seqNo;
        lastTimestamp := e.timestamp;
        lastText := e.text;
        hasLast := true;
      }
      return Accept;
    }
  }

  // Runs.

  datatype Action = Caption(event: Event) | Advance

  /** An accepted caption with the number of advances before it. */
  datatype Shown = Shown(generation: nat, event: Event)

  datatype Run = Run(gate: Gate, generation: nat, shown: seq<Shown>)

  function Step(r: Run, a: Action): Run {
    match a
    case Advance => Run(r.gate.Advanced(), r.generation + 1, r.shown)
    case Caption(e) =>
      Run(r.gate.After(e), r.generation,
        if r.gate.Decide(e).Accept? then r.shown + [Shown(r.generation, e)] else r.shown)
  }

  function RunAll(r: Run, actions: seq<Action>): Run
    decreases actions
  {
    if actions == [] then r else RunAll(Step(r, actions[0]), actions[1..])
  }

  function Started(initialEpoch: nat): Run {
    Run(Gate(initialEpoch, false, 0, 0, ""), 0, [])
  }

  /** `b` comes after `a`: in a later generation, or in the same with no smaller sequence number. */
  predicate InOrder(a: Shown, b: Shown) {
    a.generation < b.generation || (a.generation == b.generation && a.event.seqNo <= b.event.seqNo)
  }

  /** A final caption that repeats the one before it. */
  predicate Repeats(a: Shown, b: Shown) {
    a.generation == b.generation && b.event.isFinal && a.event.timestamp == b.event.timestamp
      && a.event.text == b.event.text
  }

  /** Within a generation the sequence numbers of the captions shown strictly increase. */
  ghost predicate StrictlyNumbered(shown: seq<Shown>) {
    forall i ::
      0 < i < |shown| && shown[i - 1].generation == shown[i].generation ==>
        shown[i - 1].event.seqNo < shown[i].event.seqNo
  }

  ghost predicate Ordered(shown: seq<Shown>, initialEpoch: nat) {
    && (forall i :: 0 <= i < |shown| ==> shown[i].event.epoch == (initialEpoch + shown[i].generation) % U32_LIMIT)
    && (forall i, j :: 0 <= i < j < |shown| ==> InOrder(shown[i], shown[j]))
  }

  /** What the gate remembers of the last caption shown in this generation. */
  ghost predicate Remembers(r: Run) {
    var n := |r.shown|;
    && (forall i :: 0 <= i < n ==> r.shown[i].generation <= r.generation)
    && (r.gate.hasLast <==> n > 0 && r.shown[n - 1].generation == r.generation)
    && (r.gate.hasLast ==> r.gate.lastSeq == r.shown[n - 1].event.seqNo && r.gate.lastText == r.shown[n - 1].event.text)
  }

  ghost predicate Invariant(r: Run, initialEpoch: nat) {
    && r.gate.active == (initialEpoch + r.generation) % U32_LIMIT
    && Ordered(r.shown, initialEpoch)
    && Remembers(r)
  }

  lemma NextEpoch(initialEpoch: nat, generation: nat)
    ensures ((initialEpoch + generation) % U32_LIMIT + 1) % U32_LIMIT == (initialEpoch + generation + 1) % U32_LIMIT
  {
  }

  lemma StepKeeps(r: Run, a: Action, initialEpoch: nat)
    requires Invariant(r, initialEpoch)
    ensures Invariant(Step(r, a), initialEpoch)
  {
    match a
    case Advance => NextEpoch(initialEpoch, r.generation);
    case Caption(e) =>
      var t := Step(r, a);
      forall i, j | 0 <= i < j < |t.shown|
        ensures InOrder(t.shown[i], t.shown[j])
      {
        if j < |r.shown| {
          assert InOrder(r.shown[i], r.shown[j]);
        } else if i < |r.shown| - 1 {
          assert InOrder(r.shown[i], r.shown[|r.shown| - 1]);
        }
      }
  }

  /**
   Captions are shown with the epoch active at that moment, generations never go back, and within a generation
   sequence numbers never decrease.
   */
  lemma {:induction false} ShownInOrder(r: Run, actions: seq<Action>, initialEpoch: nat)
    requires Invariant(r, initialEpoch)
    ensures Invariant(RunAll(r, actions), initialEpoch)
    decreases actions
  {
    if actions != [] {
      StepKeeps(r, actions[0], initialEpoch);
      ShownInOrder(Step(r, actions[0]), actions[1..], initialEpoch);
    }
  }

  /** From the start: every caption shown has the epoch active when it was shown, and they are in order. */
  lemma CaptionsInOrder(initialEpoch: nat, actions: seq<Action>)
    requires initialEpoch < U32_LIMIT
    ensures Ordered(RunAll(Started(initialEpoch), actions).shown, initialEpoch)
  {
    ShownInOrder(Started(initialEpoch), actions, initialEpoch);
  }

  lemma EpochsOrdered(shown: seq<Shown>, initialEpoch: nat, generation: nat, i: nat, j: nat)
    requires Ordered(shown, initialEpoch) && i < j < |shown|
    requires shown[j].generation <= generation && initialEpoch + generation < U32_LIMIT
    ensures shown[i].event.epoch <= shown[j].event.epoch
    ensures shown[i].event.epoch == shown[j].event.epoch ==> shown[i].event.seqNo <= shown[j].event.seqNo
  {
    assert InOrder(shown[i], shown[j]);
    assert shown[j].event.epoch == initialEpoch + shown[j].generation;
    assert shown[i].event.epoch == initialEpoch + shown[i].generation;
  }

  /** Without a wrap of the 32-bit epoch the epochs themselves never decrease. */
  lemma EpochsInOrder(initialEpoch: nat, actions: seq<Action>)
    requires initialEpoch + RunAll(Started(initialEpoch), actions).generation < U32_LIMIT
    ensures var shown := RunAll(Started(initialEpoch), actions).shown;
      forall i, j :: 0 <= i < j < |shown| ==>
                       && shown[i].event.epoch <= shown[j].event.epoch
                       && (shown[i].event.epoch == shown[j].event.epoch ==>
                            shown[i].event.seqNo <= shown[j].event.seqNo)
  {
    ShownInOrder(Started(initialEpoch), actions, initialEpoch);
    var t := RunAll(Started(initialEpoch), actions);
    forall i, j | 0 <= i < j < |t.shown|
      ensures t.shown[i].event.epoch <= t.shown[j].event.epoch
      ensures t.shown[i].event.epoch == t.shown[j].event.epoch ==> t.shown[i].event.seqNo <= t.shown[j].event.seqNo
    {
      EpochsOrdered(t.shown, initialEpoch, t.generation, i, j);
    }
  }

  /**
   While sequence numbers strictly increase the gate remembers the last caption shown in full, and shows no repeat.
   */
  ghost predicate NoRepeat(r: Run) {
    && Remembers(r)
    && (StrictlyNumbered(r.shown) ==>
          && (r.gate.hasLast ==> r.gate.lastTimestamp == r.shown[|r.shown| - 1].event.timestamp)
          && (forall i :: 0 < i < |r.shown| ==> !Repeats(r.shown[i - 1], r.shown[i])))
  }

  lemma StepShowsNoRepeat(r: Run, a: Action)
    requires NoRepeat(r)
    ensures NoRepeat(Step(r, a))
  {
    var t := Step(r, a);
    if t.shown != r.shown && StrictlyNumbered(t.shown) {
      var n := |r.shown|;
      forall i | 0 < i < n && r.shown[i - 1].generation == r.shown[i].generation
        ensures r.shown[i - 1].event.seqNo < r.shown[i].event.seqNo
      {
        assert t.shown[i - 1] == r.shown[i - 1] && t.shown[i] == r.shown[i];
      }
      assert StrictlyNumbered(r.shown);
      assert n > 0 && r.shown[n - 1].generation == r.generation ==> t.shown[n - 1].event.seqNo < t.shown[n].event.seqNo;
      forall i | 0 < i < |t.shown|
        ensures !Repeats(t.shown[i - 1], t.shown[i])
      {
        if i < n {
          assert !Repeats(r.shown[i - 1], r.shown[i]);
        }
      }
    }
  }

  /** With strictly increasing sequence numbers no final caption repeats the one shown just before it. */
  lemma {:induction false} NoRepeatedFinal(r: Run, actions: seq<Action>)
    requires NoRepeat(r)
    ensures NoRepeat(RunAll(r, actions))
    decreases actions
  {
    if actions != [] {
      StepShowsNoRepeat(r, actions[0]);
      NoRepeatedFinal(Step(r, actions[0]), actions[1..]);
    }
  }

  lemma NoRepeats(initialEpoch: nat, actions: seq<Action>)
    ensures var shown := RunAll(Started(initialEpoch), actions).shown;
      StrictlyNumbered(shown) ==> forall i :: 0 < i < |shown| ==> !Repeats(shown[i - 1], shown[i])
  {
    NoRepeatedFinal(Started(initialEpoch), actions);
  }

  // Exactly which captions are shown.

  /** The last captions shown that have one generation, sequence number and text: where they start. */
  function StretchStart(shown: seq<Shown>): (i: nat)
    requires shown != []
    ensures i < |shown|
    decreases |shown|
  {
    var n := |shown|;
    if n > 1 && Alike(shown[n - 2], shown[n - 1]) then StretchStart(shown[..n - 1]) else n - 1
  }

  predicate Alike(a: Shown, b: Shown) {
    a.generation == b.generation && a.event.seqNo == b.event.seqNo && a.event.text == b.event.text
  }

  /** The gate remembers the timestamp of the first of these. */
  ghost predicate RemembersTime(r: Run) {
    Remembers(r) && (r.gate.hasLast ==> r.gate.lastTimestamp == r.shown[StretchStart(r.shown)].event.timestamp)
  }

  lemma StepRemembersTime(r: Run, a: Action)
    requires RemembersTime(r)
    ensures RemembersTime(Step(r, a))
  {
    var t := Step(r, a);
    if a.Caption? && r.gate.Decide(a.event).Accept? {
      var n := |r.shown|;
      assert t.shown[..n] == r.shown;
      if r.gate.hasLast {
        assert t.shown[n - 1] == r.shown[n - 1];
      }
    }
  }

  lemma {:induction false} RunRemembersTime(r: Run, actions: seq<Action>)
    requires RemembersTime(r)
    ensures RemembersTime(RunAll(r, actions))
    decreases actions
  {
    if actions != [] {
      StepRemembersTime(r, actions[0]);
      RunRemembersTime(Step(r, actions[0]), actions[1..]);
    }
  }

  /** A caption is the next in order, and does not repeat as final what the last captions alike were first shown as. */
  predicate Fits(shown: seq<Shown>, generation: nat, e: Event) {
    shown == [] || shown[|shown| - 1].generation != generation ||
    (var last := shown[|shown| - 1].event;
      && e.seqNo >= last.seqNo
      && !(e.isFinal && e.text == last.text && e.timestamp == shown[StretchStart(shown)].event.timestamp))
  }

  /** In every run a caption is shown if and only if it has the active epoch and fits what was shown before. */
  lemma ShownIff(initialEpoch: nat, actions: seq<Action>, e: Event)
    requires initialEpoch < U32_LIMIT
    ensures var r := RunAll(Started(initialEpoch), actions);
      Step(r, Caption(e)).shown ==
      if e.epoch == (initialEpoch + r.generation) % U32_LIMIT && Fits(r.shown, r.generation, e)
      then r.shown + [Shown(r.generation, e)] else r.shown
  {
    ShownInOrder(Started(initialEpoch), actions, initialEpoch);
    RunRemembersTime(Started(initialEpoch), actions);
  }

  /** A second copy of a final caption just shown is dropped, except when the gate did not remember the first. */
  lemma CopyDroppedIff(g: Gate, e: Event)
    requires e.isFinal && g.Decide(e).Accept?
    ensures g.After(e).Decide(e).DropDuplicate? <==>
      !(g.hasLast && e.seqNo == g.lastSeq && e.text == g.lastText && e.timestamp != g.lastTimestamp)
  {
  }

  /**
   Such an exception, from the start of a session: three captions of one sequence number and text, the last two the
   same final caption, and all three shown.
   */
  lemma ShownTwice()
    ensures var first, second := Event(1, 7, 100, "hi", true), Event(1, 7, 200, "hi", true);
      RunAll(Started(1), [Caption(first)] + ([Caption(second)] + [Caption(second)])).shown
        == [Shown(0, first), Shown(0, second), Shown(0, second)]
  {
    var first, second := Event(1, 7, 100, "hi", true), Event(1, 7, 200, "hi", true);
    var r1 := Step(Started(1), Caption(first));
    var r2 := Step(r1, Caption(second));
    RunOne(Started(1), Caption(first), [Caption(second)] + [Caption(second)]);
    assert r1 == Run(Gate(1, true, 7, 100, "hi"), 0, [Shown(0, first)]);
    RunOne(r1, Caption(second), [Caption(second)]);
    assert r2 == Run(Gate(1, true, 7, 100, "hi"), 0, [Shown(0, first), Shown(0, second)]);
    assert [Caption(second)] == [Caption(second)] + [];
    RunOne(r2, Caption(second), []);
  }

  lemma RunOne(r: Run, a: Action, rest: seq<Action>)
    ensures RunAll(r, [a] + rest) == RunAll(Step(r, a), rest)
  {
    assert ([a] + rest)[1..] == rest;
  }
}
