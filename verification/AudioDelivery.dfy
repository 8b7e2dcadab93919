/**
 Audio from push_audio to the sidecar: the slots of any calls, the ring they go through, and the payloads, frames and
 pipe that carry what leaves it. Push and pop do not overlap here.
 */
module AudioDelivery {
  import opened Bytes
  import opened Options
  import opened Framing
  import opened Messages
  import opened Streaming
  import opened StreamDecoder
  import opened AudioPath
  import opened Sequences
  import Ring = SeqlockRing

  // ---------- The slots of any calls ----------

  /** The slots of these calls after each other, and the next sequence number. */
  function PushedBy(calls: seq<Call>, seqNo: nat): (seq<AudioSlot>, nat)
    decreases calls
  {
    if calls == [] then ([], seqNo) else
    var (slots, next) := PushedBy(calls[1..], calls[0].Next(seqNo));
    (calls[0].Cut(seqNo) + slots, next)
  }

  predicate Legal(calls: seq<Call>) {
    forall i :: 0 <= i < |calls| ==> calls[i].Legal()
  }

  /** Slots are not empty, not too long, and marked with the complement of their number. */
  predicate Marked(slots: seq<AudioSlot>) {
    forall i :: 0 <= i < |slots| ==>
      1 <= |slots[i].samples| <= MAX_SAMPLES && slots[i].seqNo < U64_LIMIT
        && slots[i].marker == U64_LIMIT - 1 - slots[i].seqNo
  }

  lemma {:induction false} ContiguousThen(a: seq<AudioSlot>, b: seq<AudioSlot>, seqNo: nat, middle: nat, end: nat)
    requires Contiguous(a, seqNo, middle) && Contiguous(b, middle, end)
    ensures Contiguous(a + b, seqNo, end)
    decreases |a|
  {
    if a == [] {
      assert a + b == b;
    } else {
      assert (a + b)[1..] == a[1..] + b;
      ContiguousThen(a[1..], b, Advanced(seqNo, |a[0].samples|), middle, end);
    }
  }

  lemma {:induction false} SlotsMarked(mix: seq<real>, numChannels: nat, seqNo: nat)
    requires seqNo < U64_LIMIT
    ensures Marked(Slots(mix, numChannels, seqNo))
    decreases |mix|
  {
    if mix != [] {
      SlotsMarked(mix[First(mix)..], numChannels, Advanced(seqNo, First(mix)));
    }
  }

  lemma CutContiguous(call: Call, seqNo: nat)
    requires call.Legal() && seqNo < U64_LIMIT
    ensures Contiguous(call.Cut(seqNo), seqNo, call.Next(seqNo)) && Marked(call.Cut(seqNo))
    ensures call.Next(seqNo) < U64_LIMIT
  {
    if call.Pushes() {
      var mix := Downmix(call.planar.value, call.numChannels);
      MixLength(call.planar.value, call.numChannels);
      SlotsContiguous(mix, call.numChannels, seqNo);
      SlotsMarked(mix, call.numChannels, seqNo);
    }
  }

  /** Whatever is called, the slots are numbered without a gap, modulo 2^64. */
  lemma {:induction false} PushedContiguous(calls: seq<Call>, seqNo: nat)
    requires Legal(calls) && seqNo < U64_LIMIT
    ensures var (slots, next) := PushedBy(calls, seqNo);
      Contiguous(slots, seqNo, next) && Marked(slots) && next < U64_LIMIT
    decreases calls
  {
    if calls != [] {
      var middle := calls[0].Next(seqNo);
      CutContiguous(calls[0], seqNo);
      PushedContiguous(calls[1..], middle);
      ContiguousThen(calls[0].Cut(seqNo), PushedBy(calls[1..], middle).0, seqNo, middle,
        PushedBy(calls[1..], middle).1);
    }
  }

  // ---------- As frames of the ring ----------

  datatype Body = Body(numChannels: nat, samples: seq<real>)

  type AudioFrame = Ring.Frame<Body>

  function ToFrame(slot: AudioSlot): AudioFrame {
    Ring.Frame(slot.seqNo, slot.marker, Body(slot.numChannels, slot.samples))
  }

  function ToFrames(slots: seq<AudioSlot>): (frames: seq<AudioFrame>)
    ensures |frames| == |slots|
    ensures forall i :: 0 <= i < |slots| ==> frames[i] == ToFrame(slots[i])
  {
    if slots == [] then [] else [ToFrame(slots[0])] + ToFrames(slots[1..])
  }

  /** Where the last slot starts, counted without a wrap. */
  function LastStart(slots: seq<AudioSlot>, seqNo: nat): nat {
    if |slots| <= 1 then seqNo else LastStart(slots[1..], seqNo + |slots[0].samples|)
  }

  lemma {:induction false} LastStartLater(slots: seq<AudioSlot>, seqNo: nat)
    ensures LastStart(slots, seqNo) >= seqNo
    decreases |slots|
  {
    if |slots| > 1 {
      LastStartLater(slots[1..], seqNo + |slots[0].samples|);
    }
  }

  lemma OrderlyRest<T>(f: Ring.Frame<T>, rest: seq<Ring.Frame<T>>)
    requires rest != [] && Ring.Orderly([f] + rest)
    ensures f.IsConsistent() && Ring.Orderly(rest) && f.seqNo < rest[0].seqNo
  {
    var all := [f] + rest;
    assert all[0] == f && all[1] == rest[0];
    forall i, j | 0 <= i < j < |rest|
      ensures rest[i].seqNo < rest[j].seqNo
    {
      assert all[i + 1] == rest[i] && all[j + 1] == rest[j];
    }
    forall i | 0 <= i < |rest|
      ensures rest[i].IsConsistent()
    {
      assert all[i + 1] == rest[i];
    }
  }

  lemma OrderlyBefore<T>(f: Ring.Frame<T>, rest: seq<Ring.Frame<T>>)
    requires rest != [] && f.IsConsistent() && Ring.Orderly(rest) && f.seqNo < rest[0].seqNo
    ensures Ring.Orderly([f] + rest)
  {
    var all := [f] + rest;
    forall i, j | 0 <= i < j < |all|
      ensures all[i].seqNo < all[j].seqNo
    {
      assert all[j] == rest[j - 1];
      if i > 0 {
        assert all[i] == rest[i - 1];
      } else if j > 1 {
        assert rest[0].seqNo < rest[j - 1].seqNo;
      }
    }
    forall i | 0 <= i < |all|
      ensures all[i].IsConsistent()
    {
      assert i > 0 ==> all[i] == rest[i - 1];
    }
  }

  lemma OrderlyFront<T>(f: Ring.Frame<T>, rest: seq<Ring.Frame<T>>)
    requires rest != []
    ensures Ring.Orderly([f] + rest) <==> f.IsConsistent() && Ring.Orderly(rest) && f.seqNo < rest[0].seqNo
  {
    if Ring.Orderly([f] + rest) {
      OrderlyRest(f, rest);
    }
    if f.IsConsistent() && Ring.Orderly(rest) && f.seqNo < rest[0].seqNo {
      OrderlyBefore(f, rest);
    }
  }

  /** The number of the slot after one, with a wrap or without. */
  lemma NumberAfter(slot: AudioSlot, rest: seq<AudioSlot>, seqNo: nat, end: nat)
    requires rest != [] && Contiguous([slot] + rest, seqNo, end) && Marked([slot] + rest) && seqNo < U64_LIMIT
    ensures var n := |slot.samples|;
      && slot.seqNo == seqNo && Marked(rest) && ToFrame(slot).IsConsistent() && n > 0
      && rest[0].seqNo == (if seqNo + n < U64_LIMIT then seqNo + n else seqNo + n - U64_LIMIT)
      && Contiguous(rest, rest[0].seqNo, end) && rest[0].seqNo < U64_LIMIT
      && (rest[0].seqNo > seqNo <==> seqNo + n < U64_LIMIT)
  {
    var all := [slot] + rest;
    assert all[1..] == rest;
    assert all[0] == slot;
    forall i | 0 <= i < |rest|
      ensures rest[i] == all[i + 1]
    {
    }
  }

  lemma OrderlyAlone(slot: AudioSlot)
    requires ToFrame(slot).IsConsistent()
    ensures Ring.Orderly(ToFrames([slot]))
  {
    assert ToFrames([slot]) == [ToFrame(slot)];
  }

  lemma OrderlyStep(slot: AudioSlot, rest: seq<AudioSlot>, seqNo: nat)
    requires rest != [] && slot.seqNo == seqNo && ToFrame(slot).IsConsistent()
    ensures Ring.Orderly(ToFrames([slot] + rest)) <==> Ring.Orderly(ToFrames(rest)) && seqNo < rest[0].seqNo
  {
    OrderlyFront(ToFrame(slot), ToFrames(rest));
    assert ToFrames([slot] + rest) == [ToFrame(slot)] + ToFrames(rest);
  }

  lemma LastStartStep(slot: AudioSlot, rest: seq<AudioSlot>, seqNo: nat)
    requires rest != []
    ensures LastStart([slot] + rest, seqNo) == LastStart(rest, seqNo + |slot.samples|) >= seqNo + |slot.samples|
  {
    assert ([slot] + rest)[1..] == rest;
    LastStartLater(rest, seqNo + |slot.samples|);
  }

  /** The ring takes them for frames in order, with right markers, exactly as long as no number has wrapped. */
  lemma {:induction false} OrderlyIff(slots: seq<AudioSlot>, seqNo: nat, end: nat)
    requires Contiguous(slots, seqNo, end) && Marked(slots) && seqNo < U64_LIMIT
    ensures Ring.Orderly(ToFrames(slots)) <==> LastStart(slots, seqNo) < U64_LIMIT
    decreases |slots|
  {
    if slots != [] {
      var slot, rest := slots[0], slots[1..];
      assert slots == [slot] + rest;
      if rest == [] {
        OrderlyAlone(slot);
      } else {
        NumberAfter(slot, rest, seqNo, end);
        OrderlyStep(slot, rest, seqNo);
        LastStartStep(slot, rest, seqNo);
        if seqNo + |slot.samples| < U64_LIMIT {
          OrderlyIff(rest, seqNo + |slot.samples|, end);
        }
      }
    }
  }

  // ---------- On the wire ----------

  /** The message in which the sidecar gets a slot. */
  function Heard(f: AudioFrame): Message {
    Audio(TimestampNs(f.seqNo), |f.body.samples|, Pcm(f.body.samples))
  }

  /** The samples of an AUDIO message. */
  function Unpacked(m: Message): Result<seq<int>>
    requires m.Audio? && m.sampleCount >= 0
  {
    Samples(m.sampleCount, m.pcm)
  }

  function HeardAll(frames: seq<AudioFrame>): (messages: seq<Message>)
    ensures |messages| == |frames|
    ensures forall i :: 0 <= i < |frames| ==> messages[i] == Heard(frames[i])
  {
    if frames == [] then [] else [Heard(frames[0])] + HeardAll(frames[1..])
  }

  function AudioIn(messages: seq<Message>): seq<Message> {
    if messages == [] then []
    else (if messages[0].Audio? then [messages[0]] else []) + AudioIn(messages[1..])
  }

  lemma {:induction false} AudioIsIn(messages: seq<Message>, i: nat)
    requires i < |messages| && messages[i].Audio?
    ensures messages[i] in AudioIn(messages)
    decreases i
  {
    if i > 0 {
      AudioIsIn(messages[1..], i - 1);
    }
  }

  /** run_writer: an audio frame around the payload of build_audio_payload, or any other message. */
  predicate Written(m: Message, frame: seq<byte>) {
    match m
    case Audio(t, n, pcm) =>
      t >= 0 && n >= 0 && PackFrame(AUDIO, LittleEndian(8, t) + LittleEndian(4, n) + pcm) == Ok(frame)
    case _ => WellFormed(m) && Encode(m) == Ok(frame)
  }

  predicate Carried(f: AudioFrame) {
    |f.body.samples| <= MAX_SAMPLES && f.seqNo < U64_LIMIT
  }

  lemma HeardIsWellFormed(f: AudioFrame, frame: seq<byte>)
    requires Carried(f) && Written(Heard(f), frame)
    ensures WellFormed(Heard(f)) && Encode(Heard(f)) == Ok(frame)
  {
    PcmRead(f.body.samples);
    TimestampFits(f.seqNo);
    AudioRoundTrip(TimestampNs(f.seqNo), |f.body.samples|, Pcm(f.body.samples));
  }

  lemma {:induction false} ShuffledFrom<T>(a: seq<T>, b: seq<T>, all: seq<T>)
    requires Shuffles(a, b, all)
    ensures forall i :: 0 <= i < |a| ==> a[i] in all
    decreases |all|
  {
    if all != [] {
      if a != [] && a[0] == all[0] && Shuffles(a[1..], b, all[1..]) {
        ShuffledFrom(a[1..], b, all[1..]);
        assert forall i :: 0 < i < |a| ==> a[i] == a[1..][i - 1];
      } else {
        ShuffledFrom(a, b[1..], all[1..]);
      }
    }
  }

  /** What pop returns is what push_audio pushed but for the evicted slots, which are counted. */
  lemma PoppedFromCalls(calls: seq<Call>, capacity: nat, ops: seq<Ring.Op<Body>>)
    requires Legal(calls) && capacity > 0 && Ring.Puts(ops) == ToFrames(PushedBy(calls, 1).0)
    requires LastStart(PushedBy(calls, 1).0, 1) < U64_LIMIT
    ensures var (rest, popped, evicted) := Ring.RunQueue([], capacity, ops);
      var (left, out) := Ring.RunRing(Ring.Content([], None, 0), capacity, ops);
      && out == popped && left.queue == rest && left.dropped == |evicted|
      && Shuffles(popped + rest, evicted, Ring.Puts(ops))
      && forall i :: 0 <= i < |popped| ==> Carried(popped[i])
  {
    var slots := PushedBy(calls, 1).0;
    PushedContiguous(calls, 1);
    OrderlyIff(slots, 1, PushedBy(calls, 1).1);
    Ring.NewRingIsBoundedQueue(capacity, ops);
    Ring.QueueConserves([], capacity, ops);
    assert [] + Ring.Puts(ops) == Ring.Puts(ops);
    var (rest, popped, evicted) := Ring.RunQueue([], capacity, ops);
    ShuffledFrom(popped + rest, evicted, Ring.Puts(ops));
    forall i | 0 <= i < |popped|
      ensures Carried(popped[i])
    {
      assert (popped + rest)[i] == popped[i];
    }
  }

  lemma SentAreWellFormed(frames: seq<AudioFrame>, sent: seq<Message>, written: seq<seq<byte>>)
    requires forall i :: 0 <= i < |frames| ==> Carried(frames[i])
    requires AudioIn(sent) == HeardAll(frames)
    requires |written| == |sent| && forall i :: 0 <= i < |sent| ==> Written(sent[i], written[i])
    ensures forall i :: 0 <= i < |sent| ==> WellFormed(sent[i]) && Encode(sent[i]) == Ok(written[i])
  {
    forall i | 0 <= i < |sent|
      ensures WellFormed(sent[i]) && Encode(sent[i]) == Ok(written[i])
    {
      if sent[i].Audio? {
        AudioIsIn(sent, i);
        var k :| 0 <= k < |frames| && HeardAll(frames)[k] == sent[i];
        HeardIsWellFormed(frames[k], written[i]);
      }
    }
  }

  /**
   From the callbacks to the sidecar. Any calls of push_audio, until their numbers reach 2^64; any pops in between; the
   slots popped written as AUDIO frames, with any other messages among them; the bytes cut in any way. The sidecar
   decodes the messages sent, and their audio is the slots that were not evicted, in order, as far as they were popped.
   */
  lemma AudioIsDelivered(calls: seq<Call>, capacity: nat, ops: seq<Ring.Op<Body>>, sent: seq<Message>,
                         written: seq<seq<byte>>, chunks: seq<seq<byte>>)
    requires Legal(calls) && capacity > 0 && Ring.Puts(ops) == ToFrames(PushedBy(calls, 1).0)
    requires LastStart(PushedBy(calls, 1).0, 1) < U64_LIMIT
    requires AudioIn(sent) == HeardAll(Ring.RunRing(Ring.Content([], None, 0), capacity, ops).1)
    requires |written| == |sent| && forall i :: 0 <= i < |sent| ==> Written(sent[i], written[i])
    requires Concat(chunks) == Concat(written)
    ensures var (rest, popped, evicted) := Ring.RunQueue([], capacity, ops);
      && FeedAll(SidecarDecoder(), [], chunks) == Decoded(sent, [], false)
      && AudioIn(sent) == HeardAll(popped)
      && (forall i :: 0 <= i < |popped| ==> Unpacked(Heard(popped[i])) == Ok(QuantisedAll(popped[i].body.samples)))
      && Shuffles(popped + rest, evicted, ToFrames(PushedBy(calls, 1).0))
      && Ring.RunRing(Ring.Content([], None, 0), capacity, ops).0.dropped == |evicted|
  {
    PoppedFromCalls(calls, capacity, ops);
    SentAreWellFormed(Ring.RunQueue([], capacity, ops).1, sent, written);
    SentIsReceived(sent, written, chunks);
    var popped := Ring.RunQueue([], capacity, ops).1;
    forall i | 0 <= i < |popped|
      ensures Unpacked(Heard(popped[i])) == Ok(QuantisedAll(popped[i].body.samples))
    {
      PcmRead(popped[i].body.samples);
    }
  }
}
