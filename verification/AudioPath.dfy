/**
 The audio path of the plugin: push_audio of native-plugin/src/ipc-bridge-core.cpp mixes a buffer down and cuts it
 into ring slots, build_audio_payload of native-plugin/src/ipc-bridge-internal.cpp turns a slot into an AUDIO payload.
 Samples are reals.
 */
module AudioPath {
  import opened Bytes
  import opened Options
  import opened Framing
  import opened Messages
  import opened Sequences
  import Arithmetic

  const MAX_SAMPLES := 1920

  datatype AudioSlot = AudioSlot(seqNo: nat, marker: int, numChannels: nat, samples: seq<real>)

  function Clamp(x: real): real {
    if x < -1.0 then -1.0 else if x > 1.0 then 1.0 else x
  }

  function Sum(xs: seq<real>): real {
    if xs == [] then 0.0 else Sum(xs[..|xs| - 1]) + xs[|xs| - 1]
  }

  function Mean(channels: seq<real>): real
    requires channels != []
  {
    Sum(channels) / |channels| as real
  }

  /** The clamped downmix of interleaved frames: one sample per whole frame, the mean of its channels. */
  function Downmix(buffer: seq<real>, numChannels: nat): (mix: seq<real>)
    requires numChannels > 0
    decreases |buffer|
  {
    if |buffer| < numChannels then []
    else [Clamp(Mean(buffer[..numChannels]))] + Downmix(buffer[numChannels..], numChannels)
  }

  lemma {:induction false} MixLength(buffer: seq<real>, numChannels: nat)
    requires numChannels > 0
    ensures |Downmix(buffer, numChannels)| == |buffer| / numChannels
    decreases |buffer|
  {
    if |buffer| >= numChannels {
      MixLength(buffer[numChannels..], numChannels);
      Arithmetic.OneFewer(|buffer|, numChannels);
    }
  }

  lemma NextFrame(frame: nat, numChannels: nat)
    ensures (frame + 1) * numChannels == frame * numChannels + numChannels
  {
  }

  /** Sample f of the mix is the mean of the channels of frame f. */
  lemma {:induction false} MixAt(buffer: seq<real>, numChannels: nat, frame: nat, first: nat)
    requires numChannels > 0 && frame < |Downmix(buffer, numChannels)| && first == frame * numChannels
    ensures first + numChannels <= |buffer|
    ensures Downmix(buffer, numChannels)[frame] == Clamp(Mean(buffer[first..first + numChannels]))
    decreases frame
  {
    if frame > 0 {
      NextFrame(frame - 1, numChannels);
      MixAt(buffer[numChannels..], numChannels, frame - 1, first - numChannels);
      assert buffer[numChannels..][first - numChannels..first] == buffer[first..first + numChannels];
    }
  }

  /** Clamping gives the nearest value in range, so what is in range stays. */
  lemma ClampIsNearest(x: real, y: real)
    requires -1.0 <= y <= 1.0
    ensures -1.0 <= Clamp(x) <= 1.0 && (-1.0 <= x <= 1.0 ==> Clamp(x) == x)
    ensures (if Clamp(x) < x then x - Clamp(x) else Clamp(x) - x) <= (if y < x then x - y else y - x)
  {
  }

  lemma {:induction false} SumBetween(xs: seq<real>, lo: real, hi: real)
    requires forall i :: 0 <= i < |xs| ==> lo <= xs[i] <= hi
    ensures |xs| as real * lo <= Sum(xs) <= |xs| as real * hi
    decreases |xs|
  {
    if xs != [] {
      SumBetween(xs[..|xs| - 1], lo, hi);
      Times((|xs| - 1) as real, lo);
      Times((|xs| - 1) as real, hi);
    }
  }

  lemma Times(n: real, x: real)
    ensures (n + 1.0) * x == n * x + x
  {
  }

  lemma {:induction false} SumAppend(xs: seq<real>, ys: seq<real>)
    ensures Sum(xs + ys) == Sum(xs) + Sum(ys)
    decreases |ys|
  {
    if ys == [] {
      assert xs + ys == xs;
    } else {
      assert (xs + ys)[..|xs + ys| - 1] == xs + ys[..|ys| - 1];
      SumAppend(xs, ys[..|ys| - 1]);
    }
  }

  lemma Grows(a: real, b: real, n: real)
    requires n > 0.0
    ensures a < b ==> a * n < b * n
  {
    assert b * n - a * n == (b - a) * n;
  }

  lemma DivideBounds(total: real, n: real, lo: real, hi: real)
    requires n > 0.0 && n * lo <= total <= n * hi
    ensures lo <= total / n <= hi
  {
    var q := total / n;
    assert q * n == total;
    Grows(q, lo, n);
    Grows(hi, q, n);
  }

  /** The mean lies between the channels, and the channels count alike: it is the mean of any order of them. */
  lemma MeanBetween(channels: seq<real>, lo: real, hi: real)
    requires channels != [] && forall i :: 0 <= i < |channels| ==> lo <= channels[i] <= hi
    ensures lo <= Mean(channels) <= hi
  {
    SumBetween(channels, lo, hi);
    DivideBounds(Sum(channels), |channels| as real, lo, hi);
  }

  lemma MeanTurns(xs: seq<real>, ys: seq<real>)
    requires xs + ys != []
    ensures ys + xs != [] && Mean(ys + xs) == Mean(xs + ys)
  {
    SumAppend(xs, ys);
    SumAppend(ys, xs);
    assert |xs + ys| == |ys + xs|;
  }

  /** Every sample of a mix is in range; equal channels within range are heard as they are. */
  lemma MixInRange(buffer: seq<real>, numChannels: nat, frame: nat, first: nat, x: real)
    requires numChannels > 0 && frame < |Downmix(buffer, numChannels)| && first == frame * numChannels
    ensures first + numChannels <= |buffer| && -1.0 <= Downmix(buffer, numChannels)[frame] <= 1.0
    ensures -1.0 <= x <= 1.0 && (forall i :: first <= i < first + numChannels ==> buffer[i] == x) ==>
              Downmix(buffer, numChannels)[frame] == x
  {
    MixAt(buffer, numChannels, frame, first);
    var channels := buffer[first..first + numChannels];
    ClampIsNearest(Mean(channels), 0.0);
    if -1.0 <= x <= 1.0 && forall i :: first <= i < first + numChannels ==> buffer[i] == x {
      MeanBetween(channels, x, x);
    }
  }

  /** fetch_add on a 64-bit sequence number. */
  function Advanced(seqNo: nat, n: nat): nat {
    (seqNo + n) % U64_LIMIT
  }

  lemma AdvancedTwice(seqNo: nat, a: nat, b: nat)
    ensures Advanced(Advanced(seqNo, a), b) == Advanced(seqNo, a + b)
  {
  }

  /** The length of the next slot. */
  function First(mix: seq<real>): (n: nat)
    ensures n <= |mix| && n <= MAX_SAMPLES
    ensures mix != [] ==> n > 0
  {
    if |mix| < MAX_SAMPLES then |mix| else MAX_SAMPLES
  }

  /** The slots of a mix: 1920 samples each as long as there are as many, numbered by their first sample. */
  function Slots(mix: seq<real>, numChannels: nat, seqNo: nat): seq<AudioSlot>
    decreases |mix|
  {
    if mix == [] then []
    else
      var n := First(mix);
      [AudioSlot(seqNo, U64_LIMIT - 1 - seqNo, numChannels, mix[..n])] +
        Slots(mix[n..], numChannels, Advanced(seqNo, n))
  }

  function Joined(slots: seq<AudioSlot>): seq<real> {
    if slots == [] then [] else slots[0].samples + Joined(slots[1..])
  }

  /** Each slot starts where the one before it ends, the first at seqNo; `end` is where the last ends. */
  predicate Contiguous(slots: seq<AudioSlot>, seqNo: nat, end: nat)
    decreases slots
  {
    if slots == [] then seqNo == end
    else slots[0].seqNo == seqNo && Contiguous(slots[1..], Advanced(seqNo, |slots[0].samples|), end)
  }

  predicate WellCut(slots: seq<AudioSlot>) {
    && (forall i :: 0 <= i < |slots| ==> 1 <= |slots[i].samples| <= MAX_SAMPLES)
    && (forall i :: 0 <= i < |slots| - 1 ==> |slots[i].samples| == MAX_SAMPLES)
    && (forall i :: 0 <= i < |slots| ==> slots[i].marker == U64_LIMIT - 1 - slots[i].seqNo)
  }

  lemma {:induction false} SlotsJoin(mix: seq<real>, numChannels: nat, seqNo: nat)
    ensures Joined(Slots(mix, numChannels, seqNo)) == mix
    decreases |mix|
  {
    if mix != [] {
      var n := First(mix);
      SlotsJoin(mix[n..], numChannels, Advanced(seqNo, n));
      assert mix[..n] + mix[n..] == mix;
    }
  }

  lemma {:induction false} SlotsSized(mix: seq<real>, numChannels: nat, seqNo: nat)
    ensures WellCut(Slots(mix, numChannels, seqNo))
    ensures forall slot :: slot in Slots(mix, numChannels, seqNo) ==> slot.numChannels == numChannels
    decreases |mix|
  {
    if mix != [] {
      var n := First(mix);
      var rest := Slots(mix[n..], numChannels, Advanced(seqNo, n));
      SlotsSized(mix[n..], numChannels, Advanced(seqNo, n));
      assert rest != [] ==> n == MAX_SAMPLES;
    }
  }

  lemma {:induction false} SlotsContiguous(mix: seq<real>, numChannels: nat, seqNo: nat)
    requires seqNo < U64_LIMIT
    ensures Contiguous(Slots(mix, numChannels, seqNo), seqNo, Advanced(seqNo, |mix|))
    decreases |mix|
  {
    if mix != [] {
      var n := First(mix);
      SlotsContiguous(mix[n..], numChannels, Advanced(seqNo, n));
      AdvancedTwice(seqNo, n, |mix[n..]|);
    }
  }

  /**
   A call of push_audio: `entered` is the answer of producer_enter, `live` that the bridge and a session are running and
   the ring is there.
   */
  datatype Call = Call(planar: Option<seq<real>>, numSamples: nat, numChannels: nat, entered: bool, live: bool) {
    predicate Legal() {
      planar.Some? ==> |planar.value| == numSamples
    }

    /** Nothing is pushed unless both hold and there is something to push. */
    predicate Pushes() {
      entered && live && planar.Some? && numSamples > 0 && numChannels > 0
    }

    function Cut(seqNo: nat): seq<AudioSlot> {
      if Pushes() then Slots(Downmix(planar.value, numChannels), numChannels, seqNo) else []
    }

    function Next(seqNo: nat): nat {
      if Pushes() then Advanced(seqNo, numSamples / numChannels) else seqNo
    }
  }

  class AudioProducer {
    /** next_audio_seq_, and every slot given to the ring. */
    var nextAudioSeq: nat
    var pushed: seq<AudioSlot>

    constructor ()
      ensures nextAudioSeq == 1 && pushed == []
    {
      nextAudioSeq, pushed := 1, [];
    }

    /** The samples of one slot. */
    method MixSlot(buffer: seq<real>, numChannels: nat, offset: nat, count: nat) returns (samples: seq<real>)
      requires numChannels > 0 && offset + count <= |Downmix(buffer, numChannels)|
      ensures samples == Downmix(buffer, numChannels)[offset..offset + count]
    {
      ghost var mix := Downmix(buffer, numChannels);
      samples := [];
      for i := 0 to count
        invariant samples == mix[offset..offset + i]
      {
        var value := MixFrame(buffer, numChannels, offset + i);
        samples := samples + [Clamp(value)];
      }
    }

    method MixFrame(buffer: seq<real>, numChannels: nat, frame: nat) returns (value: real)
      requires numChannels > 0 && frame < |Downmix(buffer, numChannels)|
      ensures Clamp(value) == Downmix(buffer, numChannels)[frame]
    {
      var first := frame * numChannels;
      MixAt(buffer, numChannels, frame, first);
      ghost var channels := buffer[first..first + numChannels];
      if numChannels == 1 {
        assert first == frame && channels == [buffer[frame]];
        assert channels[..|channels| - 1] == [];
        assert Sum(channels) == 0.0 + buffer[frame];
        return buffer[frame];
      }
      value := 0.0;
      for ch := 0 to numChannels
        invariant value == Sum(channels[..ch])
      {
        assert channels[..ch + 1][..ch] == channels[..ch];
        value := value + buffer[first + ch];
      }
      assert channels[..numChannels] == channels;
      value := value / numChannels as real;
    }

    /** push_audio */
    method PushAudio(planar: Option<seq<real>>, numSamples: nat, numChannels: nat, entered: bool, live: bool)
      requires nextAudioSeq < U64_LIMIT && Call(planar, numSamples, numChannels, entered, live).Legal()
      modifies this
      ensures nextAudioSeq < U64_LIMIT
      ensures var call := Call(planar, numSamples, numChannels, entered, live);
        && pushed == old(pushed) + call.Cut(old(nextAudioSeq))
        && nextAudioSeq == call.Next(old(nextAudioSeq))
    {
      if !entered || !live || planar.None? || numSamples == 0 || numChannels == 0 {
        return;
      }
      var totalFrames := if numChannels == 1 then numSamples else numSamples / numChannels;
      MixLength(planar.value, numChannels);
      CutSlots(planar.value, numChannels, totalFrames);
    }

    method CutSlots(buffer: seq<real>, numChannels: nat, totalFrames: nat)
      requires nextAudioSeq < U64_LIMIT && numChannels > 0 && totalFrames == |Downmix(buffer, numChannels)|
      modifies this
      ensures pushed == old(pushed) + Slots(Downmix(buffer, numChannels), numChannels, old(nextAudioSeq))
      ensures nextAudioSeq == Advanced(old(nextAudioSeq), totalFrames)
    {
      ghost var mix := Downmix(buffer, numChannels);
      var offset := 0;
      while offset < totalFrames
        invariant 0 <= offset <= totalFrames && nextAudioSeq == Advanced(old(nextAudioSeq), offset)
        invariant pushed + Slots(mix[offset..], numChannels, nextAudioSeq)
          == old(pushed) + Slots(mix, numChannels, old(nextAudioSeq))
      {
        var count := if totalFrames - offset < MAX_SAMPLES then totalFrames - offset else MAX_SAMPLES;
        var seqNo := nextAudioSeq;
        nextAudioSeq := Advanced(nextAudioSeq, count);
        AdvancedTwice(old(nextAudioSeq), offset, count);
        var samples := MixSlot(buffer, numChannels, offset, count);
        NextSlot(mix, offset, count, numChannels, seqNo);
        var slot := AudioSlot(seqNo, U64_LIMIT - 1 - seqNo, numChannels, samples);
        ConcatAssociates(pushed, [slot], Slots(mix[offset + count..], numChannels, nextAudioSeq));
        pushed := pushed + [slot];
        offset := offset + count;
      }
      assert pushed + [] == pushed;
    }
  }

  lemma NextSlot(mix: seq<real>, offset: nat, count: nat, numChannels: nat, seqNo: nat)
    requires offset < |mix| && count == First(mix[offset..])
    ensures Slots(mix[offset..], numChannels, seqNo)
         == [AudioSlot(seqNo, U64_LIMIT - 1 - seqNo, numChannels, mix[offset..offset + count])] +
           Slots(mix[offset + count..], numChannels, Advanced(seqNo, count))
  {
    assert mix[offset..][..count] == mix[offset..offset + count];
    assert mix[offset..][count..] == mix[offset + count..];
  }

  // A slot on the wire.

  /** The 64-bit product, which may wrap, over the sample rate. */
  function TimestampNs(seqNo: nat): nat {
    seqNo * 1000000000 % U64_LIMIT / 16000
  }

  /** The timestamp is the time of the first sample exactly as long as the product does not wrap. */
  lemma TimestampExactIff(seqNo: nat)
    requires seqNo < U64_LIMIT
    ensures TimestampNs(seqNo) == 62500 * seqNo <==> seqNo <= 18446744073
  {
  }

  /** llround: halves away from zero. */
  function Round(x: real): int {
    if x >= 0.0 then (x + 0.5).Floor else -((0.5 - x).Floor)
  }

  function Quantised(x: real): int {
    var i := Round(x * 32767.0);
    if i < -32768 then -32768 else if i > 32767 then 32767 else i
  }

  /** In range the quantised sample is the nearest step, and never clipped. */
  lemma QuantisedNearest(x: real)
    requires -1.0 <= x <= 1.0
    ensures -32767 <= Quantised(x) <= 32767
    ensures -0.5 <= Quantised(x) as real - x * 32767.0 <= 0.5
  {
    assert -32767.0 <= x * 32767.0 <= 32767.0;
  }

  function QuantisedAll(samples: seq<real>): (r: seq<int>)
    ensures |r| == |samples|
    ensures forall i :: 0 <= i < |samples| ==> r[i] == Quantised(samples[i])
  {
    if samples == [] then [] else [Quantised(samples[0])] + QuantisedAll(samples[1..])
  }

  /** The two low bytes of a sample, as the masks and the arithmetic shift leave them. */
  lemma SampleBytes(sample: int)
    requires -32768 <= sample <= 32767
    ensures [sample % 256, sample / 256 % 256] == PackSample(sample)
  {
    assert sample % 65536 % 256 == sample % 256;
    assert sample % 65536 / 256 == sample / 256 % 256;
    assert LittleEndian(2, sample % U16_LIMIT)[1..] == LittleEndian(1, sample % U16_LIMIT / 256);
    assert LittleEndian(1, sample % U16_LIMIT / 256)
      == [sample % U16_LIMIT / 256 % 256] + LittleEndian(0, sample % U16_LIMIT / 256 / 256);
  }

  lemma PackFront(first: int, rest: seq<int>)
    requires -32768 <= first <= 32767 && PackSamples(rest).Ok?
    ensures PackSamples([first] + rest).Ok?
    ensures PackSamples([first] + rest).value == PackSample(first) + PackSamples(rest).value
  {
    assert ([first] + rest)[1..] == rest;
  }

  /** What is left to append from sample i on. */
  function Pcm(samples: seq<real>): seq<byte>
  {
    if PackSamples(QuantisedAll(samples)).Ok? then PackSamples(QuantisedAll(samples)).value else []
  }

  lemma PcmStep(samples: seq<real>)
    requires samples != []
    ensures Pcm(samples) == PackSample(Quantised(samples[0])) + Pcm(samples[1..])
  {
    PackThenUnpack(QuantisedAll(samples[1..]));
    PackFront(Quantised(samples[0]), QuantisedAll(samples[1..]));
  }

  /** build_audio_payload: the sidecar decodes it to the slot's timestamp, length and quantised samples. */
  method BuildAudioPayload(seqNo: nat, samples: seq<real>) returns (payload: seq<byte>)
    requires |samples| <= MAX_SAMPLES && seqNo < U64_LIMIT
    ensures payload == LittleEndian(8, TimestampNs(seqNo)) + LittleEndian(4, |samples|) + Pcm(samples)
  {
    payload := LittleEndian(8, seqNo * 1000000000 % U64_LIMIT / 16000);
    payload := payload + LittleEndian(4, |samples|);
    ghost var fields := payload;
    ghost var pcm: seq<byte> := [];
    for i := 0 to |samples|
      invariant payload == fields + pcm && pcm + Pcm(samples[i..]) == Pcm(samples)
    {
      var sample := Quantised(samples[i]);
      SampleBytes(sample);
      PcmStep(samples[i..]);
      assert samples[i..][1..] == samples[i + 1..];
      ConcatAssociates(pcm, PackSample(sample), Pcm(samples[i + 1..]));
      ConcatAssociates(fields, pcm, PackSample(sample));
      payload := payload + [sample % 256, sample / 256 % 256];
      pcm := pcm + PackSample(sample);
    }
    assert samples[|samples|..] == [];
    assert pcm + [] == pcm;
  }

  lemma PcmRead(samples: seq<real>)
    ensures |Pcm(samples)| == 2 * |samples| && Samples(|samples|, Pcm(samples)) == Ok(QuantisedAll(samples))
  {
    PackThenUnpack(QuantisedAll(samples));
  }

  lemma AudioArrives(seqNo: nat, samples: seq<real>)
    requires |samples| <= MAX_SAMPLES && seqNo < U64_LIMIT
    ensures DecodeAudio(LittleEndian(8, TimestampNs(seqNo)) + LittleEndian(4, |samples|) + Pcm(samples))
         == Ok(Audio(TimestampNs(seqNo), |samples|, Pcm(samples)))
    ensures Samples(|samples|, Pcm(samples)) == Ok(QuantisedAll(samples))
  {
    PcmRead(samples);
    TimestampFits(seqNo);
    AudioDecoded(TimestampNs(seqNo), |samples|, Pcm(samples));
  }

  lemma TimestampFits(seqNo: nat)
    ensures TimestampNs(seqNo) < U64_LIMIT
  {
  }
}
