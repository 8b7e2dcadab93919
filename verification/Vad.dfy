/**
 UtteranceSegmenter of src/obs_captions/vad.py: it cuts a stream of per-frame speech decisions, which the model
 leaves arbitrary, into utterances.
 */
module Vad {
  import opened Options

  /** Frames first..last, the last one excluded. */
  datatype Span = Span(start: nat, end: nat)

  /** The fields counted in frames: an open utterance ends after its last speech frame so far. */
  datatype Track = Track(frames: nat, open: Option<Span>, silence: nat)

  /** One decision: the new state, and the utterance it closes. */
  function Step(t: Track, speech: bool, minSilence: nat): (Track, Option<Span>) {
    var frames := t.frames + 1;
    if speech then
      (Track(frames, Some(Span(if t.open.Some? then t.open.value.start else t.frames, frames)), 0), None)
    else if t.open.None? then
      (Track(frames, None, t.silence), None)
    else if t.silence + 1 < minSilence then
      (Track(frames, t.open, t.silence + 1), None)
    else
      (Track(frames, None, 0), t.open)
  }

  /** The utterances closed by the decisions, in order, and the state after them. */
  function Process(decisions: seq<bool>, minSilence: nat): (Track, seq<Span>)
    decreases decisions
  {
    if decisions == [] then
      (Track(0, None, 0), [])
    else
      var (before, closed) := Process(decisions[..|decisions| - 1], minSilence);
      var (after, segment) := Step(before, decisions[|decisions| - 1], minSilence);
      (after, if segment.Some? then closed + [segment.value] else closed)
  }

  /** All utterances of a run that ends with a flush. */
  function Utterances(decisions: seq<bool>, minSilence: nat): seq<Span> {
    var (track, closed) := Process(decisions, minSilence);
    if track.open.Some? then closed + [track.open.value] else closed
  }

  /** The segment of an event is in milliseconds. */
  datatype VadEvent = VadEvent(isSpeech: bool, segment: Option<Span>)

  function InMs(span: Option<Span>, frameMs: nat): Option<Span> {
    if span.Some? then Some(Span(Ms(span.value.start, frameMs), Ms(span.value.end, frameMs))) else None
  }

  /** The length of so many frames: frames * frameMs. */
  function Ms(frames: nat, frameMs: nat): (ms: nat)
    ensures frames > 0 && frameMs > 0 ==> ms > 0
  {
    if frames == 0 then 0 else Ms(frames - 1, frameMs) + frameMs
  }

  lemma {:induction false} MsIsProduct(frames: nat, frameMs: nat)
    ensures Ms(frames, frameMs) == frames * frameMs
  {
    if frames > 0 {
      MsIsProduct(frames - 1, frameMs);
      assert (frames - 1) * frameMs == frames * frameMs - frameMs;
    }
  }

  /** A span in milliseconds starts and ends where its frames do. */
  lemma InMsScales(span: Span, frameMs: nat)
    ensures InMs(Some(span), frameMs) == Some(Span(span.start * frameMs, span.end * frameMs))
    ensures InMs(None, frameMs) == None
  {
    MsIsProduct(span.start, frameMs);
    MsIsProduct(span.end, frameMs);
  }

  class UtteranceSegmenter {
    const sampleRate: nat
    const frameMs: nat
    const minSilenceFrames: nat
    var frameIndex: nat
    var speechStart: Option<nat>
    var lastSpeechEnd: Option<nat>
    var silenceFrames: nat
    /** The same state counted in frames. */
    ghost var track: Track

    ghost predicate Valid()
      reads this
    {
      && frameMs > 0 && minSilenceFrames > 0
      && frameIndex == track.frames && silenceFrames == track.silence
      && match track.open
         case None => speechStart.None? && lastSpeechEnd.None?
         case Some(span) =>
           span.start < span.end <= track.frames && speechStart == Some(Ms(span.start, frameMs))
             && lastSpeechEnd == Some(Ms(span.end, frameMs))
    }

    /** The constructor refuses durations that are not positive. */
    static method Create(sampleRate: nat, frameMs: int, minSilenceMs: int) returns (made: Option<UtteranceSegmenter>)
      ensures made.Some? <==> frameMs > 0 && minSilenceMs > 0
      ensures made.Some? ==> fresh(made.value) && made.value.Valid() && made.value.track == Track(0, None, 0)
      ensures made.Some? ==> made.value.frameMs == frameMs && made.value.sampleRate == sampleRate
      ensures made.Some? ==> made.value.minSilenceFrames == if minSilenceMs < frameMs then 1 else minSilenceMs / frameMs
    {
      if frameMs <= 0 || minSilenceMs <= 0 {
        return None;
      }
      var segmenter := new UtteranceSegmenter(sampleRate, frameMs, minSilenceMs);
      return Some(segmenter);
    }

    constructor (sampleRate: nat, frameMs: nat, minSilenceMs: nat)
      requires frameMs > 0 && minSilenceMs > 0
      ensures Valid() && track == Track(0, None, 0) && this.frameMs == frameMs && this.sampleRate == sampleRate
      ensures minSilenceFrames == if minSilenceMs < frameMs then 1 else minSilenceMs / frameMs
    {
      this.sampleRate, this.frameMs := sampleRate, frameMs;
      var frames := minSilenceMs / frameMs;
      minSilenceFrames := if frames > 1 then frames else 1;
      frameIndex, speechStart, lastSpeechEnd, silenceFrames, track := 0, None, None, 0, Track(0, None, 0);
    }

    /** The `or` of the program: an end of 0 counts as no end. */
    function EndOr(fallback: nat): nat
      reads this
    {
      if lastSpeechEnd.Some? && lastSpeechEnd.value != 0 then lastSpeechEnd.value else fallback
    }

    /** `speech` is what the model says of the frame. A frame of the wrong length changes nothing. */
    method Process(byteCount: nat, speech: bool) returns (event: Option<VadEvent>)
      requires Valid()
      modifies this
      ensures Valid()
      ensures event.Some? <==> byteCount == sampleRate * frameMs / 1000 * 2
      ensures event.None? ==> track == old(track)
      ensures event.Some? ==>
        (track, event.value.segment)
          == (Step(old(track), speech, minSilenceFrames).0, InMs(Step(old(track), speech, minSilenceFrames).1, frameMs))
      ensures event.Some? ==> event.value.isSpeech == speech
    {
      if byteCount != sampleRate * frameMs / 1000 * 2 {
        return None;
      }
      var startMs := frameIndex * frameMs;
      MsIsProduct(frameIndex, frameMs);
      var endMs := startMs + frameMs;
      assert endMs == Ms(frameIndex + 1, frameMs);
      frameIndex := frameIndex + 1;
      track := Step(track, speech, minSilenceFrames).0;
      if speech {
        if speechStart.None? {
          speechStart := Some(startMs);
        }
        lastSpeechEnd := Some(endMs);
        silenceFrames := 0;
        return Some(VadEvent(true, None));
      }
      if speechStart.None? {
        return Some(VadEvent(false, None));
      }
      silenceFrames := silenceFrames + 1;
      if silenceFrames < minSilenceFrames {
        return Some(VadEvent(false, None));
      }
      var segment := Span(speechStart.value, EndOr(startMs));
      speechStart := None;
      lastSpeechEnd := None;
      silenceFrames := 0;
      return Some(VadEvent(false, Some(segment)));
    }

    method Flush() returns (segment: Option<Span>)
      requires Valid()
      modifies this
      ensures Valid() && segment == InMs(old(track).open, frameMs)
      ensures track == old(track).(open := None, silence := if old(track).open.Some? then 0 else old(track).silence)
    {
      if speechStart.None? {
        return None;
      }
      segment := Some(Span(speechStart.value, EndOr(frameIndex * frameMs)));
      speechStart := None;
      lastSpeechEnd := None;
      silenceFrames := 0;
      track := track.(open := None, silence := 0);
    }
  }

  // What the utterances of a whole run are.

  predicate Covered(spans: seq<Span>, f: nat) {
    exists i :: 0 <= i < |spans| && spans[i].start <= f < spans[i].end
  }

  /** In every stretch of `gap` frames inside the span somebody speaks. */
  ghost predicate NoLongGap(decisions: seq<bool>, span: Span, gap: nat) {
    forall x: nat {:trigger Stretch(x, span, gap)} ::
      Stretch(x, span, gap) ==> exists f :: x <= f < x + gap && f < |decisions| && decisions[f]
  }

  predicate Stretch(x: nat, span: Span, gap: nat) {
    span.start <= x && x + gap <= span.end
  }

  /** An utterance begins and ends on a speech frame and has no silence of `gap` frames or more inside. */
  ghost predicate IsUtterance(decisions: seq<bool>, span: Span, gap: nat) {
    && span.start < span.end <= |decisions|
    && decisions[span.start] && decisions[span.end - 1]
    && NoLongGap(decisions, span, gap)
  }

  /**
   The specification, of the frames from `from` on: the spans are utterances, at least `gap` frames apart and in
   order, and every speech frame is in one of them.
   */
  ghost predicate IsSegmentation(decisions: seq<bool>, spans: seq<Span>, gap: nat, from: nat) {
    && (forall i :: 0 <= i < |spans| ==> from <= spans[i].start && IsUtterance(decisions, spans[i], gap))
    && (forall i, j :: 0 <= i < j < |spans| ==> spans[i].end + gap <= spans[j].start)
    && (forall f {:trigger Covered(spans, f)} :: from <= f < |decisions| && decisions[f] ==> Covered(spans, f))
  }

  // The specification fixes the utterances.

  lemma SpeechCovered(decisions: seq<bool>, s: seq<Span>, gap: nat, from: nat, f: nat)
    requires IsSegmentation(decisions, s, gap, from) && from <= f < |decisions| && decisions[f]
    ensures Covered(s, f)
  {
  }

  lemma FirstStarts(decisions: seq<bool>, s: seq<Span>, t: seq<Span>, gap: nat, from: nat)
    requires IsSegmentation(decisions, s, gap, from) && IsSegmentation(decisions, t, gap, from) && s != []
    ensures t != [] && t[0].start <= s[0].start
  {
    assert Covered(t, s[0].start);
  }

  lemma FirstEnds(decisions: seq<bool>, s: seq<Span>, t: seq<Span>, gap: nat, from: nat)
    requires IsSegmentation(decisions, s, gap, from) && IsSegmentation(decisions, t, gap, from) && s != [] && t != []
    requires gap > 0 && s[0].start == t[0].start
    ensures s[0].end >= t[0].end
  {
    if s[0].end < t[0].end {
      var last := t[0].end - 1;
      assert Covered(s, last);
      var i :| 0 <= i < |s| && s[i].start <= last < s[i].end;
      assert s[0].end + gap <= s[i].start;
      assert Stretch(s[0].end, t[0], gap);
      var f :| s[0].end <= f < s[0].end + gap && f < |decisions| && decisions[f];
      SpeechCovered(decisions, s, gap, from, f);
    }
  }

  lemma {:induction false} SegmentationUnique(decisions: seq<bool>, s: seq<Span>, t: seq<Span>, gap: nat, from: nat)
    requires IsSegmentation(decisions, s, gap, from) && IsSegmentation(decisions, t, gap, from) && gap > 0
    ensures s == t
    decreases |s|
  {
    if s == [] {
      if t != [] {
        FirstStarts(decisions, t, s, gap, from);
      }
    } else {
      FirstStarts(decisions, s, t, gap, from);
      FirstStarts(decisions, t, s, gap, from);
      FirstEnds(decisions, s, t, gap, from);
      FirstEnds(decisions, t, s, gap, from);
      RestIsSegmentation(decisions, s, gap, from);
      RestIsSegmentation(decisions, t, gap, from);
      SegmentationUnique(decisions, s[1..], t[1..], gap, s[0].end);
      assert s == [s[0]] + s[1..] && t == [t[0]] + t[1..];
    }
  }

  lemma RestIsSegmentation(decisions: seq<bool>, s: seq<Span>, gap: nat, from: nat)
    requires IsSegmentation(decisions, s, gap, from) && s != []
    ensures IsSegmentation(decisions, s[1..], gap, s[0].end)
  {
    forall f | s[0].end <= f < |decisions| && decisions[f]
      ensures Covered(s[1..], f)
    {
      assert Covered(s, f);
      var i :| 0 <= i < |s| && s[i].start <= f < s[i].end;
      assert s[1..][i - 1] == s[i];
    }
  }

  // The segmenter meets it.

  function All(track: Track, closed: seq<Span>): seq<Span> {
    if track.open.Some? then closed + [track.open.value] else closed
  }

  /** After any decisions: the utterances so far, and how long it has been silent. */
  ghost predicate Follows(decisions: seq<bool>, track: Track, closed: seq<Span>, gap: nat) {
    && track.frames == |decisions|
    && IsSegmentation(decisions, All(track, closed), gap, 0)
    && (if track.open.Some? then track.open.value.end + track.silence == |decisions| && track.silence < gap
        else closed == [] || closed[|closed| - 1].end + gap <= |decisions|)
  }

  lemma GrowUtterance(decisions: seq<bool>, d: bool, span: Span, gap: nat)
    requires IsUtterance(decisions, span, gap)
    ensures IsUtterance(decisions + [d], span, gap)
  {
    forall x: nat | Stretch(x, span, gap)
      ensures exists f :: x <= f < x + gap && f < |decisions + [d]| && (decisions + [d])[f]
    {
      var f :| x <= f < x + gap && f < |decisions| && decisions[f];
      assert (decisions + [d])[f];
    }
  }

  /** Speech after a short silence lengthens the utterance. */
  lemma LengthenUtterance(decisions: seq<bool>, span: Span, gap: nat, silence: nat)
    requires IsUtterance(decisions, span, gap) && span.end + silence == |decisions| && silence < gap
    ensures IsUtterance(decisions + [true], Span(span.start, |decisions| + 1), gap)
  {
    var longer := Span(span.start, |decisions| + 1);
    var more := decisions + [true];
    assert more[span.start] == decisions[span.start];
    forall x: nat | Stretch(x, longer, gap)
      ensures exists f :: x <= f < x + gap && f < |more| && more[f]
    {
      if x + gap <= span.end {
        assert Stretch(x, span, gap);
        var f :| x <= f < x + gap && f < |decisions| && decisions[f];
        assert more[f];
      } else if x + gap <= |decisions| {
        assert more[span.end - 1];
      } else {
        assert more[|decisions|];
      }
    }
  }

  lemma SilenceKeeps(decisions: seq<bool>, spans: seq<Span>, gap: nat)
    requires IsSegmentation(decisions, spans, gap, 0)
    ensures IsSegmentation(decisions + [false], spans, gap, 0)
  {
    forall i | 0 <= i < |spans|
      ensures IsUtterance(decisions + [false], spans[i], gap)
    {
      GrowUtterance(decisions, false, spans[i], gap);
    }
    forall f | 0 <= f < |decisions + [false]| && (decisions + [false])[f]
      ensures Covered(spans, f)
    {
      assert decisions[f];
    }
  }

  lemma LengthenUtterances(decisions: seq<bool>, closed: seq<Span>, open: Span, gap: nat, silence: nat, i: nat)
    requires IsSegmentation(decisions, closed + [open], gap, 0) && open.end + silence == |decisions| && silence < gap
    requires i <= |closed|
    ensures IsUtterance(decisions + [true], (closed + [Span(open.start, |decisions| + 1)])[i], gap)
  {
    var spans := closed + [open];
    assert IsUtterance(decisions, spans[i], gap);
    if i < |closed| {
      GrowUtterance(decisions, true, spans[i], gap);
    } else {
      LengthenUtterance(decisions, open, gap, silence);
    }
  }

  lemma LengthenCovers(decisions: seq<bool>, closed: seq<Span>, open: Span, gap: nat, silence: nat, f: nat)
    requires IsSegmentation(decisions, closed + [open], gap, 0) && open.end + silence == |decisions|
    requires f <= |decisions| && (decisions + [true])[f]
    ensures Covered(closed + [Span(open.start, |decisions| + 1)], f)
  {
    var spans := closed + [open];
    var longer := closed + [Span(open.start, |decisions| + 1)];
    assert spans[|closed|] == open;
    if f < |decisions| {
      SpeechCovered(decisions, spans, gap, 0, f);
      var i :| 0 <= i < |spans| && spans[i].start <= f < spans[i].end;
      assert longer[i].start == spans[i].start && longer[i].end >= spans[i].end;
    } else {
      assert IsUtterance(decisions, spans[|closed|], gap);
      assert longer[|closed|].start <= f < longer[|closed|].end;
    }
  }

  lemma LengthenKeeps(decisions: seq<bool>, closed: seq<Span>, open: Span, gap: nat, silence: nat)
    requires IsSegmentation(decisions, closed + [open], gap, 0) && open.end + silence == |decisions| && silence < gap
    ensures IsSegmentation(decisions + [true], closed + [Span(open.start, |decisions| + 1)], gap, 0)
  {
    var spans := closed + [open];
    var longer := closed + [Span(open.start, |decisions| + 1)];
    forall i | 0 <= i < |longer|
      ensures IsUtterance(decisions + [true], longer[i], gap)
    {
      LengthenUtterances(decisions, closed, open, gap, silence, i);
    }
    forall i, j | 0 <= i < j < |longer|
      ensures longer[i].end + gap <= longer[j].start
    {
      assert spans[i].end + gap <= spans[j].start;
    }
    forall f | 0 <= f < |decisions + [true]| && (decisions + [true])[f]
      ensures Covered(longer, f)
    {
      LengthenCovers(decisions, closed, open, gap, silence, f);
    }
  }

  lemma NewUtterance(decisions: seq<bool>, gap: nat)
    requires gap > 0
    ensures IsUtterance(decisions + [true], Span(|decisions|, |decisions| + 1), gap)
  {
    assert (decisions + [true])[|decisions|];
  }

  lemma BeginUtterances(decisions: seq<bool>, closed: seq<Span>, gap: nat, i: nat)
    requires IsSegmentation(decisions, closed, gap, 0) && gap > 0 && i <= |closed|
    ensures IsUtterance(decisions + [true], (closed + [Span(|decisions|, |decisions| + 1)])[i], gap)
  {
    if i < |closed| {
      GrowUtterance(decisions, true, closed[i], gap);
    } else {
      NewUtterance(decisions, gap);
    }
  }

  lemma BeginCovers(decisions: seq<bool>, closed: seq<Span>, gap: nat, f: nat)
    requires IsSegmentation(decisions, closed, gap, 0) && f <= |decisions| && (decisions + [true])[f]
    ensures Covered(closed + [Span(|decisions|, |decisions| + 1)], f)
  {
    var spans := closed + [Span(|decisions|, |decisions| + 1)];
    if f < |decisions| {
      SpeechCovered(decisions, closed, gap, 0, f);
      var i :| 0 <= i < |closed| && closed[i].start <= f < closed[i].end;
      assert spans[i] == closed[i];
    } else {
      assert spans[|closed|].start <= f < spans[|closed|].end;
    }
  }

  lemma BeginSpaced(decisions: seq<bool>, closed: seq<Span>, gap: nat, i: nat, j: nat)
    requires IsSegmentation(decisions, closed, gap, 0)
    requires closed == [] || closed[|closed| - 1].end + gap <= |decisions|
    requires i < j <= |closed|
    ensures var spans := closed + [Span(|decisions|, |decisions| + 1)]; spans[i].end + gap <= spans[j].start
  {
    assert i < |closed| - 1 ==> closed[i].end + gap <= closed[|closed| - 1].start < closed[|closed| - 1].end;
  }

  lemma BeginKeeps(decisions: seq<bool>, closed: seq<Span>, gap: nat)
    requires IsSegmentation(decisions, closed, gap, 0) && gap > 0
    requires closed == [] || closed[|closed| - 1].end + gap <= |decisions|
    ensures IsSegmentation(decisions + [true], closed + [Span(|decisions|, |decisions| + 1)], gap, 0)
  {
    var spans := closed + [Span(|decisions|, |decisions| + 1)];
    forall i | 0 <= i < |spans|
      ensures IsUtterance(decisions + [true], spans[i], gap)
    {
      BeginUtterances(decisions, closed, gap, i);
    }
    forall i, j | 0 <= i < j < |spans|
      ensures spans[i].end + gap <= spans[j].start
    {
      BeginSpaced(decisions, closed, gap, i, j);
    }
    forall f | 0 <= f < |decisions + [true]| && (decisions + [true])[f]
      ensures Covered(spans, f)
    {
      BeginCovers(decisions, closed, gap, f);
    }
  }

  lemma StepFollows(decisions: seq<bool>, speech: bool, track: Track, closed: seq<Span>, gap: nat)
    requires Follows(decisions, track, closed, gap) && gap > 0
    ensures var (after, segment) := Step(track, speech, gap);
      Follows(decisions + [speech], after, if segment.Some? then closed + [segment.value] else closed, gap)
  {
    if !speech {
      SilenceKeeps(decisions, All(track, closed), gap);
    } else if track.open.Some? {
      LengthenKeeps(decisions, closed, track.open.value, gap, track.silence);
    } else {
      BeginKeeps(decisions, closed, gap);
    }
  }

  lemma {:induction false} ProcessFollows(decisions: seq<bool>, gap: nat)
    requires gap > 0
    ensures Follows(decisions, Process(decisions, gap).0, Process(decisions, gap).1, gap)
    decreases decisions
  {
    if decisions != [] {
      var before := decisions[..|decisions| - 1];
      ProcessFollows(before, gap);
      StepFollows(before, decisions[|decisions| - 1], Process(before, gap).0, Process(before, gap).1, gap);
      assert decisions == before + [decisions[|decisions| - 1]];
    }
  }

  /**
   The segmenter returns the one segmentation of the decisions: utterances that meet the specification, and no others
   do.
   */
  lemma SegmentsExactly(decisions: seq<bool>, gap: nat, spans: seq<Span>)
    requires gap > 0
    ensures IsSegmentation(decisions, spans, gap, 0) <==> spans == Utterances(decisions, gap)
  {
    ProcessFollows(decisions, gap);
    if IsSegmentation(decisions, spans, gap, 0) {
      SegmentationUnique(decisions, spans, Utterances(decisions, gap), gap, 0);
    }
  }
}
