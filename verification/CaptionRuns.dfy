/** What the caption algorithm of LocalWhisper guarantees, for one rebase and over whole utterances. */
module CaptionRuns {
  import opened Bytes
  import opened Tokens
  import opened LocalWhisper
  import opened Sequences

  // ---------- One rebase, for arbitrary hypotheses ----------

  /** The retained block is the end of the old hypothesis, at `offset` in the new one. */
  lemma RetainedBlock(previous: seq<Token>, confirmed: nat, current: seq<Token>)
    ensures var r := RebaseOf(previous, confirmed, current);
      && r.overlapStart + r.length == |previous| && r.offset + r.length <= |current|
      && previous[r.overlapStart..] == current[r.offset..r.offset + r.length]
      && r.confirmed == r.offset + Min(Max(0, confirmed - r.overlapStart), r.length)
  {
    var (length, offset) := RetainedOverlap(previous, current);
    RetainedOverlapSpec(previous, current, length, offset);
  }

  /** A token of the retained block keeps its side of the confirmed boundary. */
  lemma BoundaryKept(previous: seq<Token>, confirmed: nat, current: seq<Token>)
    ensures var r := RebaseOf(previous, confirmed, current);
      && r.overlapStart + r.length == |previous| && r.offset + r.length <= |current|
      && forall k :: r.overlapStart <= k < |previous| ==>
        var moved := r.offset + k - r.overlapStart;
        previous[k] == current[moved] && (moved < r.confirmed <==> k < confirmed)
  {
    RetainedBlock(previous, confirmed, current);
    var r := RebaseOf(previous, confirmed, current);
    var block := current[r.offset..r.offset + r.length];
    forall k | r.overlapStart <= k < |previous|
      ensures previous[k] == current[r.offset + k - r.overlapStart]
    {
      assert previous[r.overlapStart..][k - r.overlapStart] == block[k - r.overlapStart];
    }
  }

  /**
   Accounting of one rebase: the tokens not committed before it are the ones force-committed by it
   followed by the new hypothesis from the new boundary to the end of the retained block.
   */
  lemma RebaseAccounting(previous: seq<Token>, confirmed: nat, current: seq<Token>)
    ensures var r := RebaseOf(previous, confirmed, current);
      && r.offset <= r.confirmed <= r.offset + r.length <= |current|
      && From(previous, confirmed) == r.forced + current[r.confirmed..r.offset + r.length]
  {
    RetainedBlock(previous, confirmed, current);
    var r := RebaseOf(previous, confirmed, current);
    DropFromBlock(current, r.offset, r.length, r.confirmed - r.offset);
    SplitUncommitted(previous, confirmed, r.overlapStart);
  }

  lemma DropFromBlock(s: seq<Token>, offset: nat, length: nat, n: nat)
    requires n <= length && offset + length <= |s|
    ensures s[offset + n..offset + length] == s[offset..offset + length][n..]
  {
  }

  lemma SplitUncommitted(s: seq<Token>, confirmed: nat, overlapStart: nat)
    requires overlapStart <= |s|
    ensures From(s, confirmed)
         == Between(s, confirmed, overlapStart) +
           s[overlapStart..][Min(Max(0, confirmed - overlapStart), |s| - overlapStart)..]
  {
    if confirmed <= overlapStart {
      assert s[..overlapStart][confirmed..] + s[overlapStart..] == s[confirmed..];
      assert s[overlapStart..][0..] == s[overlapStart..];
    } else {
      assert Between(s, confirmed, overlapStart) == [];
      if confirmed <= |s| {
        assert s[overlapStart..][confirmed - overlapStart..] == s[confirmed..];
      }
    }
  }

  // ---------- The tokens of the finals ----------

  function FinalTokens(es: seq<Emission>): seq<Token> {
    if es == [] then []
    else (if es[0].isFinal then es[0].tokens else []) + FinalTokens(es[1..])
  }

  /** The tokens on screen as not final yet, after these callbacks. */
  function ShownTail(es: seq<Emission>): seq<Token> {
    if es == [] || es[|es| - 1].isFinal then [] else es[|es| - 1].tokens
  }

  lemma {:induction false} FinalTokensAppend(a: seq<Emission>, b: seq<Emission>)
    ensures FinalTokens(a + b) == FinalTokens(a) + FinalTokens(b)
    decreases |a|
  {
    if a == [] {
      assert a + b == b;
    } else {
      assert (a + b)[1..] == a[1..] + b;
      FinalTokensAppend(a[1..], b);
    }
  }

  lemma {:induction false} FinalsTokens(tokens: seq<Token>)
    ensures FinalTokens(Finals(tokens)) == tokens
    decreases |tokens|
  {
    if tokens != [] {
      assert Finals(tokens)[1..] == Finals(tokens[1..]);
      FinalsTokens(tokens[1..]);
    }
  }

  lemma PartialHasNoFinals(tail: seq<Token>, source: string)
    ensures FinalTokens(Partial(tail, source)) == []
  {
  }

  /** What a transcription step emits: the committed tokens once each, then the tail. */
  lemma FinalsThenPartial(tokens: seq<Token>, tail: seq<Token>, source: string)
    requires forall i :: 0 <= i < |tail| ==> tail[i] != []
    ensures var es := Finals(tokens) + Partial(tail, source);
      FinalTokens(es) == tokens && ShownTail(es) == tail
  {
    FinalTokensAppend(Finals(tokens), Partial(tail, source));
    FinalsTokens(tokens);
    PartialHasNoFinals(tail, source);
    DetokenizeEmpty(tail, source);
  }

  lemma AgreeEmits(st: State, current: seq<Token>, text: string)
    requires forall i :: 0 <= i < |current| ==> current[i] != []
    ensures var (st1, es) := Agree(st, current, text);
      var agreed := CommonPrefix(st.previous, current);
      && FinalTokens(es) == From(agreed, st.confirmed)
      && st1.previous == current && st1.confirmed == Max(st.confirmed, |agreed|)
      && ShownTail(es) == From(current, st1.confirmed)
  {
    var agreed := CommonPrefix(st.previous, current);
    FinalsThenPartial(From(agreed, st.confirmed), From(current, Max(st.confirmed, |agreed|)), text);
  }

  /**
   Without a trim only tokens standing at the same place in two consecutive hypotheses are committed, and all of them up
   to the first difference.
   */
  lemma AgreementCommits(st: State, current: seq<Token>, text: string)
    requires forall i :: 0 <= i < |current| ==> current[i] != []
    ensures var (st1, es) := Agree(st, current, text);
      && st.confirmed <= st1.confirmed
      && FinalTokens(es) == Between(current, st.confirmed, st1.confirmed)
           == Between(st.previous, st.confirmed, st1.confirmed)
      && (st1.confirmed > st.confirmed ==>
            && st1.confirmed <= |current| && st1.confirmed <= |st.previous|
            && current[..st1.confirmed] == st.previous[..st1.confirmed])
      && ShownTail(es) == From(current, st1.confirmed)
    ensures var (st1, es) := Agree(st, current, text);
      forall n :: st1.confirmed < n <= |current| && n <= |st.previous| ==> current[..n] != st.previous[..n]
  {
    var agreed := CommonPrefix(st.previous, current);
    CommonPrefixIsLongest(st.previous, current);
    AgreeEmits(st, current, text);
    var m := |agreed|;
    forall n | m < n <= |current| && n <= |st.previous|
      ensures current[..n] != st.previous[..n]
    {
      assert current[..n][m] == current[m] && st.previous[..n][m] == st.previous[m];
    }
  }

  // ---------- A whole utterance ----------

  /** The stretch of the spoken stream that a transcription covers. */
  datatype Window = Window(lo: nat, hi: nat)

  function Heard(stream: seq<Token>, w: Window): seq<Token>
    requires w.lo <= w.hi <= |stream|
  {
    stream[w.lo..w.hi]
  }

  /** Windows only move forward, start no later than the previous one ended, and start anew only after a trim. */
  predicate Follows(w: Window, next: Window, rebasePending: bool) {
    && w.lo <= next.lo <= w.hi <= next.hi
    && (next.lo != w.lo ==> rebasePending)
  }

  /** A call of feed_audio. */
  datatype Feed = Feed(pcm: seq<byte>, due: bool, heard: string)

  function FedAll(st: State, cap: nat, feeds: seq<Feed>): (State, seq<Emission>)
    decreases |feeds|
  {
    if feeds == [] then (st, []) else
    var (st1, es) := Fed(st, cap, feeds[0].pcm, feeds[0].due, feeds[0].heard);
    var (st2, later) := FedAll(st1, cap, feeds[1..]);
    (st2, es + later)
  }

  /** One call: no transcription, or one of the next window. */
  predicate HearsNext(stream: seq<Token>, w: Window, next: Window, st: State, cap: nat, f: Feed) {
    if f.pcm == [] || !f.due then next == w
    else
      && Follows(w, next, Buffered(st, cap, f.pcm).rebasePending)
      && next.hi <= |stream|
      && Tokenize(f.heard) == Heard(stream, next)
  }

  /** Every transcription made during `feeds` is a window of the stream, and `last` is the window of the last one. */
  ghost predicate HearsStream(stream: seq<Token>, w: Window, st: State, cap: nat, feeds: seq<Feed>,
                              windows: seq<Window>, last: Window)
    decreases |feeds|
  {
    && |windows| == |feeds|
    && if feeds == [] then last == w else
       var f, next := feeds[0], windows[0];
       && HearsNext(stream, w, next, st, cap, f)
       && HearsStream(stream, next, Fed(st, cap, f.pcm, f.due, f.heard).0, cap, feeds[1..], windows[1..], last)
  }

  /** Right after window `w`, with everything from `start` up to the confirmed boundary sent. */
  ghost predicate Tracks(stream: seq<Token>, start: nat, w: Window, previous: seq<Token>, confirmed: nat,
                         sent: seq<Token>) {
    && start <= w.lo <= w.hi <= |stream|
    && previous == Heard(stream, w)
    && confirmed <= w.hi - w.lo
    && sent == stream[start..w.lo + confirmed]
  }

  lemma DistinctIndex(stream: seq<Token>, i: nat, j: nat)
    requires NoDuplicates(stream) && i < |stream| && j < |stream| && stream[i] == stream[j]
    ensures i == j
  {
  }

  /** In a stream without repetitions the retained overlap is exactly where the two windows overlap. */
  lemma OverlapOfWindows(stream: seq<Token>, w: Window, next: Window)
    requires NoDuplicates(stream) && w.lo <= next.lo <= w.hi <= next.hi <= |stream|
    ensures RetainedOverlap(Heard(stream, w), Heard(stream, next)) == (w.hi - next.lo, 0)
  {
    var prev, curr := Heard(stream, w), Heard(stream, next);
    var length := w.hi - next.lo;
    assert curr[0..length] == stream[next.lo..w.hi];
    assert prev[|prev| - length..] == stream[next.lo..w.hi];
    forall l: nat, o: nat | l > 0 && Reappears(prev, curr, l, o)
      ensures l <= length && o == length - l
    {
      assert curr[o] == curr[o..o + l][0] == prev[|prev| - l..][0] == prev[|prev| - l];
      DistinctIndex(stream, next.lo + o, w.hi - l);
    }
    RetainedOverlapSpec(prev, curr, length, 0);
  }

  lemma Stretches(stream: seq<Token>, a: nat, b: nat, c: nat)
    requires a <= b <= c <= |stream|
    ensures stream[a..b] + stream[b..c] == stream[a..c]
  {
  }

  lemma BetweenInWindow(stream: seq<Token>, w: Window, i: nat, j: nat)
    requires w.lo <= w.hi <= |stream| && i <= j <= w.hi - w.lo
    ensures Between(Heard(stream, w), i, j) == stream[w.lo + i..w.lo + j]
  {
    var upTo := Heard(stream, w)[..j];
    assert Between(Heard(stream, w), i, j) == upTo[i..];
  }

  lemma RebaseOnWindows(stream: seq<Token>, w: Window, next: Window, confirmed: nat)
    requires NoDuplicates(stream) && w.lo <= next.lo <= w.hi <= next.hi <= |stream| && confirmed <= w.hi - w.lo
    ensures var r := RebaseOf(Heard(stream, w), confirmed, Heard(stream, next));
      var boundary := Max(w.lo + confirmed, next.lo);
      && r.forced == stream[w.lo + confirmed..boundary]
      && r.confirmed == boundary - next.lo
  {
    OverlapOfWindows(stream, w, next);
    var r := RebaseOf(Heard(stream, w), confirmed, Heard(stream, next));
    assert r.overlapStart == next.lo - w.lo;
    if w.lo + confirmed <= next.lo {
      BetweenInWindow(stream, w, confirmed, next.lo - w.lo);
    } else {
      assert r.forced == [];
    }
  }

  /** Sending the stretch up to the new boundary and showing the rest of the window keeps track. */
  lemma SentUpTo(stream: seq<Token>, start: nat, w: Window, next: Window, previous: seq<Token>, confirmed: nat,
                 sent: seq<Token>, boundary: nat)
    requires Tracks(stream, start, w, previous, confirmed, sent)
    requires w.lo <= next.lo && w.lo + confirmed <= boundary && next.lo <= boundary <= next.hi <= |stream|
    ensures var sent1 := sent + stream[w.lo + confirmed..boundary];
      && Tracks(stream, start, next, Heard(stream, next), boundary - next.lo, sent1)
      && sent1 + From(Heard(stream, next), boundary - next.lo) == stream[start..next.hi]
  {
    Stretches(stream, start, w.lo + confirmed, boundary);
    assert From(Heard(stream, next), boundary - next.lo) == stream[boundary..next.hi];
    Stretches(stream, start, boundary, next.hi);
  }

  lemma RebaseTracks(stream: seq<Token>, start: nat, w: Window, next: Window, previous: seq<Token>, confirmed: nat,
                     sent: seq<Token>)
    requires NoDuplicates(stream) && Tracks(stream, start, w, previous, confirmed, sent)
    requires w.lo <= next.lo <= w.hi <= next.hi <= |stream|
    ensures var r := RebaseOf(previous, confirmed, Heard(stream, next));
      && Tracks(stream, start, next, Heard(stream, next), r.confirmed, sent + r.forced)
      && sent + r.forced + From(Heard(stream, next), r.confirmed) == stream[start..next.hi]
  {
    RebaseOnWindows(stream, w, next, confirmed);
    SentUpTo(stream, start, w, next, previous, confirmed, sent, Max(w.lo + confirmed, next.lo));
  }

  lemma AgreeOnWindows(stream: seq<Token>, w: Window, next: Window)
    requires w.lo == next.lo <= w.hi <= next.hi <= |stream|
    ensures CommonPrefix(Heard(stream, w), Heard(stream, next)) == Heard(stream, w)
  {
    LongestIsCommonPrefix(Heard(stream, w), Heard(stream, next), w.hi - w.lo);
    assert Heard(stream, next)[..w.hi - w.lo] == Heard(stream, w);
  }

  lemma AgreeTracks(stream: seq<Token>, start: nat, w: Window, next: Window, previous: seq<Token>, confirmed: nat,
                    sent: seq<Token>)
    requires Tracks(stream, start, w, previous, confirmed, sent)
    requires w.lo == next.lo && w.hi <= next.hi <= |stream|
    ensures var agreed := CommonPrefix(previous, Heard(stream, next));
      var boundary := Max(confirmed, |agreed|);
      && Tracks(stream, start, next, Heard(stream, next), boundary, sent + From(agreed, confirmed))
      && sent + From(agreed, confirmed) + From(Heard(stream, next), boundary) == stream[start..next.hi]
  {
    AgreeOnWindows(stream, w, next);
    var agreed := CommonPrefix(previous, Heard(stream, next));
    assert |agreed| == w.hi - w.lo && Max(confirmed, |agreed|) == w.hi - next.lo;
    assert From(agreed, confirmed) == stream[w.lo + confirmed..w.hi];
    SentUpTo(stream, start, w, next, previous, confirmed, sent, w.hi);
  }

  lemma EmptyTracks(stream: seq<Token>, start: nat, w: Window, next: Window, previous: seq<Token>, confirmed: nat,
                    rebasePending: bool, sent: seq<Token>)
    requires Tracks(stream, start, w, previous, confirmed, sent) && Follows(w, next, rebasePending)
    requires next.lo == next.hi <= |stream|
    ensures var forced := if rebasePending then From(previous, confirmed) else [];
      && Tracks(stream, start, next, [], 0, sent + forced)
      && sent + forced == stream[start..next.hi]
  {
    assert From(previous, confirmed) == stream[w.lo + confirmed..w.hi];
    Stretches(stream, start, w.lo + confirmed, w.hi);
  }

  // ---------- From token lists to callbacks ----------

  lemma RebaseEmits(st: State, current: seq<Token>, text: string)
    requires forall i :: 0 <= i < |current| ==> current[i] != []
    ensures var (st1, es) := Rebase(st, current, text);
      var r := RebaseOf(st.previous, st.confirmed, current);
      && FinalTokens(es) == r.forced
      && st1.previous == current && st1.confirmed == r.confirmed
      && ShownTail(es) == From(current, r.confirmed)
  {
    var r := RebaseOf(st.previous, st.confirmed, current);
    FinalsThenPartial(r.forced, From(current, r.confirmed), text);
  }

  lemma EmptyEmits(st: State)
    ensures var (st1, es) := EmptyWindow(st);
      && FinalTokens(es) == (if st.rebasePending then From(st.previous, st.confirmed) else [])
      && st1.previous == [] && st1.confirmed == 0
      && ShownTail(es) == []
  {
    FinalsTokens(From(st.previous, st.confirmed));
  }

  /** What one transcription of tokens `current` commits, leaves on screen and remembers. */
  datatype Effect = Effect(previous: seq<Token>, confirmed: nat, committed: seq<Token>, tail: seq<Token>)

  function EffectOf(previous: seq<Token>, confirmed: nat, rebasePending: bool, current: seq<Token>): Effect {
    if current == [] then
      Effect([], 0, if rebasePending then From(previous, confirmed) else [], [])
    else if rebasePending then
      var r := RebaseOf(previous, confirmed, current);
      Effect(current, r.confirmed, r.forced, From(current, r.confirmed))
    else
      var agreed := CommonPrefix(previous, current);
      var boundary := Max(confirmed, |agreed|);
      Effect(current, boundary, From(agreed, confirmed), From(current, boundary))
  }

  /** A transcription acts on its tokens only; the text it leaves is the one those tokens come from. */
  lemma TranscribedEmits(st: State, heard: string)
    ensures var (st1, es) := Transcribed(st, heard);
      && Effect(st1.previous, st1.confirmed, FinalTokens(es), ShownTail(es))
           == EffectOf(st.previous, st.confirmed, st.rebasePending, Tokenize(heard))
      && Tokenize(st1.latest) == st1.previous
      && st1.buffer == st.buffer && !st1.rebasePending
  {
    var text, current := Strip(heard), Tokenize(heard);
    TokenizeStripped(heard);
    if current == [] {
      EmptyEmits(st);
      assert Tokenize("") == [];
    } else if st.rebasePending {
      RebaseEmits(st, current, text);
    } else {
      AgreeEmits(st, current, text);
    }
  }

  /**
   One transcription of the next window keeps track: nothing is skipped, nothing is sent twice, and all of the window is
   on screen.
   */
  lemma EffectTracks(stream: seq<Token>, start: nat, w: Window, next: Window, previous: seq<Token>, confirmed: nat,
                     rebasePending: bool, sent: seq<Token>)
    requires NoDuplicates(stream) && Tracks(stream, start, w, previous, confirmed, sent)
    requires Follows(w, next, rebasePending)
    requires next.hi <= |stream|
    ensures var e := EffectOf(previous, confirmed, rebasePending, Heard(stream, next));
      && Tracks(stream, start, next, e.previous, e.confirmed, sent + e.committed)
      && sent + e.committed + e.tail == stream[start..next.hi]
  {
    if next.lo == next.hi {
      EmptyTracks(stream, start, w, next, previous, confirmed, rebasePending, sent);
    } else if rebasePending {
      RebaseTracks(stream, start, w, next, previous, confirmed, sent);
    } else {
      AgreeTracks(stream, start, w, next, previous, confirmed, sent);
    }
  }

  lemma FedTracks(stream: seq<Token>, start: nat, w: Window, next: Window, st: State, cap: nat, f: Feed,
                  sent: seq<Token>)
    requires NoDuplicates(stream) && Tracks(stream, start, w, st.previous, st.confirmed, sent)
    requires HearsNext(stream, w, next, st, cap, f)
    ensures var (st1, es) := Fed(st, cap, f.pcm, f.due, f.heard);
      Tracks(stream, start, next, st1.previous, st1.confirmed, sent + FinalTokens(es))
  {
    if f.pcm != [] && f.due {
      var st1 := Buffered(st, cap, f.pcm);
      TranscribedEmits(st1, f.heard);
      EffectTracks(stream, start, w, next, st.previous, st.confirmed, st1.rebasePending, sent);
    } else {
      assert sent + FinalTokens([]) == sent;
    }
  }

  lemma {:induction false} FeedsTrack(stream: seq<Token>, start: nat, w: Window, st: State, cap: nat, feeds: seq<Feed>,
                                      windows: seq<Window>, last: Window, sent: seq<Token>)
    requires NoDuplicates(stream) && Tracks(stream, start, w, st.previous, st.confirmed, sent)
    requires HearsStream(stream, w, st, cap, feeds, windows, last)
    ensures var (st1, es) := FedAll(st, cap, feeds);
      Tracks(stream, start, last, st1.previous, st1.confirmed, sent + FinalTokens(es))
    decreases |feeds|
  {
    if feeds == [] {
      assert sent + FinalTokens([]) == sent;
    } else {
      var f := feeds[0];
      FedTracks(stream, start, w, windows[0], st, cap, f, sent);
      var (st1, es) := Fed(st, cap, f.pcm, f.due, f.heard);
      FeedsTrack(stream, start, windows[0], st1, cap, feeds[1..], windows[1..], last, sent + FinalTokens(es));
      SentAndLater(sent, es, FedAll(st1, cap, feeds[1..]).1);
    }
  }

  lemma SentAndLater(sent: seq<Token>, es: seq<Emission>, later: seq<Emission>)
    ensures sent + FinalTokens(es + later) == sent + FinalTokens(es) + FinalTokens(later)
  {
    FinalTokensAppend(es, later);
    assert sent + (FinalTokens(es) + FinalTokens(later)) == sent + FinalTokens(es) + FinalTokens(later);
  }

  lemma FlushedTokens(st: State, heard: string)
    requires st.buffer != []
    ensures var (st1, es) := Flushed(st, heard);
      var e := EffectOf(st.previous, st.confirmed, st.rebasePending, Tokenize(heard));
      FinalTokens(es) == e.committed + From(e.previous, e.confirmed) && Fresh(st1)
  {
    TranscribedEmits(st, heard);
    var (st1, es) := Transcribed(st, heard);
    ResidualTokens(st1);
    FinalTokensAppend(es, Residual(st1));
  }

  lemma EffectTail(previous: seq<Token>, confirmed: nat, rebasePending: bool, current: seq<Token>)
    ensures var e := EffectOf(previous, confirmed, rebasePending, current); From(e.previous, e.confirmed) == e.tail
  {
  }

  lemma FlushTracks(stream: seq<Token>, start: nat, last: Window, closing: Window, st: State, heard: string,
                    sent: seq<Token>)
    requires NoDuplicates(stream) && Tracks(stream, start, last, st.previous, st.confirmed, sent)
    requires Follows(last, closing, st.rebasePending) && st.buffer != []
    requires closing.hi <= |stream| && Tokenize(heard) == Heard(stream, closing)
    ensures start <= closing.hi
    ensures var (st1, es) := Flushed(st, heard);
      sent + FinalTokens(es) == stream[start..closing.hi] && Fresh(st1)
  {
    FlushedTokens(st, heard);
    EffectThenRest(stream, start, last, closing, st.previous, st.confirmed, st.rebasePending, sent);
  }

  lemma EffectThenRest(stream: seq<Token>, start: nat, last: Window, closing: Window, previous: seq<Token>,
                       confirmed: nat, rebasePending: bool, sent: seq<Token>)
    requires NoDuplicates(stream) && Tracks(stream, start, last, previous, confirmed, sent)
    requires Follows(last, closing, rebasePending) && closing.hi <= |stream|
    ensures var e := EffectOf(previous, confirmed, rebasePending, Heard(stream, closing));
      sent + (e.committed + From(e.previous, e.confirmed)) == stream[start..closing.hi]
  {
    var e := EffectOf(previous, confirmed, rebasePending, Heard(stream, closing));
    EffectTracks(stream, start, last, closing, previous, confirmed, rebasePending, sent);
    EffectTail(previous, confirmed, rebasePending, Heard(stream, closing));
    assert sent + (e.committed + e.tail) == sent + e.committed + e.tail;
  }

  /** The state a segment starts in. */
  predicate Fresh(st: State) {
    st.buffer == [] && st.previous == [] && st.confirmed == 0 && st.latest == "" && !st.rebasePending
  }

  /** Audio that was fed is still in the buffer when the segment is flushed. */
  lemma {:induction false} BufferHolds(st: State, cap: nat, feeds: seq<Feed>)
    requires cap >= 1
    ensures FedAll(st, cap, feeds).0.buffer == [] <==>
      st.buffer == [] && forall i :: 0 <= i < |feeds| ==> feeds[i].pcm == []
    decreases |feeds|
  {
    if feeds != [] {
      var f := feeds[0];
      BufferHolds(Fed(st, cap, f.pcm, f.due, f.heard).0, cap, feeds[1..]);
      assert forall i :: 0 < i < |feeds| ==> feeds[i] == feeds[1..][i - 1];
    }
  }

  /**
   Exactly-once captions. If every transcription of an utterance is a window of one stream of pairwise distinct
   tokens, the windows move forward as Follows says, and the utterance is closed by a flush, then the tokens sent
   to on_final are the stream from the first window's start to the last window's end, each once and in order,
   and the backend is ready for the next utterance.
   */
  lemma ExactlyOnce(stream: seq<Token>, start: nat, st: State, cap: nat, feeds: seq<Feed>, windows: seq<Window>,
                    last: Window, closing: Window, heard: string)
    requires NoDuplicates(stream) && start <= |stream| && Fresh(st) && cap >= 1
    requires HearsStream(stream, Window(start, start), st, cap, feeds, windows, last)
    requires exists i :: 0 <= i < |feeds| && feeds[i].pcm != []
    requires Follows(last, closing, FedAll(st, cap, feeds).0.rebasePending)
    requires closing.hi <= |stream| && Tokenize(heard) == Heard(stream, closing)
    ensures start <= closing.hi
    ensures var (st1, es1) := FedAll(st, cap, feeds);
      var (st2, es2) := Flushed(st1, heard);
      && FinalTokens(es1 + es2) == stream[start..closing.hi]
      && Fresh(st2)
  {
    var (st1, es1) := FedAll(st, cap, feeds);
    BufferHolds(st, cap, feeds);
    assert Tracks(stream, start, Window(start, start), st.previous, st.confirmed, []);
    FeedsTrack(stream, start, Window(start, start), st, cap, feeds, windows, last, []);
    assert [] + FinalTokens(es1) == FinalTokens(es1);
    FlushTracks(stream, start, last, closing, st1, heard, FinalTokens(es1));
    FinalTokensAppend(es1, Flushed(st1, heard).1);
  }

  lemma ResidualTokens(st: State)
    ensures FinalTokens(Residual(st)) == From(Tokenize(st.latest), st.confirmed)
  {
    DetokenizeEmpty(From(Tokenize(st.latest), st.confirmed), st.latest);
  }
}
