/**
 LocalWhisperBackend of src/obs_captions/stt/local_whisper.py: incremental captions out of a
 rolling audio window that is transcribed again and again. The transcriber is an oracle: what
 it returns is a parameter of each call.
 */
module LocalWhisper {
  import opened Bytes
  import opened Tokens

  /** A call of on_partial or on_final. */
  datatype Transcript = Transcript(text: string, isFinal: bool)

  /** A transcript together with the tokens it shows. */
  datatype Emission = Emission(tokens: seq<Token>, text: string, isFinal: bool)

  datatype State = State(
    buffer: seq<byte>,
    previous: seq<Token>,
    confirmed: nat,
    latest: string,
    confirmedText: string,
    rebasePending: bool)

  /** Python's s[i:], s[:i] and s[i:j]. */
  function From<T>(s: seq<T>, i: nat): seq<T> {
    if i <= |s| then s[i..] else []
  }

  function UpTo<T>(s: seq<T>, i: nat): seq<T> {
    if i <= |s| then s[..i] else s
  }

  function Between<T>(s: seq<T>, i: nat, j: nat): seq<T> {
    From(UpTo(s, j), i)
  }

  function Min(a: int, b: int): int {
    if a < b then a else b
  }

  function Max(a: int, b: int): int {
    if a < b then b else a
  }

  // ---------- local_agreement ----------

  function CommonPrefix(prev: seq<Token>, curr: seq<Token>): seq<Token> {
    if prev == [] || curr == [] || prev[0] != curr[0] then []
    else [curr[0]] + CommonPrefix(prev[1..], curr[1..])
  }

  /** The agreed tokens are a prefix of both hypotheses, and the longest one. */
  lemma {:induction false} CommonPrefixIsLongest(prev: seq<Token>, curr: seq<Token>)
    ensures var n := |CommonPrefix(prev, curr)|;
      && n <= |prev| && n <= |curr|
      && CommonPrefix(prev, curr) == prev[..n] == curr[..n]
      && (n == |prev| || n == |curr| || prev[n] != curr[n])
  {
    if prev != [] && curr != [] && prev[0] == curr[0] {
      CommonPrefixIsLongest(prev[1..], curr[1..]);
      var n := |CommonPrefix(prev[1..], curr[1..])|;
      assert prev[..n + 1] == [prev[0]] + prev[1..][..n];
      assert curr[..n + 1] == [curr[0]] + curr[1..][..n];
    }
  }

  lemma {:induction false} LongestIsCommonPrefix(prev: seq<Token>, curr: seq<Token>, n: nat)
    requires n <= |prev| && n <= |curr|
    requires forall k :: 0 <= k < n ==> prev[k] == curr[k]
    requires n == |prev| || n == |curr| || prev[n] != curr[n]
    ensures CommonPrefix(prev, curr) == curr[..n]
  {
    if n > 0 {
      LongestIsCommonPrefix(prev[1..], curr[1..], n - 1);
      assert curr[..n] == [curr[0]] + curr[1..][..n - 1];
    }
  }

  /** local_agreement */
  method LocalAgreement(prev: seq<Token>, curr: seq<Token>, n: int) returns (agreed: seq<Token>)
    ensures agreed == if n <= 1 then curr else if n > 2 then [] else CommonPrefix(prev, curr)
  {
    if n <= 1 {
      return curr;
    }
    if n > 2 {
      return [];
    }
    agreed := [];
    var i := 0;
    while i < |prev| && i < |curr| && prev[i] == curr[i]
      invariant 0 <= i <= |prev| && i <= |curr|
      invariant forall k :: 0 <= k < i ==> prev[k] == curr[k]
      invariant agreed == curr[..i]
    {
      agreed := agreed + [curr[i]];
      i := i + 1;
    }
    LongestIsCommonPrefix(prev, curr, i);
  }

  // ---------- _retained_overlap ----------

  /** The last `length` tokens of `prev` stand in `curr` at `offset`. */
  predicate Reappears(prev: seq<Token>, curr: seq<Token>, length: nat, offset: nat) {
    && length <= |prev|
    && offset + length <= |curr|
    && curr[offset..offset + length] == prev[|prev| - length..]
  }

  /** The longest suffix of `prev` that reappears in `curr`, at its rightmost place; (0, 0) when none does. */
  ghost predicate IsRetainedOverlap(prev: seq<Token>, curr: seq<Token>, length: nat, offset: nat) {
    && (length == 0 ==> offset == 0)
    && (length > 0 ==> Reappears(prev, curr, length, offset))
    && (forall l: nat, o: nat :: l > length ==> !Reappears(prev, curr, l, o))
    && (forall o: nat :: length > 0 && o > offset ==> !Reappears(prev, curr, length, o))
  }

  /** The rightmost place below `bound` where the suffix reappears, or -1. */
  function RightmostBelow(prev: seq<Token>, curr: seq<Token>, length: nat, bound: nat): (r: int)
    ensures -1 <= r < bound
    ensures r >= 0 ==> Reappears(prev, curr, length, r)
    ensures forall o: nat :: r < o < bound ==> !Reappears(prev, curr, length, o)
  {
    if bound == 0 then -1
    else if Reappears(prev, curr, length, bound - 1) then bound - 1
    else RightmostBelow(prev, curr, length, bound - 1)
  }

  function OverlapUpTo(prev: seq<Token>, curr: seq<Token>, length: nat): (nat, nat)
    decreases length
  {
    if length == 0 then (0, 0) else
    var offset := RightmostBelow(prev, curr, length, |curr| + 1);
    if offset >= 0 then (length, offset) else OverlapUpTo(prev, curr, length - 1)
  }

  function RetainedOverlap(prev: seq<Token>, curr: seq<Token>): (nat, nat) {
    OverlapUpTo(prev, curr, Min(|prev|, |curr|))
  }

  lemma {:induction false} OverlapUpToSpec(prev: seq<Token>, curr: seq<Token>, length: nat)
    requires forall l: nat, o: nat :: l > length ==> !Reappears(prev, curr, l, o)
    ensures IsRetainedOverlap(prev, curr, OverlapUpTo(prev, curr, length).0, OverlapUpTo(prev, curr, length).1)
    decreases length
  {
    if length > 0 {
      var offset := RightmostBelow(prev, curr, length, |curr| + 1);
      if offset < 0 {
        OverlapUpToSpec(prev, curr, length - 1);
      }
    }
  }

  /** What _retained_overlap promises, and nothing else satisfies it. */
  lemma RetainedOverlapSpec(prev: seq<Token>, curr: seq<Token>, length: nat, offset: nat)
    ensures IsRetainedOverlap(prev, curr, length, offset) <==> RetainedOverlap(prev, curr) == (length, offset)
  {
    OverlapUpToSpec(prev, curr, Min(|prev|, |curr|));
    var r := RetainedOverlap(prev, curr);
    assert r.0 > 0 ==> Reappears(prev, curr, r.0, r.1);
    assert IsRetainedOverlap(prev, curr, length, offset) && length > 0 ==> Reappears(prev, curr, length, offset);
  }

  /** _retained_overlap */
  method FindRetainedOverlap(prev: seq<Token>, curr: seq<Token>) returns (length: nat, offset: nat)
    ensures (length, offset) == RetainedOverlap(prev, curr)
  {
    length := Min(|prev|, |curr|);
    while length > 0
      invariant length <= |prev| && length <= |curr|
      invariant RetainedOverlap(prev, curr) == OverlapUpTo(prev, curr, length)
    {
      var suffix := prev[|prev| - length..];
      var found := -1;
      var start := 0;
      while start < |curr| - length + 1
        invariant 0 <= start <= |curr| - length + 1
        invariant found == RightmostBelow(prev, curr, length, start)
      {
        if curr[start..start + length] == suffix {
          found := start;
        }
        start := start + 1;
      }
      NoneBeyond(prev, curr, length, start);
      if found >= 0 {
        return length, found;
      }
      length := length - 1;
    }
    offset := 0;
  }

  lemma NoneBeyond(prev: seq<Token>, curr: seq<Token>, length: nat, bound: nat)
    requires 0 < length <= |prev| && length <= |curr| && bound == |curr| - length + 1
    ensures RightmostBelow(prev, curr, length, |curr| + 1) == RightmostBelow(prev, curr, length, bound)
  {
    var r := RightmostBelow(prev, curr, length, |curr| + 1);
    var s := RightmostBelow(prev, curr, length, bound);
    assert r >= 0 ==> r < bound;
    assert s >= 0 ==> Reappears(prev, curr, length, s);
  }

  // ---------- One transcription ----------

  /** One on_final for each token. */
  function Finals(tokens: seq<Token>): (es: seq<Emission>)
    ensures |es| == |tokens|
  {
    seq(|tokens|, i requires 0 <= i < |tokens| => Emission([tokens[i]], tokens[i], true))
  }

  /** An on_partial for the tail, if there is anything to show. */
  function Partial(tail: seq<Token>, source: string): seq<Emission> {
    var text := Detokenize(tail, source);
    if text != [] then [Emission(tail, text, false)] else []
  }

  /** _handle_empty_window */
  function EmptyWindow(st: State): (State, seq<Emission>) {
    (st.(previous := [], confirmed := 0, latest := "", confirmedText := "", rebasePending := false),
     if st.rebasePending then Finals(From(st.previous, st.confirmed)) else [])
  }

  /** Where the confirmed boundary lands in the new hypothesis, and what is committed as a last chance. */
  datatype Rebased = Rebased(overlapStart: nat, length: nat, offset: nat, confirmed: nat, forced: seq<Token>)

  function RebaseOf(previous: seq<Token>, confirmed: nat, current: seq<Token>): (r: Rebased) {
    var (length, offset) := RetainedOverlap(previous, current);
    var overlapStart := if length > 0 && length <= |previous| then |previous| - length else |previous|;
    var survivors := Min(Max(0, confirmed - overlapStart), length);
    var boundary := if survivors > 0 then offset + survivors else if length > 0 then offset else 0;
    Rebased(overlapStart, length, offset, boundary, Between(previous, confirmed, overlapStart))
  }

  /** _rebase_after_trim */
  function Rebase(st: State, current: seq<Token>, text: string): (State, seq<Emission>) {
    var r := RebaseOf(st.previous, st.confirmed, current);
    var confirmedText := if r.confirmed > 0 then Detokenize(UpTo(current, r.confirmed), text) else "";
    (st.(previous := current, confirmed := r.confirmed, latest := text, confirmedText := confirmedText,
      rebasePending := false),
     Finals(r.forced) + Partial(From(current, r.confirmed), text))
  }

  /** The LocalAgreement-2 step: commit what two consecutive hypotheses agree on. */
  function Agree(st: State, current: seq<Token>, text: string): (State, seq<Emission>) {
    var agreed := CommonPrefix(st.previous, current);
    var confirmed := Max(st.confirmed, |agreed|);
    var confirmedText := if confirmed > 0 then Detokenize(UpTo(current, confirmed), text) else st.confirmedText;
    (st.(previous := current, confirmed := confirmed, latest := text, confirmedText := confirmedText),
     Finals(From(agreed, st.confirmed)) + Partial(From(current, confirmed), text))
  }

  /** _emit_partial_from_buffer, on what the transcriber returned. */
  function Transcribed(st: State, heard: string): (State, seq<Emission>) {
    var text := Strip(heard);
    if text == [] then EmptyWindow(st)
    else if st.rebasePending then Rebase(st, Tokenize(text), text)
    else Agree(st, Tokenize(text), text)
  }

  // ---------- feed_audio, flush ----------

  /** feed_audio up to the transcription: the buffer keeps its most recent bytes, a trim flags a rebase. */
  function Buffered(st: State, cap: nat, pcm: seq<byte>): State {
    var st1 := if st.buffer == [] then st.(confirmedText := "") else st;
    var buffer := st.buffer + pcm;
    if |buffer| <= cap then st1.(buffer := buffer)
    else st1.(buffer := buffer[|buffer| - cap..], rebasePending := true)
  }

  function Fed(st: State, cap: nat, pcm: seq<byte>, due: bool, heard: string): (State, seq<Emission>) {
    if pcm == [] then (st, [])
    else
      var st1 := Buffered(st, cap, pcm);
      if due then Transcribed(st1, heard) else (st1, [])
  }

  function Reset(st: State): State {
    State([], [], 0, "", st.confirmedText, false)
  }

  function Residual(st: State): seq<Emission> {
    var tail := From(Tokenize(st.latest), st.confirmed);
    var text := Detokenize(tail, st.latest);
    if text != [] then [Emission(tail, text, true)] else []
  }

  function Flushed(st: State, heard: string): (State, seq<Emission>) {
    if st.buffer == [] then (Reset(st), [])
    else
      var (st1, es) := Transcribed(st, heard);
      (Reset(st1), es + Residual(st1))
  }

  /** The log after the callbacks for `es`. */
  function Sent(log: seq<Transcript>, es: seq<Emission>): seq<Transcript>
    decreases |es|
  {
    if es == [] then log else Sent(log + [Transcript(es[0].text, es[0].isFinal)], es[1..])
  }

  lemma {:induction false} SentAppend(log: seq<Transcript>, a: seq<Emission>, b: seq<Emission>)
    ensures Sent(log, a + b) == Sent(Sent(log, a), b)
    decreases |a|
  {
    if a == [] {
      assert a + b == b;
    } else {
      assert (a + b)[1..] == a[1..] + b;
      SentAppend(log + [Transcript(a[0].text, a[0].isFinal)], a[1..], b);
    }
  }

  lemma SentOneMore(log: seq<Transcript>, tokens: seq<Token>, i: nat)
    requires i < |tokens|
    ensures Sent(log, Finals(tokens[..i + 1])) == Sent(log, Finals(tokens[..i])) + [Transcript(tokens[i], true)]
  {
    var one := [Emission([tokens[i]], tokens[i], true)];
    assert Finals(tokens[..i + 1]) == Finals(tokens[..i]) + one;
    SentAppend(log, Finals(tokens[..i]), one);
    assert one[1..] == [];
  }

  // ---------- The backend ----------

  class LocalWhisperBackend {
    const maxBufferBytes: nat
    var started: bool
    var buffer: seq<byte>
    var previousTokens: seq<Token>
    var lastConfirmedLen: nat
    var latestText: string
    var confirmedText: string
    var rebasePending: bool
    /** The calls of on_partial and on_final so far. */
    var sent: seq<Transcript>

    constructor (maxBufferBytes: nat)
      requires maxBufferBytes >= 1
      ensures !started && sent == [] && this.maxBufferBytes == maxBufferBytes
      ensures View() == State([], [], 0, "", "", false)
    {
      this.maxBufferBytes := maxBufferBytes;
      started, buffer, previousTokens, lastConfirmedLen := false, [], [], 0;
      latestText, confirmedText, rebasePending, sent := "", "", false, [];
    }

    ghost function View(): State
      reads this
    {
      State(buffer, previousTokens, lastConfirmedLen, latestText, confirmedText, rebasePending)
    }

    method StartStream()
      modifies this`started
      ensures started
    {
      started := true;
    }

    /** feed_audio; false stands for the RuntimeError of a stream that was not started. */
    method FeedAudio(pcm16: seq<byte>, due: bool, heard: string) returns (ok: bool)
      modifies this
      ensures ok == old(started) && started == old(started)
      ensures !ok ==> View() == old(View()) && sent == old(sent)
      ensures ok ==>
        var (st, es) := Fed(old(View()), maxBufferBytes, pcm16, due, heard);
        View() == st && sent == Sent(old(sent), es)
    {
      if !started {
        return false;
      }
      ok := true;
      if pcm16 == [] {
        return;
      }
      if buffer == [] {
        confirmedText := "";
      }
      buffer := buffer + pcm16;
      TrimBufferToCap();
      if due {
        EmitPartialFromBuffer(heard);
      }
    }

    /** flush */
    method Flush(heard: string) returns (ok: bool)
      modifies this
      ensures ok == old(started) && started == old(started)
      ensures !ok ==> View() == old(View()) && sent == old(sent)
      ensures ok ==>
        var (st, es) := Flushed(old(View()), heard);
        View() == st && sent == Sent(old(sent), es)
    {
      if !started {
        return false;
      }
      ok := true;
      if buffer == [] {
        ResetSegment();
        return;
      }
      EmitPartialFromBuffer(heard);
      ghost var (st, es) := Transcribed(old(View()), heard);
      var tokens := Tokenize(latestText);
      var text := Detokenize(From(tokens, lastConfirmedLen), latestText);
      SentAppend(old(sent), es, Residual(st));
      if text != [] {
        sent := sent + [Transcript(text, true)];
      }
      ResetSegment();
    }

    method StopStream(heard: string)
      modifies this
      ensures !started
      ensures !old(started) || old(buffer) == [] ==> View() == old(View()) && sent == old(sent)
      ensures old(started) && old(buffer) != [] ==>
        var (st, es) := Flushed(old(View()), heard);
        View() == st && sent == Sent(old(sent), es)
    {
      if !started {
        return;
      }
      if buffer != [] {
        var _ := Flush(heard);
      }
      started := false;
    }

    method TrimBufferToCap()
      modifies this`buffer, this`rebasePending
      ensures |old(buffer)| <= maxBufferBytes ==> buffer == old(buffer) && rebasePending == old(rebasePending)
      ensures |old(buffer)| > maxBufferBytes ==>
        buffer == old(buffer)[|old(buffer)| - maxBufferBytes..] && rebasePending
    {
      var excess := |buffer| - maxBufferBytes;
      if excess <= 0 {
        return;
      }
      buffer := buffer[excess..];
      rebasePending := true;
    }

    /** on_final once for each token, in order. */
    method SendFinals(tokens: seq<Token>)
      modifies this`sent
      ensures sent == Sent(old(sent), Finals(tokens))
    {
      var i := 0;
      while i < |tokens|
        invariant 0 <= i <= |tokens|
        invariant sent == Sent(old(sent), Finals(tokens[..i]))
      {
        SentOneMore(old(sent), tokens, i);
        sent := sent + [Transcript(tokens[i], true)];
        i := i + 1;
      }
      assert tokens[..i] == tokens;
    }

    method SendPartial(tail: seq<Token>, source: string)
      modifies this`sent
      ensures sent == Sent(old(sent), Partial(tail, source))
    {
      var text := Detokenize(tail, source);
      if text != [] {
        sent := sent + [Transcript(text, false)];
      }
    }

    method EmitPartialFromBuffer(heard: string)
      modifies this
      ensures started == old(started)
      ensures var (st, es) := Transcribed(old(View()), heard);
        View() == st && sent == Sent(old(sent), es)
    {
      var text := Strip(heard);
      if text == [] {
        HandleEmptyWindow();
        return;
      }
      var current := Tokenize(text);
      if rebasePending {
        RebaseAfterTrim(current, text);
        return;
      }
      CommitAgreed(current, text);
    }

    method CommitAgreed(current: seq<Token>, text: string)
      modifies this
      ensures started == old(started)
      ensures var (st, es) := Agree(old(View()), current, text);
        View() == st && sent == Sent(old(sent), es)
    {
      var agreed := LocalAgreement(previousTokens, current, 2);
      ghost var newly := From(agreed, lastConfirmedLen);
      assert |agreed| <= lastConfirmedLen ==> newly == [];
      if |agreed| > lastConfirmedLen {
        SendFinals(agreed[lastConfirmedLen..]);
        lastConfirmedLen := |agreed|;
      }
      assert sent == Sent(old(sent), Finals(newly));
      if lastConfirmedLen > 0 {
        confirmedText := Detokenize(UpTo(current, lastConfirmedLen), text);
      }
      previousTokens := current;
      latestText := text;
      SendPartial(From(current, lastConfirmedLen), text);
      SentAppend(old(sent), Finals(newly), Partial(From(current, lastConfirmedLen), text));
    }

    method HandleEmptyWindow()
      modifies this
      ensures started == old(started)
      ensures var (st, es) := EmptyWindow(old(View()));
        View() == st && sent == Sent(old(sent), es)
    {
      if rebasePending {
        SendFinals(From(previousTokens, lastConfirmedLen));
      }
      rebasePending := false;
      previousTokens := [];
      lastConfirmedLen := 0;
      latestText := "";
      confirmedText := "";
    }

    method RebaseAfterTrim(current: seq<Token>, text: string)
      modifies this
      ensures started == old(started)
      ensures var (st, es) := Rebase(old(View()), current, text);
        View() == st && sent == Sent(old(sent), es)
    {
      rebasePending := false;
      var length, offset := FindRetainedOverlap(previousTokens, current);
      OverlapFits(previousTokens, current);
      ghost var r := RebaseOf(previousTokens, lastConfirmedLen, current);
      var overlapStart := if length > 0 then |previousTokens| - length else |previousTokens|;
      var survivors := Min(Max(0, lastConfirmedLen - overlapStart), length);
      var newConfirmedLen := if survivors > 0 then offset + survivors else if length > 0 then offset else 0;
      var forced := Between(previousTokens, lastConfirmedLen, overlapStart);
      assert r.confirmed == newConfirmedLen && r.forced == forced;
      SendFinals(forced);
      lastConfirmedLen := newConfirmedLen;
      previousTokens := current;
      latestText := text;
      if newConfirmedLen > 0 {
        confirmedText := Detokenize(UpTo(current, newConfirmedLen), text);
      } else {
        confirmedText := "";
      }
      SendPartial(From(current, newConfirmedLen), text);
      SentAppend(old(sent), Finals(forced), Partial(From(current, newConfirmedLen), text));
    }

    method ResetSegment()
      modifies this`buffer, this`previousTokens, this`lastConfirmedLen, this`latestText, this`rebasePending
      ensures View() == Reset(old(View()))
    {
      buffer := [];
      previousTokens := [];
      lastConfirmedLen := 0;
      latestText := "";
      rebasePending := false;
    }
  }

  lemma OverlapFits(prev: seq<Token>, curr: seq<Token>)
    ensures var (length, offset) := RetainedOverlap(prev, curr);
      length <= |prev| && offset + length <= |curr|
  {
    var (length, offset) := RetainedOverlap(prev, curr);
    RetainedOverlapSpec(prev, curr, length, offset);
  }
}
