/**
 The texts that on_partial and on_final are given. CaptionRuns speaks of the tokens a callback stands for; this says
 that its text shows exactly these tokens.
 */
module CaptionTexts {
  import Bytes
  import opened Tokens
  import opened LocalWhisper
  import opened CaptionRuns
  import opened Sequences

  // ---------- A text that shows tokens ----------

  /** White space is single space characters, and not at the ends. */
  predicate SingleSpaced(text: string) {
    forall i :: 0 <= i < |text| && IsSpace(text[i]) ==>
      && text[i] == ' ' && 0 < i < |text| - 1 && !IsSpace(text[i - 1]) && !IsSpace(text[i + 1])
  }

  /** The text is the tokens: as its words when the source is spaced, otherwise with nothing between them. */
  predicate Renders(text: string, tokens: seq<Token>, spaced: bool) {
    if spaced then Split(text) == tokens && SingleSpaced(text)
    else NoSpaceIn(text) && text == Join("", tokens)
  }

  predicate Wordlike(tokens: seq<Token>) {
    forall i :: 0 <= i < |tokens| ==> tokens[i] != [] && NoSpaceIn(tokens[i])
  }

  lemma TokensWordlike(text: string)
    ensures Wordlike(Tokenize(text))
  {
    var stripped := Strip(text);
    StrippedEnds(text);
    if stripped != [] {
      SingleWord(stripped);
    }
  }

  lemma SpacedThen(word: Token, rest: string)
    requires word != [] && NoSpaceIn(word) && SingleSpaced(rest) && rest != [] && !IsSpace(rest[0])
    ensures SingleSpaced(word + " " + rest)
  {
    var text := word + " " + rest;
    forall i | 0 <= i < |text| && IsSpace(text[i])
      ensures text[i] == ' ' && 0 < i < |text| - 1 && !IsSpace(text[i - 1]) && !IsSpace(text[i + 1])
    {
      if i > |word| {
        assert text[i] == rest[i - |word| - 1];
      } else {
        assert i == |word|;
        assert text[i + 1] == rest[0];
      }
    }
  }

  lemma {:induction false} JoinedSpaced(words: seq<Token>)
    requires Wordlike(words)
    ensures SingleSpaced(Join(" ", words))
    decreases |words|
  {
    if |words| > 1 {
      JoinedSpaced(words[1..]);
      JoinedEnds(words[1..]);
      SpacedThen(words[0], Join(" ", words[1..]));
    }
  }

  lemma DetokenizedRenders(tokens: seq<Token>, source: string)
    requires Wordlike(tokens)
    ensures Renders(Detokenize(tokens, source), tokens, ' ' in source)
  {
    if ' ' in source {
      SplitJoined(tokens);
      JoinedSpaced(tokens);
    } else {
      JoinWithoutSpaces(tokens);
    }
  }

  lemma {:induction false} SpacedIsJoined(text: string)
    requires SingleSpaced(text)
    ensures Join(" ", Split(text)) == text
    decreases |text|
  {
    if text != [] {
      assert !IsSpace(text[0]);
      var n := WordLength(text);
      if n == |text| {
        assert text[..n] == text && text[n..] == [];
      } else {
        assert IsSpace(text[n]);
        var rest := text[n + 1..];
        RestSpaced(text, n);
        SpacedIsJoined(rest);
        assert text[n..] == [' '] + rest && text[n..][1..] == rest;
        assert Split(text) == [text[..n]] + Split(rest);
        assert rest != [] && !IsSpace(rest[0]);
        assert Split(rest) != [];
        assert Split(text)[1..] == Split(rest);
        assert text == text[..n] + " " + rest;
      }
    }
  }

  lemma RestSpaced(text: string, n: nat)
    requires SingleSpaced(text) && n < |text| && IsSpace(text[n])
    ensures SingleSpaced(text[n + 1..]) && n + 1 < |text| && !IsSpace(text[n + 1])
  {
    var rest := text[n + 1..];
    forall i | 0 <= i < |rest| && IsSpace(rest[i])
      ensures rest[i] == ' ' && 0 < i < |rest| - 1 && !IsSpace(rest[i - 1]) && !IsSpace(rest[i + 1])
    {
      assert text[n + 1 + i] == rest[i];
      assert rest[i - 1] == text[n + i];
    }
  }

  /** There is one such text. */
  lemma RendersOnce(a: string, b: string, tokens: seq<Token>, spaced: bool)
    requires Renders(a, tokens, spaced) && Renders(b, tokens, spaced)
    ensures a == b
  {
    if spaced {
      SpacedIsJoined(a);
      SpacedIsJoined(b);
    }
  }

  // ---------- The texts of the callbacks ----------

  function FinalTexts(es: seq<Emission>): seq<string> {
    if es == [] then [] else (if es[0].isFinal then [es[0].text] else []) + FinalTexts(es[1..])
  }

  /** The texts given to on_final, in the log. */
  function TextsOf(log: seq<Transcript>): seq<string> {
    if log == [] then []
    else TextsOf(log[..|log| - 1]) + (if log[|log| - 1].isFinal then [log[|log| - 1].text] else [])
  }

  /** The texts shown as not final yet. */
  function PartialTexts(es: seq<Emission>): seq<string> {
    if es == [] then [] else (if es[0].isFinal then [] else [es[0].text]) + PartialTexts(es[1..])
  }

  lemma {:induction false} PartialTextsAfter(tokens: seq<Token>, es: seq<Emission>)
    ensures PartialTexts(Finals(tokens) + es) == PartialTexts(es)
    decreases |tokens|
  {
    if tokens == [] {
      assert Finals(tokens) + es == es;
    } else {
      assert (Finals(tokens) + es)[1..] == Finals(tokens[1..]) + es;
      PartialTextsAfter(tokens[1..], es);
    }
  }

  lemma {:induction false} FinalTextsAppend(a: seq<Emission>, b: seq<Emission>)
    ensures FinalTexts(a + b) == FinalTexts(a) + FinalTexts(b)
    decreases |a|
  {
    if a == [] {
      assert a + b == b;
    } else {
      assert (a + b)[1..] == a[1..] + b;
      FinalTextsAppend(a[1..], b);
    }
  }

  /** The log of the callbacks holds the texts of the finals, in order. */
  lemma {:induction false} SentTexts(log: seq<Transcript>, es: seq<Emission>)
    ensures TextsOf(Sent(log, es)) == TextsOf(log) + FinalTexts(es)
    decreases |es|
  {
    if es != [] {
      var one := log + [Transcript(es[0].text, es[0].isFinal)];
      assert one[..|one| - 1] == log;
      SentTexts(one, es[1..]);
      ConcatAssociates(TextsOf(log), if es[0].isFinal then [es[0].text] else [], FinalTexts(es[1..]));
    }
  }

  lemma {:induction false} FinalsTexts(tokens: seq<Token>)
    ensures FinalTexts(Finals(tokens)) == tokens
    decreases |tokens|
  {
    if tokens != [] {
      assert Finals(tokens)[1..] == Finals(tokens[1..]);
      FinalsTexts(tokens[1..]);
    }
  }

  /** A list of open tokens goes out as one text, that of the tokens, or not at all when there are none. */
  predicate RestSent(texts: seq<string>, rest: seq<Token>, source: string) {
    if rest == [] then texts == [] else |texts| == 1 && Renders(texts[0], rest, ' ' in source)
  }

  /** One partial, after the finals, shows the tail; there is none when the tail is empty. */
  predicate Shown(es: seq<Emission>, tail: seq<Token>, source: string) {
    RestSent(PartialTexts(es), tail, source) && (tail != [] ==> es != [] && !es[|es| - 1].isFinal)
  }

  lemma StepTexts(tokens: seq<Token>, tail: seq<Token>, source: string)
    requires Wordlike(tail)
    ensures var es := Finals(tokens) + Partial(tail, source);
      FinalTexts(es) == tokens && Shown(es, tail, source)
  {
    FinalTextsAppend(Finals(tokens), Partial(tail, source));
    PartialTextsAfter(tokens, Partial(tail, source));
    FinalsTexts(tokens);
    DetokenizedRenders(tail, source);
    DetokenizeEmpty(tail, source);
    assert Partial(tail, source) != [] ==> Partial(tail, source)[1..] == [];
  }

  /** During a transcription each final is one token, as it stands, and the partial is the text of the tail. */
  lemma TranscribedTexts(st: State, heard: string)
    ensures var es := Transcribed(st, heard).1;
      FinalTexts(es) == FinalTokens(es) && Shown(es, ShownTail(es), Strip(heard))
  {
    var text, current := Strip(heard), Tokenize(Strip(heard));
    TokensWordlike(text);
    if text == [] {
      var open := From(st.previous, st.confirmed);
      FinalsTexts(open);
      FinalsTokens(open);
      PartialTextsAfter(open, []);
      assert Finals(open) + [] == Finals(open);
    } else if st.rebasePending {
      var r := RebaseOf(st.previous, st.confirmed, current);
      StepTexts(r.forced, From(current, r.confirmed), text);
      FinalsThenPartial(r.forced, From(current, r.confirmed), text);
    } else {
      var agreed := CommonPrefix(st.previous, current);
      StepTexts(From(agreed, st.confirmed), From(current, Max(st.confirmed, |agreed|)), text);
      FinalsThenPartial(From(agreed, st.confirmed), From(current, Max(st.confirmed, |agreed|)), text);
    }
  }

  lemma ResidualTexts(st: State)
    ensures RestSent(FinalTexts(Residual(st)), From(Tokenize(st.latest), st.confirmed), st.latest)
  {
    var rest := From(Tokenize(st.latest), st.confirmed);
    TokensWordlike(st.latest);
    DetokenizedRenders(rest, st.latest);
    DetokenizeEmpty(rest, st.latest);
  }

  /**
   The texts of a flush: the tokens its transcription commits, and then the open rest of its hypothesis, in one text.
   */
  lemma FlushedTexts(st: State, heard: string)
    requires st.buffer != []
    ensures var (st1, es) := Transcribed(st, heard); var texts := FinalTexts(Flushed(st, heard).1);
      && FinalTokens(es) <= texts
      && RestSent(texts[|FinalTokens(es)|..], From(Tokenize(heard), st1.confirmed), Strip(heard))
  {
    var (st1, es) := Transcribed(st, heard);
    TranscribedTexts(st, heard);
    TranscribedEmits(st, heard);
    ResidualTexts(st1);
    FinalTextsAppend(es, Residual(st1));
    var n := |FinalTokens(es)|;
    assert (FinalTexts(es) + FinalTexts(Residual(st1)))[n..] == FinalTexts(Residual(st1));
    assert Tokenize(heard) == [] || st1.latest == Strip(heard);
  }

  /** Speech that is withdrawn: an empty transcription without a trim sends nothing, and nothing is left to send. */
  lemma EmptyWithdraws(st: State, heard: string)
    requires Strip(heard) == [] && !st.rebasePending
    ensures Transcribed(st, heard).1 == [] && FinalTexts(Flushed(st, heard).1) == []
  {
    if st.buffer != [] {
      FlushedTexts(st, heard);
      assert FinalTokens([]) == [];
    }
  }

  // ---------- Whole utterances ----------

  /** The words of some texts. */
  function WordsIn(texts: seq<string>): seq<Token> {
    if texts == [] then [] else Split(texts[0]) + WordsIn(texts[1..])
  }

  lemma {:induction false} WordsInAppend(a: seq<string>, b: seq<string>)
    ensures WordsIn(a + b) == WordsIn(a) + WordsIn(b)
    decreases |a|
  {
    if a == [] {
      assert a + b == b;
    } else {
      assert (a + b)[1..] == a[1..] + b;
      WordsInAppend(a[1..], b);
    }
  }

  lemma {:induction false} WordsInTokens(tokens: seq<Token>)
    requires Wordlike(tokens)
    ensures WordsIn(tokens) == tokens
    decreases |tokens|
  {
    if tokens != [] {
      SplitWord(tokens[0]);
      WordsInTokens(tokens[1..]);
    }
  }

  lemma {:induction false} JoinWithRest(separator: string, a: seq<Token>, b: seq<Token>)
    requires b != []
    ensures Join(separator, a + [Join(separator, b)]) == Join(separator, a + b)
    decreases |a|
  {
    if a == [] {
      assert a + b == b && a + [Join(separator, b)] == [Join(separator, b)];
    } else {
      assert (a + b)[1..] == a[1..] + b;
      assert (a + [Join(separator, b)])[1..] == a[1..] + [Join(separator, b)];
      JoinWithRest(separator, a[1..], b);
    }
  }

  /** The texts given to on_final, put together as the closing hypothesis is written, are the tokens given. */
  ghost predicate TextIs(texts: seq<string>, tokens: seq<Token>, spaced: bool) {
    && Join(if spaced then " " else "", texts) == Join(if spaced then " " else "", tokens)
    && (spaced && Wordlike(tokens) ==> WordsIn(texts) == tokens)
  }

  lemma RestIsJoined(text: string, rest: seq<Token>, spaced: bool)
    requires Renders(text, rest, spaced)
    ensures text == Join(if spaced then " " else "", rest)
  {
    if spaced {
      SpacedIsJoined(text);
    }
  }

  lemma TokensThenRest(tokens: seq<Token>, texts: seq<string>, rest: seq<Token>, source: string)
    requires RestSent(texts, rest, source)
    ensures TextIs(tokens + texts, tokens + rest, ' ' in source)
  {
    var spaced := ' ' in source;
    if rest == [] {
      assert tokens + texts == tokens + rest == tokens;
      if spaced && Wordlike(tokens) {
        WordsInTokens(tokens);
      }
    } else {
      RestIsJoined(texts[0], rest, spaced);
      assert texts == [texts[0]];
      JoinWithRest(if spaced then " " else "", tokens, rest);
      if spaced && Wordlike(tokens + rest) {
        assert forall i :: 0 <= i < |tokens| ==> (tokens + rest)[i] == tokens[i];
        WordsInTokens(tokens);
        WordsInAppend(tokens, texts);
        assert WordsIn(texts) == Split(texts[0]) + [];
      }
    }
  }

  lemma {:induction false} FedTexts(st: State, cap: nat, feeds: seq<Feed>)
    ensures var es := FedAll(st, cap, feeds).1; FinalTexts(es) == FinalTokens(es)
    decreases |feeds|
  {
    if feeds != [] {
      var f := feeds[0];
      var (st1, es) := Fed(st, cap, f.pcm, f.due, f.heard);
      TranscribedTexts(Buffered(st, cap, f.pcm), f.heard);
      FedTexts(st1, cap, feeds[1..]);
      FinalTextsAppend(es, FedAll(st1, cap, feeds[1..]).1);
      FinalTokensAppend(es, FedAll(st1, cap, feeds[1..]).1);
    }
  }

  /** For every utterance: its final texts say its final tokens, the flush's rest in one text. */
  lemma UtteranceTexts(st: State, cap: nat, feeds: seq<Feed>, heard: string)
    requires FedAll(st, cap, feeds).0.buffer != []
    ensures var (st1, es1) := FedAll(st, cap, feeds); var es := es1 + Flushed(st1, heard).1;
      TextIs(FinalTexts(es), FinalTokens(es), ' ' in Strip(heard))
  {
    var (st1, es1) := FedAll(st, cap, feeds);
    FedTexts(st, cap, feeds);
    FlushedTexts(st1, heard);
    var (st2, es2) := Transcribed(st1, heard);
    TranscribedEmits(st1, heard);
    ResidualTokens(st2);
    FinalTokensAppend(es2, Residual(st2));
    var flushed := Flushed(st1, heard).1;
    FinalTextsAppend(es1, flushed);
    FinalTokensAppend(es1, flushed);
    var rest := From(Tokenize(heard), st2.confirmed);
    TokenizeStripped(heard);
    UtteranceParts(FinalTokens(es1), FinalTokens(es2), FinalTexts(flushed), rest, Strip(heard));
  }

  lemma UtteranceParts(before: seq<Token>, committed: seq<Token>, texts: seq<string>, rest: seq<Token>, source: string)
    requires committed <= texts && RestSent(texts[|committed|..], rest, source)
    ensures TextIs(before + texts, before + (committed + rest), ' ' in source)
  {
    var last := texts[|committed|..];
    assert texts == committed + last;
    ConcatAssociates(before, committed, last);
    ConcatAssociates(before, committed, rest);
    TokensThenRest(before + committed, last, rest, source);
  }

  lemma {:induction false} HeardWordlike(stream: seq<Token>, start: nat, w: Window, st: State, cap: nat,
                                         feeds: seq<Feed>, windows: seq<Window>, last: Window)
    requires HearsStream(stream, w, st, cap, feeds, windows, last) && start <= w.hi <= |stream|
    requires Wordlike(stream[start..w.hi]) && w.lo <= w.hi
    ensures w.hi <= last.hi <= |stream| && last.lo <= last.hi && Wordlike(stream[start..last.hi])
    decreases |feeds|
  {
    if feeds != [] {
      var f, next := feeds[0], windows[0];
      if f.pcm != [] && f.due {
        TokensWordlike(f.heard);
        ThenWordlike(stream, start, w, next);
      }
      HeardWordlike(stream, start, next, Fed(st, cap, f.pcm, f.due, f.heard).0, cap, feeds[1..], windows[1..], last);
    }
  }

  lemma ThenWordlike(stream: seq<Token>, start: nat, w: Window, next: Window)
    requires start <= w.hi <= next.hi <= |stream| && next.lo <= w.hi
    requires Wordlike(stream[start..w.hi]) && Wordlike(Heard(stream, next))
    ensures Wordlike(stream[start..next.hi])
  {
    forall i | 0 <= i < next.hi - start
      ensures stream[start..next.hi][i] != [] && NoSpaceIn(stream[start..next.hi][i])
    {
      if start + i < w.hi {
        assert stream[start..w.hi][i] == stream[start + i];
      } else {
        assert Heard(stream, next)[start + i - next.lo] == stream[start + i];
      }
    }
  }

  lemma UtteranceWordlike(stream: seq<Token>, start: nat, st: State, cap: nat, feeds: seq<Feed>, windows: seq<Window>,
                          last: Window, closing: Window, heard: string)
    requires start <= |stream| && HearsStream(stream, Window(start, start), st, cap, feeds, windows, last)
    requires Follows(last, closing, FedAll(st, cap, feeds).0.rebasePending)
    requires start <= closing.hi <= |stream| && Tokenize(heard) == Heard(stream, closing)
    ensures Wordlike(stream[start..closing.hi])
  {
    HeardWordlike(stream, start, Window(start, start), st, cap, feeds, windows, last);
    TokensWordlike(heard);
    ThenWordlike(stream, start, last, closing);
  }

  /**
   Exactly-once captions, as texts: under the conditions of ExactlyOnce the words of the texts given to on_final are the
   stream from the first window's start to the last one's end, each once and in order; when the closing hypothesis is
   written without spaces, so is the text they make together.
   */
  lemma ExactlyOnceInText(stream: seq<Token>, start: nat, st: State, cap: nat, feeds: seq<Feed>, windows: seq<Window>,
                          last: Window, closing: Window, heard: string, log: seq<Transcript>)
    requires NoDuplicates(stream) && start <= |stream| && Fresh(st) && cap >= 1 && TextsOf(log) == []
    requires HearsStream(stream, Window(start, start), st, cap, feeds, windows, last)
    requires exists i :: 0 <= i < |feeds| && feeds[i].pcm != []
    requires Follows(last, closing, FedAll(st, cap, feeds).0.rebasePending)
    requires closing.hi <= |stream| && Tokenize(heard) == Heard(stream, closing)
    ensures start <= closing.hi
    ensures var (st1, es1) := FedAll(st, cap, feeds); var texts := TextsOf(Sent(log, es1 + Flushed(st1, heard).1));
      if ' ' in Strip(heard) then WordsIn(texts) == stream[start..closing.hi]
      else Join("", texts) == Join("", stream[start..closing.hi])
  {
    ExactlyOnce(stream, start, st, cap, feeds, windows, last, closing, heard);
    BufferHolds(st, cap, feeds);
    UtteranceTexts(st, cap, feeds, heard);
    UtteranceWordlike(stream, start, st, cap, feeds, windows, last, closing, heard);
    var (st1, es1) := FedAll(st, cap, feeds);
    SentTexts(log, es1 + Flushed(st1, heard).1);
    assert [] + FinalTexts(es1 + Flushed(st1, heard).1) == FinalTexts(es1 + Flushed(st1, heard).1);
  }

  // ---------- confirmed_text ----------

  /** confirmed_text is the committed part of the last hypothesis; between segments nothing is remembered. */
  predicate Confirms(st: State) {
    if st.buffer == [] then st.previous == [] && st.confirmed == 0
    else if UpTo(st.previous, st.confirmed) == [] then st.confirmedText == ""
    else Renders(st.confirmedText, UpTo(st.previous, st.confirmed), ' ' in st.latest)
  }

  lemma TranscribedConfirms(st: State, heard: string)
    requires Confirms(st) && st.buffer != []
    ensures Confirms(Transcribed(st, heard).0)
  {
    var text, current := Strip(heard), Tokenize(Strip(heard));
    TokensWordlike(text);
    if text != [] && st.rebasePending {
      var r := RebaseOf(st.previous, st.confirmed, current);
      DetokenizedRenders(UpTo(current, r.confirmed), text);
    } else if text != [] {
      var agreed := CommonPrefix(st.previous, current);
      CommonPrefixIsLongest(st.previous, current);
      DetokenizedRenders(UpTo(current, Max(st.confirmed, |agreed|)), text);
    }
  }

  lemma FedConfirms(st: State, cap: nat, f: Feed)
    requires Confirms(st) && cap >= 1
    ensures Confirms(Fed(st, cap, f.pcm, f.due, f.heard).0)
  {
    if f.pcm != [] && f.due {
      TranscribedConfirms(Buffered(st, cap, f.pcm), f.heard);
    }
  }

  /** At any point of any run confirmed_text shows what is committed, and a flush leaves the last one standing. */
  lemma {:induction false} ConfirmedTextFollows(st: State, cap: nat, feeds: seq<Feed>, heard: string)
    requires Confirms(st) && cap >= 1
    ensures var st1 := FedAll(st, cap, feeds).0;
      && Confirms(st1) && Confirms(Flushed(st1, heard).0)
      && (st1.buffer != [] ==> Flushed(st1, heard).0.confirmedText == Transcribed(st1, heard).0.confirmedText)
    decreases |feeds|
  {
    if feeds != [] {
      var f := feeds[0];
      FedConfirms(st, cap, f);
      ConfirmedTextFollows(Fed(st, cap, f.pcm, f.due, f.heard).0, cap, feeds[1..], heard);
    }
  }

  // ---------- The rolling buffer ----------

  function Newest<T>(s: seq<T>, n: nat): seq<T> {
    if |s| <= n then s else s[|s| - n..]
  }

  function AllPcm(feeds: seq<Feed>): seq<Bytes.byte> {
    if feeds == [] then [] else feeds[0].pcm + AllPcm(feeds[1..])
  }

  lemma TranscribedBuffer(st: State, heard: string)
    ensures Transcribed(st, heard).0.buffer == st.buffer
  {
    TranscribedEmits(st, heard);
  }

  lemma FedBuffers(st: State, cap: nat, f: Feed)
    requires |st.buffer| <= cap
    ensures Fed(st, cap, f.pcm, f.due, f.heard).0.buffer == Newest(st.buffer + f.pcm, cap)
  {
    if f.pcm == [] {
      assert st.buffer + [] == st.buffer;
    } else {
      TranscribedBuffer(Buffered(st, cap, f.pcm), f.heard);
    }
  }

  /** The buffer holds the newest bytes of all that was fed. */
  lemma {:induction false} BufferIsNewest(st: State, cap: nat, feeds: seq<Feed>)
    requires |st.buffer| <= cap
    ensures FedAll(st, cap, feeds).0.buffer == Newest(st.buffer + AllPcm(feeds), cap)
    decreases |feeds|
  {
    if feeds == [] {
      assert st.buffer + [] == st.buffer;
    } else {
      var f := feeds[0];
      FedBuffers(st, cap, f);
      BufferIsNewest(Fed(st, cap, f.pcm, f.due, f.heard).0, cap, feeds[1..]);
      NewestOfNewest(st.buffer, f.pcm, AllPcm(feeds[1..]), cap);
    }
  }

  lemma NewestOfEnd<T>(s: seq<T>, k: nat, n: nat)
    requires k + n <= |s|
    ensures Newest(s[k..], n) == Newest(s, n)
  {
  }

  lemma NewestOfNewest<T>(a: seq<T>, b: seq<T>, c: seq<T>, n: nat)
    ensures Newest(Newest(a + b, n) + c, n) == Newest(a + (b + c), n)
  {
    ConcatAssociates(a, b, c);
    if |a + b| > n {
      var k := |a + b| - n;
      assert ((a + b) + c)[k..] == (a + b)[k..] + c;
      NewestOfEnd((a + b) + c, k, n);
    }
  }
}
