/**
 What is lost without a trim. The confirmed boundary is a count, so a hypothesis that differs from what was sent before
 is committed from that count on only (src/obs_captions/stt/local_whisper.py:136-139); the tokens before it are never
 final.
 */
module ClosingHypothesis {
  import opened Bytes
  import opened Tokens
  import opened LocalWhisper
  import opened CaptionRuns
  import opened CommittedAgain

  function BytesOf(feeds: seq<Feed>): nat {
    if feeds == [] then 0 else |feeds[0].pcm| + BytesOf(feeds[1..])
  }

  lemma {:induction false} NeverTrimmed(st: State, cap: nat, feeds: seq<Feed>)
    requires !st.rebasePending && |st.buffer| + BytesOf(feeds) <= cap
    ensures !FedAll(st, cap, feeds).0.rebasePending
    decreases |feeds|
  {
    if feeds != [] {
      var f := feeds[0];
      TranscribedEmits(Buffered(st, cap, f.pcm), f.heard);
      NeverTrimmed(Fed(st, cap, f.pcm, f.due, f.heard).0, cap, feeds[1..]);
    }
  }

  lemma CompletesIff(sent: seq<Token>, current: seq<Token>, n: nat)
    ensures sent + From(current, n) == current <==> sent == UpTo(current, n)
  {
    if n <= |current| {
      assert current == current[..n] + current[n..];
      if sent + current[n..] == current {
        assert sent == (sent + current[n..])[..|sent|];
      }
    } else {
      assert sent + [] == sent;
    }
  }

  /** Without a trim the flush sends its hypothesis from the boundary on, and nothing before it. */
  lemma FlushSendsRest(st: State, heard: string)
    requires st.buffer != [] && !st.rebasePending
    ensures FinalTokens(Flushed(st, heard).1) == From(Tokenize(heard), st.confirmed)
  {
    FlushClaims(st, [], heard);
    var finals := FinalTokens(Flushed(st, heard).1);
    assert [] + finals == finals;
    assert [] + From(Tokenize(heard), st.confirmed) == From(Tokenize(heard), st.confirmed);
  }

  /**
   The finals of an utterance that was never trimmed are its closing hypothesis exactly when those sent before the flush
   are that hypothesis up to the boundary.
   */
  lemma ClosingIsFinalIff(st: State, cap: nat, feeds: seq<Feed>, heard: string)
    requires Fresh(st) && cap >= 1 && BytesOf(feeds) <= cap
    requires exists i :: 0 <= i < |feeds| && feeds[i].pcm != []
    ensures var (st1, es1) := FedAll(st, cap, feeds);
      FinalTokens(es1 + Flushed(st1, heard).1) == Tokenize(heard) <==>
        FinalTokens(es1) == UpTo(Tokenize(heard), st1.confirmed)
  {
    var (st1, es1) := FedAll(st, cap, feeds);
    NeverTrimmed(st, cap, feeds);
    BufferHolds(st, cap, feeds);
    FlushSendsRest(st1, heard);
    FinalTokensAppend(es1, Flushed(st1, heard).1);
    CompletesIff(FinalTokens(es1), Tokenize(heard), st1.confirmed);
  }

  /** The words a and b heard twice and then x, y and z at the flush: only z is added, and x and y are never final. */
  lemma WordsLost(st: State, cap: nat, part: seq<byte>, before: string, closing: string, a: Token, b: Token, x: Token,
                  y: Token, z: Token)
    requires Fresh(st) && part != [] && 2 * |part| <= cap
    requires Tokenize(before) == [a, b] && Tokenize(closing) == [x, y, z]
    ensures var (st1, es1) := FedAll(st, cap, [Feed(part, true, before)] + [Feed(part, true, before)]);
      FinalTokens(es1 + Flushed(st1, closing).1) == [a, b, z]
  {
    var both := Feed(part, true, before);
    HeardTwice(st, cap, both, a, b);
    var (st1, es1) := FedAll(st, cap, [both] + [both]);
    ThenOther(st1, es1, closing, a, b, x, y, z);
  }

  lemma HeardTwice(st: State, cap: nat, both: Feed, a: Token, b: Token)
    requires Fresh(st) && both.pcm != [] && 2 * |both.pcm| <= cap && both.due && Tokenize(both.heard) == [a, b]
    ensures var (st2, es) := FedAll(st, cap, [both] + [both]);
      FinalTokens(es) == [a, b] && st2.confirmed == 2 && st2.buffer != [] && !st2.rebasePending
  {
    var (st1, es1) := Fed(st, cap, both.pcm, both.due, both.heard);
    OnceHeard(st, cap, both, a, b);
    var (st2, es2) := Fed(st1, cap, both.pcm, both.due, both.heard);
    TwiceHeard(st1, cap, both, a, b);
    TwoFeeds(st, cap, both, both);
    FinalTokensAppend(es1, es2);
  }

  lemma ThenOther(st: State, es: seq<Emission>, closing: string, a: Token, b: Token, x: Token, y: Token, z: Token)
    requires st.confirmed == 2 && st.buffer != [] && !st.rebasePending
    requires FinalTokens(es) == [a, b] && Tokenize(closing) == [x, y, z]
    ensures FinalTokens(es + Flushed(st, closing).1) == [a, b, z]
  {
    FlushSendsRest(st, closing);
    FinalTokensAppend(es, Flushed(st, closing).1);
    assert From([x, y, z], 2) == [z];
  }

  lemma TwoFeeds(st: State, cap: nat, f1: Feed, f2: Feed)
    ensures var (st1, es1) := Fed(st, cap, f1.pcm, f1.due, f1.heard);
      var (st2, es2) := Fed(st1, cap, f2.pcm, f2.due, f2.heard);
      FedAll(st, cap, [f1] + [f2]) == (st2, es1 + es2)
  {
    var (st1, es1) := Fed(st, cap, f1.pcm, f1.due, f1.heard);
    var (st2, es2) := Fed(st1, cap, f2.pcm, f2.due, f2.heard);
    FeedFirst(st, cap, f1, [f2]);
    assert [f2] == [f2] + [];
    FeedFirst(st1, cap, f2, []);
    assert es2 + [] == es2;
  }
}
