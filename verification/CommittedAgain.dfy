/**
 When a token that was already sent to on_final is sent again. The rebase documents that this never happens, for any
 hypothesis (src/obs_captions/stt/local_whisper.py:198-204); it does, and this says exactly when.

 Tokens are compared by value. So "the finals are all different", which the first part decides, is more than that
 claim: a word that is really said twice breaks it too. AgainAfterRebaseIff and SomeCallAgainIff decide the claim
 itself, by value: whether the call after a rebase sends a token that was sent before.
 */
module CommittedAgain {
  import opened Bytes
  import opened Tokens
  import opened LocalWhisper
  import opened CaptionRuns
  import opened Sequences

  /** The remembered tokens are those of the remembered text, as after every transcription. */
  predicate Coherent(st: State) {
    st.previous == Tokenize(st.latest)
  }

  // ---------- The next call ----------

  /** However far the next call commits: its finals are a stretch of the last hypothesis that starts at the boundary. */
  lemma CommitsStretch(previous: seq<Token>, confirmed: nat, rebasePending: bool, current: seq<Token>)
    ensures EffectOf(previous, confirmed, rebasePending, current).committed <= From(previous, confirmed)
  {
    var rest := From(previous, confirmed);
    if current == [] {
    } else if rebasePending {
      var r := RebaseOf(previous, confirmed, current);
      RetainedBlock(previous, confirmed, current);
      assert r.forced == Between(previous, confirmed, r.overlapStart);
      assert confirmed <= r.overlapStart ==> r.forced == rest[..r.overlapStart - confirmed];
    } else {
      CommonPrefixIsLongest(previous, current);
      var n := |CommonPrefix(previous, current)|;
      assert confirmed <= n ==> From(previous[..n], confirmed) == rest[..n - confirmed];
    }
  }

  /** What the transcriber has to say for all of the last hypothesis to be committed. */
  function CommitsAll(st: State): string {
    if st.rebasePending then "" else st.latest
  }

  lemma CommitsAllOf(st: State)
    requires Coherent(st)
    ensures FinalTokens(Transcribed(st, CommitsAll(st)).1) == From(st.previous, st.confirmed)
  {
    TranscribedEmits(st, CommitsAll(st));
    if !st.rebasePending && st.previous != [] {
      LongestIsCommonPrefix(st.previous, st.previous, |st.previous|);
      assert st.previous[..|st.previous|] == st.previous;
    }
    assert Tokenize("") == [];
  }

  lemma PrefixDistinct(sent: seq<Token>, part: seq<Token>, all: seq<Token>)
    requires part <= all && NoDuplicates(sent + all)
    ensures NoDuplicates(sent + part)
  {
    assert sent + all == (sent + part) + all[|part|..];
    assert forall i :: 0 <= i < |sent + part| ==> (sent + part)[i] == (sent + all)[i];
  }

  /** The tokens sent so far and those that may still be committed are all different. */
  ghost predicate Safe(st: State, sent: seq<Token>) {
    NoDuplicates(sent + From(st.previous, st.confirmed))
  }

  /** Whatever the transcriber says next, no token is final a second time: exactly in the safe states. */
  lemma NextNeverAgainIff(st: State, sent: seq<Token>)
    requires Coherent(st)
    ensures (forall heard: string :: NoDuplicates(sent + FinalTokens(Transcribed(st, heard).1))) <==> Safe(st, sent)
  {
    if forall heard: string :: NoDuplicates(sent + FinalTokens(Transcribed(st, heard).1)) {
      CommitsAllOf(st);
      assert NoDuplicates(sent + FinalTokens(Transcribed(st, CommitsAll(st)).1));
    }
    if Safe(st, sent) {
      forall heard: string
        ensures NoDuplicates(sent + FinalTokens(Transcribed(st, heard).1))
      {
        TranscribedEmits(st, heard);
        CommitsStretch(st.previous, st.confirmed, st.rebasePending, Tokenize(heard));
        PrefixDistinct(sent, FinalTokens(Transcribed(st, heard).1), From(st.previous, st.confirmed));
      }
    }
  }

  // ---------- Which hypotheses keep it so ----------

  /**
   Known before the call: the tokens sent, those it may still commit and those the hypothesis adds to them. After a
   trim it adds what stands behind the retained block, otherwise it replaces what stands behind the boundary.
   */
  function Claimed(st: State, sent: seq<Token>, current: seq<Token>): seq<Token> {
    if current == [] then
      sent + (if st.rebasePending then From(st.previous, st.confirmed) else [])
    else if st.rebasePending then
      var (length, offset) := RetainedOverlap(st.previous, current);
      sent + From(st.previous, st.confirmed) + From(current, offset + length)
    else
      sent + From(current, st.confirmed)
  }

  /** A hypothesis is admitted when it is empty or all of these are different. */
  ghost predicate Admits(st: State, sent: seq<Token>, current: seq<Token>) {
    current == [] || NoDuplicates(Claimed(st, sent, current))
  }

  lemma SplitBehind(forced: seq<Token>, s: seq<Token>, boundary: nat, behind: nat)
    requires boundary <= behind <= |s|
    ensures forced + s[boundary..] == (forced + s[boundary..behind]) + s[behind..]
  {
    assert s[boundary..] == s[boundary..behind] + s[behind..];
    ConcatAssociates(forced, s[boundary..behind], s[behind..]);
  }

  lemma RebaseLeaves(previous: seq<Token>, confirmed: nat, current: seq<Token>)
    ensures var r := RebaseOf(previous, confirmed, current); var (length, offset) := RetainedOverlap(previous, current);
      r.forced + From(current, r.confirmed) == From(previous, confirmed) + From(current, offset + length)
  {
    var r := RebaseOf(previous, confirmed, current);
    RebaseAccounting(previous, confirmed, current);
    SplitBehind(r.forced, current, r.confirmed, r.offset + r.length);
  }

  lemma AgreementLeaves(previous: seq<Token>, confirmed: nat, current: seq<Token>)
    ensures var agreed := CommonPrefix(previous, current);
      From(agreed, confirmed) + From(current, Max(confirmed, |agreed|)) == From(current, confirmed)
  {
    CommonPrefixIsLongest(previous, current);
    var n := |CommonPrefix(previous, current)|;
    if confirmed <= n {
      assert current[confirmed..] == current[..n][confirmed..] + current[n..];
    }
  }

  lemma EffectClaims(st: State, sent: seq<Token>, current: seq<Token>)
    ensures var e := EffectOf(st.previous, st.confirmed, st.rebasePending, current);
      (sent + e.committed) + From(e.previous, e.confirmed) == Claimed(st, sent, current)
  {
    var e := EffectOf(st.previous, st.confirmed, st.rebasePending, current);
    var open := From(e.previous, e.confirmed);
    ConcatAssociates(sent, e.committed, open);
    if current == [] {
      assert e.committed + open == e.committed;
    } else if st.rebasePending {
      RebaseLeaves(st.previous, st.confirmed, current);
      var (length, offset) := RetainedOverlap(st.previous, current);
      ConcatAssociates(sent, From(st.previous, st.confirmed), From(current, offset + length));
    } else {
      AgreementLeaves(st.previous, st.confirmed, current);
    }
  }

  /** What is sent and what may still be committed, after a call. */
  lemma AfterCall(st: State, sent: seq<Token>, heard: string)
    ensures var (st1, es) := Transcribed(st, heard);
      (sent + FinalTokens(es)) + From(st1.previous, st1.confirmed) == Claimed(st, sent, Tokenize(heard))
  {
    TranscribedEmits(st, heard);
    EffectClaims(st, sent, Tokenize(heard));
  }

  lemma EmptyAdmitted(st: State, sent: seq<Token>)
    requires Safe(st, sent)
    ensures NoDuplicates(Claimed(st, sent, []))
  {
    PrefixDistinct(sent, [], From(st.previous, st.confirmed));
  }

  /** A call leaves a safe state safe exactly when its hypothesis is admitted. */
  lemma SafeAfterCallIff(st: State, sent: seq<Token>, heard: string)
    requires Safe(st, sent)
    ensures var (st1, es) := Transcribed(st, heard);
      Coherent(st1) && (Safe(st1, sent + FinalTokens(es)) <==> Admits(st, sent, Tokenize(heard)))
  {
    TranscribedEmits(st, heard);
    AfterCall(st, sent, heard);
    EmptyAdmitted(st, sent);
  }

  // ---------- Runs ----------

  /** At every point of the run, whatever the transcriber says next, no token is final a second time. */
  ghost predicate NeverAgain(st: State, cap: nat, feeds: seq<Feed>, sent: seq<Token>)
    decreases feeds
  {
    && (forall heard: string :: NoDuplicates(sent + FinalTokens(Transcribed(st, heard).1)))
    && (feeds != [] ==>
          var (st1, es) := Fed(st, cap, feeds[0].pcm, feeds[0].due, feeds[0].heard);
          NeverAgain(st1, cap, feeds[1..], sent + FinalTokens(es)))
  }

  /** Every hypothesis of the run is admitted when it comes. */
  ghost predicate EachAdmitted(st: State, cap: nat, feeds: seq<Feed>, sent: seq<Token>)
    decreases feeds
  {
    feeds != [] ==>
      var f := feeds[0];
      var (st1, es) := Fed(st, cap, f.pcm, f.due, f.heard);
      && (f.pcm != [] && f.due ==> Admits(Buffered(st, cap, f.pcm), sent, Tokenize(f.heard)))
      && EachAdmitted(st1, cap, feeds[1..], sent + FinalTokens(es))
  }

  lemma FedStep(st: State, cap: nat, f: Feed, sent: seq<Token>)
    requires Coherent(st) && Safe(st, sent)
    ensures var (st1, es) := Fed(st, cap, f.pcm, f.due, f.heard);
      && Coherent(st1)
      && (Safe(st1, sent + FinalTokens(es)) <==>
           (f.pcm != [] && f.due ==> Admits(Buffered(st, cap, f.pcm), sent, Tokenize(f.heard))))
  {
    if f.pcm != [] && f.due {
      SafeAfterCallIff(Buffered(st, cap, f.pcm), sent, f.heard);
    } else {
      assert sent + FinalTokens([]) == sent;
    }
  }

  /**
   From a safe state, such as the start: no token is ever final twice, whatever comes, exactly when each hypothesis is
   admitted.
   */
  lemma {:induction false} NeverAgainIff(st: State, cap: nat, feeds: seq<Feed>, sent: seq<Token>)
    requires Coherent(st) && Safe(st, sent)
    ensures NeverAgain(st, cap, feeds, sent) <==> EachAdmitted(st, cap, feeds, sent)
    decreases feeds
  {
    NextNeverAgainIff(st, sent);
    if feeds != [] {
      var (st1, es) := Fed(st, cap, feeds[0].pcm, feeds[0].due, feeds[0].heard);
      FedStep(st, cap, feeds[0], sent);
      if Safe(st1, sent + FinalTokens(es)) {
        NeverAgainIff(st1, cap, feeds[1..], sent + FinalTokens(es));
      } else {
        NextNeverAgainIff(st1, sent + FinalTokens(es));
      }
    }
  }

  lemma {:induction false} SafeAfterFeeds(st: State, cap: nat, feeds: seq<Feed>, sent: seq<Token>)
    requires Coherent(st) && Safe(st, sent) && EachAdmitted(st, cap, feeds, sent)
    ensures var (st1, es) := FedAll(st, cap, feeds);
      Coherent(st1) && Safe(st1, sent + FinalTokens(es))
    decreases feeds
  {
    if feeds == [] {
      assert sent + FinalTokens([]) == sent;
    } else {
      var (st1, es) := Fed(st, cap, feeds[0].pcm, feeds[0].due, feeds[0].heard);
      FedStep(st, cap, feeds[0], sent);
      SafeAfterFeeds(st1, cap, feeds[1..], sent + FinalTokens(es));
      var later := FedAll(st1, cap, feeds[1..]).1;
      FinalTokensAppend(es, later);
      ConcatAssociates(sent, FinalTokens(es), FinalTokens(later));
    }
  }

  /** The closing flush finishes all that is open. */
  lemma FlushClaims(st: State, sent: seq<Token>, heard: string)
    requires st.buffer != []
    ensures sent + FinalTokens(Flushed(st, heard).1) == Claimed(st, sent, Tokenize(heard))
  {
    var (st1, es) := Transcribed(st, heard);
    TranscribedEmits(st, heard);
    AfterCall(st, sent, heard);
    FinalTokensAppend(es, Residual(st1));
    ResidualTokens(st1);
    ConcatAssociates(sent, FinalTokens(es), From(st1.previous, st1.confirmed));
  }

  /** So its own hypothesis decides. */
  lemma FlushDistinctIff(st: State, sent: seq<Token>, heard: string)
    requires Safe(st, sent) && st.buffer != []
    ensures NoDuplicates(sent + FinalTokens(Flushed(st, heard).1)) <==> Admits(st, sent, Tokenize(heard))
  {
    FlushClaims(st, sent, heard);
    EmptyAdmitted(st, sent);
  }

  /**
   A whole utterance whose hypotheses were admitted up to the flush: its finals are distinct exactly when the last one
   is admitted too.
   */
  lemma UtteranceDistinctIff(st: State, cap: nat, feeds: seq<Feed>, heard: string)
    requires Fresh(st) && cap >= 1 && EachAdmitted(st, cap, feeds, [])
    requires exists i :: 0 <= i < |feeds| && feeds[i].pcm != []
    ensures var (st1, es1) := FedAll(st, cap, feeds);
      NoDuplicates(FinalTokens(es1 + Flushed(st1, heard).1)) <==> Admits(st1, FinalTokens(es1), Tokenize(heard))
  {
    var (st1, es1) := FedAll(st, cap, feeds);
    assert Tokenize("") == [];
    SafeAfterFeeds(st, cap, feeds, []);
    BufferHolds(st, cap, feeds);
    assert [] + FinalTokens(es1) == FinalTokens(es1);
    FlushDistinctIff(st1, FinalTokens(es1), heard);
    FinalTokensAppend(es1, Flushed(st1, heard).1);
  }

  // ---------- After one rebase ----------

  predicate AnyIn(tokens: seq<Token>, sent: seq<Token>) {
    exists i :: 0 <= i < |tokens| && tokens[i] in sent
  }

  /** One of the tokens from `lo` up to `hi` was sent. */
  predicate SentBetween(current: seq<Token>, lo: nat, hi: nat, sent: seq<Token>) {
    exists j :: lo <= j < hi && j < |current| && current[j] in sent
  }

  lemma AgreedAnyIn(current: seq<Token>, next: seq<Token>, boundary: nat, sent: seq<Token>)
    ensures AnyIn(From(CommonPrefix(current, next), boundary), sent) <==>
      SentBetween(current, boundary, |CommonPrefix(current, next)|, sent)
  {
    var agreed := CommonPrefix(current, next);
    CommonPrefixIsLongest(current, next);
    var finals := From(agreed, boundary);
    if AnyIn(finals, sent) {
      var i :| 0 <= i < |finals| && finals[i] in sent;
      assert current[boundary + i] == agreed[boundary + i] == finals[i];
    }
    if SentBetween(current, boundary, |agreed|, sent) {
      var j :| boundary <= j < |agreed| && j < |current| && current[j] in sent;
      assert finals[j - boundary] == agreed[j] == current[j];
    }
  }

  lemma CallAfterRebase(st: State, text: string, next: string)
    requires st.rebasePending && Strip(text) != [] && Strip(next) != []
    ensures FinalTokens(Transcribed(Transcribed(st, text).0, next).1)
         == From(CommonPrefix(Tokenize(text), Tokenize(next)),
           RebaseOf(st.previous, st.confirmed, Tokenize(text)).confirmed)
  {
    TranscribedEmits(st, text);
    TranscribedEmits(Transcribed(st, text).0, next);
  }

  /**
   The call after a rebase sends a token again exactly when one stands between the new boundary and the first
   difference.
   */
  lemma AgainAfterRebaseIff(st: State, sent: seq<Token>, text: string, next: string)
    requires st.rebasePending && Strip(text) != [] && Strip(next) != []
    ensures AnyIn(FinalTokens(Transcribed(Transcribed(st, text).0, next).1), sent) <==>
      SentBetween(Tokenize(text), RebaseOf(st.previous, st.confirmed, Tokenize(text)).confirmed,
        |CommonPrefix(Tokenize(text), Tokenize(next))|, sent)
  {
    CallAfterRebase(st, text, next);
    AgreedAnyIn(Tokenize(text), Tokenize(next), RebaseOf(st.previous, st.confirmed, Tokenize(text)).confirmed, sent);
  }

  lemma SentUpToEnd(current: seq<Token>, lo: nat, hi: nat, sent: seq<Token>)
    requires SentBetween(current, lo, hi, sent)
    ensures SentBetween(current, lo, |current|, sent)
  {
    var j :| lo <= j < hi && j < |current| && current[j] in sent;
  }

  /** Some call after a rebase sends a token again exactly when one stands anywhere behind the new boundary. */
  lemma SomeCallAgainIff(st: State, sent: seq<Token>, text: string)
    requires st.rebasePending && Strip(text) != []
    ensures (exists next: string ::
      Strip(next) != [] && AnyIn(FinalTokens(Transcribed(Transcribed(st, text).0, next).1), sent)) <==>
      SentBetween(Tokenize(text), RebaseOf(st.previous, st.confirmed, Tokenize(text)).confirmed, |Tokenize(text)|, sent)
  {
    var current := Tokenize(text);
    var boundary := RebaseOf(st.previous, st.confirmed, current).confirmed;
    SamePrefix(current);
    AgainAfterRebaseIff(st, sent, text, text);
    if next: string :| Strip(next) != [] && AnyIn(FinalTokens(Transcribed(Transcribed(st, text).0, next).1), sent) {
      AgainAfterRebaseIff(st, sent, text, next);
      SentUpToEnd(current, boundary, |CommonPrefix(current, Tokenize(next))|, sent);
    }
  }

  lemma SamePrefix(tokens: seq<Token>)
    ensures CommonPrefix(tokens, tokens) == tokens
  {
    LongestIsCommonPrefix(tokens, tokens, |tokens|);
    assert tokens[..|tokens|] == tokens;
  }

  // ---------- A run that sends a token twice ----------

  lemma FedEmits(st: State, cap: nat, f: Feed)
    requires f.pcm != [] && f.due
    ensures var (st1, es) := Fed(st, cap, f.pcm, f.due, f.heard);
      var pending := st.rebasePending || |st.buffer + f.pcm| > cap;
      && Effect(st1.previous, st1.confirmed, FinalTokens(es), ShownTail(es))
           == EffectOf(st.previous, st.confirmed, pending, Tokenize(f.heard))
      && st1.buffer == Buffered(st, cap, f.pcm).buffer && !st1.rebasePending && Coherent(st1)
  {
    TranscribedEmits(Buffered(st, cap, f.pcm), f.heard);
  }

  /** One hypothesis given twice on as much audio, and another one behind a trim. */
  function AgainFeeds(part: seq<byte>, trim: seq<byte>, twice: string, once: string): seq<Feed> {
    [Feed(part, true, twice)] + ([Feed(part, true, twice)] + [Feed(trim, true, once)])
  }

  lemma NothingRetained(a: Token, b: Token, x: Token)
    requires b != a && b != x
    ensures RebaseOf([a, b], 2, [a, x]) == Rebased(2, 0, 0, 0, [])
  {
    var previous, current := [a, b], [a, x];
    forall l: nat, o: nat | l > 0
      ensures !Reappears(previous, current, l, o)
    {
      assert l <= 2 && o + l <= 2 ==>
        current[o..o + l][l - 1] == current[o + l - 1] && previous[2 - l..][l - 1] == previous[1];
    }
    RetainedOverlapSpec(previous, current, 0, 0);
    assert Between(previous, 2, 2) == [];
  }

  lemma OnceHeard(st: State, cap: nat, f: Feed, a: Token, b: Token)
    requires Fresh(st) && f.pcm != [] && |f.pcm| <= cap && f.due && Tokenize(f.heard) == [a, b]
    ensures var (st1, es) := Fed(st, cap, f.pcm, f.due, f.heard);
      FinalTokens(es) == [] && st1.previous == [a, b] && st1.confirmed == 0 && st1.buffer == f.pcm && !st1.rebasePending
  {
    FedEmits(st, cap, f);
    assert [] + f.pcm == f.pcm;
    assert CommonPrefix([], [a, b]) == [];
  }

  lemma TwiceHeard(st: State, cap: nat, f: Feed, a: Token, b: Token)
    requires st.previous == [a, b] && st.confirmed == 0 && !st.rebasePending
    requires f.pcm != [] && |st.buffer + f.pcm| <= cap && f.due && Tokenize(f.heard) == [a, b]
    ensures var (st1, es) := Fed(st, cap, f.pcm, f.due, f.heard);
      && FinalTokens(es) == [a, b] && st1.previous == [a, b] && st1.confirmed == 2
      && st1.buffer == st.buffer + f.pcm && !st1.rebasePending
  {
    FedEmits(st, cap, f);
    SamePrefix([a, b]);
  }

  lemma HeardTrimmed(st: State, cap: nat, f: Feed, a: Token, b: Token, x: Token)
    requires st.previous == [a, b] && st.confirmed == 2 && b != a && b != x
    requires f.pcm != [] && 0 < cap < |st.buffer + f.pcm| && f.due && Tokenize(f.heard) == [a, x]
    ensures var (st1, es) := Fed(st, cap, f.pcm, f.due, f.heard);
      FinalTokens(es) == [] && st1.previous == [a, x] && st1.confirmed == 0 && !st1.rebasePending && st1.buffer != []
  {
    FedEmits(st, cap, f);
    NothingRetained(a, b, x);
  }

  /** The state and the finals after the first hypothesis, given again, and after the trim. */
  lemma AgainFeedsEmit(st: State, cap: nat, f1: Feed, f2: Feed, f3: Feed, a: Token, b: Token, x: Token)
    requires Fresh(st) && a != b && b != x
    requires f1.pcm != [] && f2.pcm != [] && f3.pcm != [] && |f1.pcm + f2.pcm| <= cap < |f1.pcm + f2.pcm + f3.pcm|
    requires f1.due && f2.due && f3.due
    requires Tokenize(f1.heard) == Tokenize(f2.heard) == [a, b] && Tokenize(f3.heard) == [a, x]
    ensures var (st3, es) := FedAll(st, cap, [f1] + ([f2] + [f3]));
      FinalTokens(es) == [a, b] && st3.previous == [a, x] && st3.confirmed == 0 && !st3.rebasePending
        && st3.buffer != []
  {
    var (st1, es1) := Fed(st, cap, f1.pcm, f1.due, f1.heard);
    OnceHeard(st, cap, f1, a, b);
    var (st2, es2) := Fed(st1, cap, f2.pcm, f2.due, f2.heard);
    TwiceHeard(st1, cap, f2, a, b);
    var (st3, es3) := Fed(st2, cap, f3.pcm, f3.due, f3.heard);
    HeardTrimmed(st2, cap, f3, a, b, x);
    ThreeFeeds(st, cap, f1, f2, f3);
    FinalTokensAppend(es2, es3);
    FinalTokensAppend(es1, es2 + es3);
  }

  lemma ThreeFeeds(st: State, cap: nat, f1: Feed, f2: Feed, f3: Feed)
    ensures var (st1, es1) := Fed(st, cap, f1.pcm, f1.due, f1.heard);
      var (st2, es2) := Fed(st1, cap, f2.pcm, f2.due, f2.heard);
      var (st3, es3) := Fed(st2, cap, f3.pcm, f3.due, f3.heard);
      FedAll(st, cap, [f1] + ([f2] + [f3])) == (st3, es1 + (es2 + es3))
  {
    var (st1, es1) := Fed(st, cap, f1.pcm, f1.due, f1.heard);
    var (st2, es2) := Fed(st1, cap, f2.pcm, f2.due, f2.heard);
    var (st3, es3) := Fed(st2, cap, f3.pcm, f3.due, f3.heard);
    FeedFirst(st, cap, f1, [f2] + [f3]);
    FeedFirst(st1, cap, f2, [f3]);
    assert [f3] == [f3] + [];
    FeedFirst(st2, cap, f3, []);
    assert es3 + [] == es3;
  }

  lemma FeedFirst(st: State, cap: nat, f: Feed, rest: seq<Feed>)
    ensures var (st1, es) := Fed(st, cap, f.pcm, f.due, f.heard);
      var (st2, later) := FedAll(st1, cap, rest);
      FedAll(st, cap, [f] + rest) == (st2, es + later)
  {
    assert ([f] + rest)[1..] == rest;
  }

  lemma AgainFlush(st: State, es: seq<Emission>, heard: string, a: Token, b: Token, x: Token)
    requires st.previous == [a, x] && st.confirmed == 0 && !st.rebasePending && st.buffer != []
    requires Tokenize(heard) == [a, x] && FinalTokens(es) == [a, b]
    ensures FinalTokens(es + Flushed(st, heard).1) == [a, b, a, x]
  {
    FlushClaims(st, [a, b], heard);
    FinalTokensAppend(es, Flushed(st, heard).1);
    assert From([a, x], 0) == [a, x];
  }

  /**
   From a fresh utterance, for any cap that holds two calls: the words a and b are committed, a trim is followed by a
   and another word, and the flush sends a for the second time.
   */
  lemma CommittedTwice(st: State, cap: nat, part: seq<byte>, trim: seq<byte>, before: string, after: string, a: Token,
                       b: Token, x: Token)
    requires Fresh(st) && part != [] && trim != [] && 2 * |part| <= cap < 2 * |part| + |trim|
    requires Tokenize(before) == [a, b] && Tokenize(after) == [a, x] && b != a && b != x
    ensures var (st1, es1) := FedAll(st, cap, AgainFeeds(part, trim, before, after));
      FinalTokens(es1 + Flushed(st1, after).1) == [a, b, a, x]
  {
    AgainFeedsEmit(st, cap, Feed(part, true, before), Feed(part, true, before), Feed(trim, true, after), a, b, x);
    var (st1, es1) := FedAll(st, cap, AgainFeeds(part, trim, before, after));
    AgainFlush(st1, es1, after, a, b, x);
  }
}
