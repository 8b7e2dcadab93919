/** tokenize_text and detokenize_text of src/obs_captions/stt/local_whisper.py, and local_agreement of base.py. */
module Tokens {

  /** A non-empty piece of text: a word, or a character of a one-word text. */
  type Token = string

  /** str.isspace, which strip and split go by. */
  predicate IsSpace(c: char) {
    var k := c as int;
    || 0x09 <= k <= 0x0D || 0x1C <= k <= 0x20 || k == 0x85 || k == 0xA0 || k == 0x1680
    || 0x2000 <= k <= 0x200A || k == 0x2028 || k == 0x2029 || k == 0x202F || k == 0x205F || k == 0x3000
  }

  predicate NoSpaceIn(s: string) {
    forall i :: 0 <= i < |s| ==> !IsSpace(s[i])
  }

  function StripLeft(s: string): (r: string)
    ensures |r| <= |s|
    ensures r == [] || !IsSpace(r[0])
  {
    if s == [] || !IsSpace(s[0]) then s else StripLeft(s[1..])
  }

  function StripRight(s: string): (r: string)
    ensures |r| <= |s| && r == s[..|r|]
    ensures r == [] || !IsSpace(r[|r| - 1])
  {
    if s == [] || !IsSpace(s[|s| - 1]) then s else StripRight(s[..|s| - 1])
  }

  function Strip(s: string): string {
    StripRight(StripLeft(s))
  }

  lemma StripIdempotent(s: string)
    ensures Strip(Strip(s)) == Strip(s)
  {
    var left := StripLeft(s);
    var r := StripRight(left);
    if r != [] {
      assert r[0] == left[0];
    }
  }

  predicate AllSpace(s: string) {
    forall i :: 0 <= i < |s| ==> IsSpace(s[i])
  }

  lemma {:induction false} StripLeftFinds(before: string, core: string)
    requires AllSpace(before) && (core == [] || !IsSpace(core[0]))
    ensures StripLeft(before + core) == core
    decreases |before|
  {
    if before == [] {
      assert before + core == core;
    } else {
      assert (before + core)[1..] == before[1..] + core;
      StripLeftFinds(before[1..], core);
    }
  }

  lemma {:induction false} StripRightFinds(core: string, after: string)
    requires AllSpace(after) && (core == [] || !IsSpace(core[|core| - 1]))
    ensures StripRight(core + after) == core
    decreases |after|
  {
    if after == [] {
      assert core + after == core;
    } else {
      assert (core + after)[..|core + after| - 1] == core + after[..|after| - 1];
      StripRightFinds(core, after[..|after| - 1]);
    }
  }

  /** Stripping removes the white space at both ends, all of it, and nothing else. */
  lemma StripFinds(before: string, core: string, after: string)
    requires AllSpace(before) && AllSpace(after)
    requires core == [] || (!IsSpace(core[0]) && !IsSpace(core[|core| - 1]))
    ensures Strip(before + core + after) == core
  {
    if core == [] {
      assert before + core + after == (before + after) + [];
      StripLeftFinds(before + after, []);
    } else {
      assert before + core + after == before + (core + after);
      StripLeftFinds(before, core + after);
      StripRightFinds(core, after);
    }
  }

  /** The length of the leading run without white space. */
  function WordLength(s: string): (n: nat)
    ensures n <= |s| && NoSpaceIn(s[..n])
    ensures n < |s| ==> IsSpace(s[n])
  {
    if s == [] || IsSpace(s[0]) then 0
    else
      var n := WordLength(s[1..]);
      assert s[..n + 1] == [s[0]] + s[1..][..n];
      n + 1
  }

  /** str.split(): the maximal runs without white space. */
  function Split(s: string): (words: seq<Token>)
    ensures forall i :: 0 <= i < |words| ==> words[i] != [] && NoSpaceIn(words[i])
    decreases |s|
  {
    if s == [] then []
    else if IsSpace(s[0]) then Split(s[1..])
    else
      var n := WordLength(s);
      [s[..n]] + Split(s[n..])
  }

  function Characters(s: string): (tokens: seq<Token>)
    ensures |tokens| == |s| && forall i :: 0 <= i < |s| ==> tokens[i] == [s[i]]
  {
    seq(|s|, i requires 0 <= i < |s| => [s[i]])
  }

  /** tokenize_text: words, or characters when there is only one word. */
  function Tokenize(text: string): (tokens: seq<Token>)
    ensures forall i :: 0 <= i < |tokens| ==> tokens[i] != []
    ensures tokens == [] <==> Strip(text) == []
  {
    var stripped := Strip(text);
    if stripped == [] then []
    else
      var words := Split(stripped);
      if |words| > 1 then words else Characters(stripped)
  }

  lemma TokenizeStripped(text: string)
    ensures Tokenize(Strip(text)) == Tokenize(text)
  {
    StripIdempotent(text);
  }

  function Join(separator: string, tokens: seq<Token>): string {
    if tokens == [] then []
    else if |tokens| == 1 then tokens[0]
    else tokens[0] + separator + Join(separator, tokens[1..])
  }

  /** detokenize_text */
  function Detokenize(tokens: seq<Token>, sourceText: string): string {
    if ' ' in sourceText then Join(" ", tokens) else Join("", tokens)
  }

  lemma DetokenizeEmpty(tokens: seq<Token>, sourceText: string)
    requires forall i :: 0 <= i < |tokens| ==> tokens[i] != []
    ensures Detokenize(tokens, sourceText) == [] <==> tokens == []
  {
  }

  lemma WordLengthOfWord(word: Token, rest: string)
    requires word != [] && NoSpaceIn(word)
    requires rest == [] || IsSpace(rest[0])
    ensures WordLength(word + rest) == |word|
  {
    if |word| == 1 {
      assert (word + rest)[1..] == rest;
    } else {
      assert (word + rest)[1..] == word[1..] + rest;
      WordLengthOfWord(word[1..], rest);
    }
  }

  lemma SplitFirst(word: Token, rest: string)
    requires word != [] && NoSpaceIn(word)
    requires rest == [] || IsSpace(rest[0])
    ensures Split(word + rest) == [word] + Split(rest)
  {
    WordLengthOfWord(word, rest);
    assert (word + rest)[..|word|] == word && (word + rest)[|word|..] == rest;
    assert (word + rest)[0] == word[0];
  }

  lemma {:induction false} WordLengthBefore(a: string, b: string)
    requires b != [] && IsSpace(b[0])
    ensures WordLength(a + b) == WordLength(a)
    decreases |a|
  {
    if a == [] {
      assert a + b == b;
    } else {
      assert (a + b)[0] == a[0] && (a + b)[1..] == a[1..] + b;
      WordLengthBefore(a[1..], b);
    }
  }

  /** White space separates words, and only it does: splitting a text is splitting what stands on both sides. */
  lemma {:induction false} SplitAtSpace(a: string, space: char, b: string)
    requires IsSpace(space)
    ensures Split(a + ([space] + b)) == Split(a) + Split(b)
    decreases |a|
  {
    var rest := [space] + b;
    if a == [] {
      assert a + rest == rest && rest[1..] == b;
      assert Split(a) + Split(b) == Split(b);
    } else if IsSpace(a[0]) {
      assert (a + rest)[0] == a[0] && (a + rest)[1..] == a[1..] + rest;
      SplitAtSpace(a[1..], space, b);
    } else {
      var n := WordLength(a);
      WordLengthBefore(a, rest);
      assert (a + rest)[0] == a[0] && (a + rest)[..n] == a[..n] && (a + rest)[n..] == a[n..] + rest;
      SplitAtSpace(a[n..], space, b);
      assert [a[..n]] + (Split(a[n..]) + Split(b)) == ([a[..n]] + Split(a[n..])) + Split(b);
    }
  }

  lemma SplitWord(word: Token)
    requires word != [] && NoSpaceIn(word)
    ensures Split(word) == [word]
  {
    assert word + [] == word;
    SplitFirst(word, []);
  }

  lemma {:induction false} SplitJoined(words: seq<Token>)
    requires forall i :: 0 <= i < |words| ==> words[i] != [] && NoSpaceIn(words[i])
    ensures Split(Join(" ", words)) == words
    decreases |words|
  {
    if |words| == 1 {
      assert words[0] + [] == words[0];
      SplitFirst(words[0], []);
    } else if |words| > 1 {
      var rest := Join(" ", words[1..]);
      SplitJoined(words[1..]);
      assert (" " + rest)[1..] == rest;
      SplitFirst(words[0], " " + rest);
      assert words[0] + " " + rest == words[0] + (" " + rest);
    }
  }

  lemma {:induction false} JoinedEnds(words: seq<Token>)
    requires words != [] && forall i :: 0 <= i < |words| ==> words[i] != [] && NoSpaceIn(words[i])
    ensures var s := Join(" ", words); s != [] && !IsSpace(s[0]) && !IsSpace(s[|s| - 1])
    decreases |words|
  {
    if |words| > 1 {
      JoinedEnds(words[1..]);
    }
  }

  lemma {:induction false} JoinCharacters(s: string)
    ensures Join("", Characters(s)) == s
    decreases |s|
  {
    if |s| > 1 {
      assert Characters(s)[1..] == Characters(s[1..]);
      JoinCharacters(s[1..]);
    }
  }

  lemma {:induction false} JoinWithoutSpaces(words: seq<Token>)
    requires forall i :: 0 <= i < |words| ==> words[i] != [] && NoSpaceIn(words[i])
    ensures NoSpaceIn(Join("", words)) && |Join("", words)| >= |words|
    decreases |words|
  {
    if |words| > 1 {
      JoinWithoutSpaces(words[1..]);
    }
  }

  lemma {:induction false} SplitFindsAWord(s: string)
    requires s != [] && !IsSpace(s[|s| - 1])
    ensures Split(s) != []
    decreases |s|
  {
    if IsSpace(s[0]) {
      SplitFindsAWord(s[1..]);
    }
  }

  lemma SingleWord(s: string)
    requires s != [] && !IsSpace(s[0]) && !IsSpace(s[|s| - 1])
    ensures |Split(s)| >= 1
    ensures |Split(s)| == 1 <==> NoSpaceIn(s)
  {
    var n := WordLength(s);
    assert Split(s) == [s[..n]] + Split(s[n..]);
    if n < |s| {
      SplitFindsAWord(s[n..]);
    } else {
      assert s[..n] == s && s[n..] == [];
    }
  }

  lemma StripOfTrimmed(s: string)
    requires s == [] || (!IsSpace(s[0]) && !IsSpace(s[|s| - 1]))
    ensures Strip(s) == s
  {
  }

  lemma StrippedEnds(s: string)
    ensures var r := Strip(s); r == [] || (!IsSpace(r[0]) && !IsSpace(r[|r| - 1]))
  {
    var left := StripLeft(s);
    var r := StripRight(left);
    if r != [] {
      assert r[0] == left[0];
    }
  }

  lemma CharactersAsWords(s: string)
    requires NoSpaceIn(s)
    ensures forall i :: 0 <= i < |s| ==> Characters(s)[i] != [] && NoSpaceIn(Characters(s)[i])
  {
  }

  lemma OneCharacter(s: string)
    requires |s| == 1
    ensures Characters(s) == [s]
  {
    assert Characters(s)[0] == s;
  }

  lemma CharactersAppend(s: string, t: string)
    ensures Characters(s + t) == Characters(s) + Characters(t)
  {
  }

  /** Words joined with spaces tokenize to those words again, also when every word is one character. */
  lemma TokenizeSpaced(words: seq<Token>)
    requires words != [] && forall i :: 0 <= i < |words| ==> words[i] != [] && NoSpaceIn(words[i])
    requires |words| == 1 ==> |words[0]| == 1
    ensures Tokenize(Join(" ", words)) == words
  {
    SplitJoined(words);
    JoinedEnds(words);
    StripOfTrimmed(Join(" ", words));
    if |words| == 1 {
      OneCharacter(words[0]);
    }
  }

  lemma TokenizeUnspaced(s: string)
    requires s != [] && NoSpaceIn(s)
    ensures Tokenize(s) == Characters(s)
  {
    StripOfTrimmed(s);
    SingleWord(s);
  }

  lemma {:induction false} JoinedLength(words: seq<Token>)
    requires forall i :: 0 <= i < |words| ==> words[i] != []
    ensures |Join("", words)| == |words| <==> forall i :: 0 <= i < |words| ==> |words[i]| == 1
    ensures |Join("", words)| >= |words|
    decreases |words|
  {
    if |words| > 1 {
      JoinedLength(words[1..]);
      assert forall i :: 0 < i < |words| ==> words[i] == words[1..][i - 1];
    }
  }

  lemma {:induction false} JoinSingles(words: seq<Token>)
    requires forall i :: 0 <= i < |words| ==> |words[i]| == 1
    ensures Characters(Join("", words)) == words
    decreases |words|
  {
    if |words| >= 1 {
      OneCharacter(words[0]);
    }
    if |words| > 1 {
      JoinSingles(words[1..]);
      var rest := Join("", words[1..]);
      assert words[0] + "" + rest == words[0] + rest;
      CharactersAppend(words[0], rest);
    }
  }

  /**
   Detokenizing a tokenized text and tokenizing again gives the same tokens, unless the text has
   several words, one of them longer than a character, and no space character among its white space.
   */
  lemma DetokenizeRoundTripIff(text: string)
    ensures Tokenize(Detokenize(Tokenize(text), text)) == Tokenize(text) <==>
      (' ' in text || |Split(Strip(text))| <= 1 || forall i :: 0 <= i < |Tokenize(text)| ==> |Tokenize(text)[i]| == 1)
  {
    var stripped, tokens := Strip(text), Tokenize(text);
    StrippedEnds(text);
    if stripped == [] {
      assert Detokenize(tokens, text) == [];
    } else {
      SingleWord(stripped);
      if |Split(stripped)| == 1 {
        CharactersAsWords(stripped);
        if ' ' in text {
          TokenizeSpaced(tokens);
        } else {
          JoinCharacters(stripped);
          TokenizeUnspaced(stripped);
        }
      } else if ' ' in text {
        TokenizeSpaced(tokens);
      } else {
        JoinWithoutSpaces(tokens);
        TokenizeUnspaced(Join("", tokens));
        JoinedLength(tokens);
        if forall i :: 0 <= i < |tokens| ==> |tokens[i]| == 1 {
          JoinSingles(tokens);
        }
      }
    }
  }

  /**
   Two words with white space other than a space character between them, as in "ab\tcd", fall apart into characters.
   */
  lemma UnspacedWordsFallApart(a: Token, separator: char, b: Token)
    requires |a| > 1 && b != [] && NoSpaceIn(a) && NoSpaceIn(b)
    requires IsSpace(separator) && separator != ' '
    ensures var text := a + [separator] + b;
      Tokenize(Detokenize(Tokenize(text), text)) != Tokenize(text)
  {
    var text := a + [separator] + b;
    StripOfTrimmed(text);
    assert text[|a|] == separator;
    SingleWord(text);
    assert text == a + ([separator] + b);
    SplitFirst(a, [separator] + b);
    assert Tokenize(text)[0] == a;
    assert forall i :: 0 <= i < |text| ==> text[i] != ' ' by {
      assert IsSpace(' ');
    }
    DetokenizeRoundTripIff(text);
  }

  lemma TabbedWordsFallApart()
    ensures Tokenize(Detokenize(Tokenize("ab" + ['\t'] + "cd"), "ab" + ['\t'] + "cd")) != Tokenize("ab" + ['\t'] + "cd")
  {
    UnspacedWordsFallApart("ab", '\t', "cd");
  }
}
