/** `split_sentences` (app.py) and the phrase segmentation at the start of
    `rake_keyword_extraction`: sentences are cut at sentence-final
    punctuation, and each sentence into phrases of consecutive words that
    are not stopwords. */
module Segmenter {
  import opened Text

  /** The characters `split_sentences` cuts at: full stop, exclamation mark,
      the Arabic question mark U+061F and newline. */
  predicate IsSentenceEnd(c: char) {
    c == '.' || c == '!' || c as int == 0x061F || c == '\n'
  }

  /** `split_sentences(text)`: the stripped, non-empty pieces between
      sentence ends. */
  function SplitSentences(text: string): (r: seq<string>)
    ensures forall s :: s in r ==> s != [] && Strip(s) == s
    ensures forall s, j :: s in r && 0 <= j < |s| ==> !IsSentenceEnd(s[j])
  {
    var pieces := SplitAt(text, IsSentenceEnd);
    StripNonEmptyChars(pieces, IsNotSentenceEnd);
    StripNonEmpty(pieces)
  }

  predicate IsNotSentenceEnd(c: char) {
    !IsSentenceEnd(c)
  }

  /** Sentences keep their order: the sentences of two texts joined by a
      sentence end are those of the first followed by those of the second. */
  lemma SplitSentencesAppend(a: string, t: char, b: string)
    requires IsSentenceEnd(t)
    ensures SplitSentences(a + [t] + b) == SplitSentences(a) + SplitSentences(b)
  {
    SplitAtAppend(a, t, b, IsSentenceEnd);
    StripNonEmptyAppend(SplitAt(a, IsSentenceEnd), SplitAt(b, IsSentenceEnd));
  }

  /** A text without sentence ends is one sentence, stripped, unless it is
      all whitespace. */
  lemma SplitSentencesSingle(text: string)
    requires forall i :: 0 <= i < |text| ==> !IsSentenceEnd(text[i])
    ensures SplitSentences(text) == if AllSpace(text) then [] else [Strip(text)]
  {
    NoSeparatorSplitAt(text, IsSentenceEnd);
    StripNonEmptySingle(text);
    StripEmpty(text);
  }

  /** There are no sentences exactly when the text holds nothing but
      whitespace and sentence ends. */
  lemma SplitSentencesEmpty(text: string)
    ensures SplitSentences(text) == [] <==>
            forall i :: 0 <= i < |text| ==> IsSpace(text[i]) || IsSentenceEnd(text[i])
  {
    StripNonEmptyEmpty(SplitAt(text, IsSentenceEnd));
    SplitAtAllSpace(text, IsSentenceEnd);
  }

  /** The word tokens of a sentence: the pieces between maximal runs of
      non-word characters, as a regular-expression split at `\W+` gives. */
  function WordTokens(sentence: string): seq<string> {
    SplitRuns(sentence, IsNonWordChar)
  }

  /** A token that ends the current phrase: empty once stripped, or a stopword. */
  predicate IsBreak(stopwords: set<string>, w: string) {
    w == [] || w in stopwords
  }

  function Breaker(stopwords: set<string>): string -> bool {
    w => IsBreak(stopwords, w)
  }

  /** Every token stripped, in order. */
  function StripAll(words: seq<string>): (r: seq<string>)
    ensures |r| == |words|
  {
    if words == [] then [] else [Strip(words[0])] + StripAll(words[1..])
  }

  /** Each non-empty group of words joined with single spaces. */
  function JoinGroups(groups: seq<seq<string>>): seq<string> {
    if groups == [] then []
    else (if groups[0] == [] then [] else [Join(groups[0], ' ')]) + JoinGroups(groups[1..])
  }

  /** The words of a phrase: one or more non-empty word-character strings,
      none of them a stopword. */
  ghost predicate IsPhraseWords(stopwords: set<string>, g: seq<string>) {
    g != [] && forall w :: w in g ==> w != [] && w !in stopwords && IsWordString(w)
  }

  ghost predicate IsPhrase(stopwords: set<string>, p: string) {
    exists g :: IsPhraseWords(stopwords, g) && p == Join(g, ' ')
  }

  /** The phrases of one sentence: its stripped word tokens are cut at every
      break, and each non-empty group is joined with single spaces. */
  function SentencePhrases(stopwords: set<string>, sentence: string): seq<string> {
    JoinGroups(SplitAt(StripAll(WordTokens(sentence)), Breaker(stopwords)))
  }

  /** Every phrase of a sentence is one or more of its words, none of them a
      stopword, joined by single spaces. */
  lemma PhrasesAreWellFormed(stopwords: set<string>, sentence: string)
    ensures forall p :: p in SentencePhrases(stopwords, sentence) ==> IsPhrase(stopwords, p)
  {
    var tokens := StripAll(WordTokens(sentence));
    var isBreak := Breaker(stopwords);
    TokensAreWordStrings(sentence);
    SplitAtElements(tokens, isBreak, IsWordString);
    var groups := SplitAt(tokens, isBreak);
    BreakFreeGroups(stopwords, tokens);
    JoinGroupsArePhrases(stopwords, groups);
  }

  /** No group between breaks holds a break. */
  lemma BreakFreeGroups(stopwords: set<string>, tokens: seq<string>)
    ensures forall g, j :: g in SplitAt(tokens, Breaker(stopwords)) && 0 <= j < |g| ==> !IsBreak(stopwords, g[j])
  {
    var isBreak := Breaker(stopwords);
    var groups := SplitAt(tokens, isBreak);
    forall g, j | g in groups && 0 <= j < |g| ensures !IsBreak(stopwords, g[j]) {
      var i :| 0 <= i < |groups| && groups[i] == g;
      assert !isBreak(groups[i][j]);
    }
  }

  /** Every stripped token of a sentence is made of word characters. */
  lemma TokensAreWordStrings(sentence: string)
    ensures forall i :: 0 <= i < |StripAll(WordTokens(sentence))| ==> IsWordString(StripAll(WordTokens(sentence))[i])
  {
    var words := WordTokens(sentence);
    assert forall i, j :: 0 <= i < |words| && 0 <= j < |words[i]| ==> !IsNonWordChar(words[i][j]);
    StripAllWordStrings(words);
  }

  lemma StripAllWordStrings(words: seq<string>)
    requires forall i, j :: 0 <= i < |words| && 0 <= j < |words[i]| ==> IsWordChar(words[i][j])
    ensures forall i :: 0 <= i < |StripAll(words)| ==> IsWordString(StripAll(words)[i])
  {
    forall i | 0 <= i < |words| ensures IsWordString(StripAll(words)[i]) {
      StripAllAt(words, i);
      StripKeeps(words[i], IsWordChar);
    }
  }

  predicate IsWordString(w: string) {
    forall j :: 0 <= j < |w| ==> IsWordChar(w[j])
  }

  lemma {:induction false} JoinGroupsArePhrases(stopwords: set<string>, groups: seq<seq<string>>)
    requires forall g, j :: g in groups && 0 <= j < |g| ==> !IsBreak(stopwords, g[j]) && IsWordString(g[j])
    ensures forall p :: p in JoinGroups(groups) ==> IsPhrase(stopwords, p)
  {
    if groups != [] {
      JoinGroupsArePhrases(stopwords, groups[1..]);
      var g := groups[0];
      if g != [] {
        assert IsPhraseWords(stopwords, g) by {
          forall w | w in g ensures w != [] && w !in stopwords && IsWordString(w) {
            var j :| 0 <= j < |g| && g[j] == w;
          }
        }
      }
    }
  }

  /** A phrase can be split back at its spaces into the words it was joined
      from, with nothing lost or added. */
  lemma PhraseSplitsIntoWords(stopwords: set<string>, g: seq<string>)
    requires IsPhraseWords(stopwords, g)
    ensures SplitAt(Join(g, ' '), IsSpaceChar) == g
  {
    forall i, j | 0 <= i < |g| && 0 <= j < |g[i]| ensures g[i][j] != ' ' {
      assert g[i] in g;
      WordCharIsNotSpace(g[i][j]);
    }
    SplitAtJoin(g, ' ', IsSpaceChar);
  }

  lemma {:induction false} JoinGroupsAppend(a: seq<seq<string>>, b: seq<seq<string>>)
    ensures JoinGroups(a + b) == JoinGroups(a) + JoinGroups(b)
  {
    if a == [] {
      assert a + b == b;
    } else {
      assert (a + b)[0] == a[0] && (a + b)[1..] == a[1..] + b;
      JoinGroupsAppend(a[1..], b);
    }
  }

  /** The phrase list of the sentences, in order. */
  function PhraseList(stopwords: set<string>, sentences: seq<string>): seq<string> {
    if sentences == [] then []
    else PhraseList(stopwords, sentences[..|sentences| - 1])
         + SentencePhrases(stopwords, sentences[|sentences| - 1])
  }

  lemma {:induction false} PhraseListArePhrases(stopwords: set<string>, sentences: seq<string>)
    ensures forall p :: p in PhraseList(stopwords, sentences) ==> IsPhrase(stopwords, p)
  {
    if sentences != [] {
      PhraseListArePhrases(stopwords, sentences[..|sentences| - 1]);
      PhrasesAreWellFormed(stopwords, sentences[|sentences| - 1]);
    }
  }

  /** The buffer of pending words as a phrase, if it holds any. */
  function Flush(phrase: seq<string>): seq<string> {
    if phrase == [] then [] else [Join(phrase, ' ')]
  }

  /** The word-by-word walk of `rake_keyword_extraction` over a sentence's
      stripped tokens, from a buffer `phrase` of pending words: a token that
      is not a break joins the buffer, a break flushes it. */
  function Walk(stopwords: set<string>, tokens: seq<string>, phrase: seq<string>): seq<string> {
    if tokens == [] then Flush(phrase)
    else if !IsBreak(stopwords, tokens[0]) then Walk(stopwords, tokens[1..], phrase + [tokens[0]])
    else Flush(phrase) + Walk(stopwords, tokens[1..], [])
  }

  /** One step of the walk, on the token at the front. */
  lemma WalkStep(stopwords: set<string>, tokens: seq<string>, phrase: seq<string>)
    requires tokens != []
    ensures Walk(stopwords, tokens, phrase) ==
            if !IsBreak(stopwords, tokens[0]) then Walk(stopwords, tokens[1..], phrase + [tokens[0]])
            else Flush(phrase) + Walk(stopwords, tokens[1..], [])
  {
  }

  /** The walk flushes exactly the groups between breaks: a break always
      ends the pending phrase, and the last phrase is flushed at the end. */
  lemma {:induction false} WalkIsSplit(stopwords: set<string>, tokens: seq<string>, phrase: seq<string>)
    decreases |tokens|, 1
    ensures var groups := SplitAt(tokens, Breaker(stopwords));
            Walk(stopwords, tokens, phrase) == JoinGroups([phrase + groups[0]] + groups[1..])
  {
    if tokens == [] {
      assert phrase + [] == phrase;
    } else if !IsBreak(stopwords, tokens[0]) {
      WalkKeep(stopwords, tokens, phrase);
    } else {
      WalkBreak(stopwords, tokens, phrase);
    }
  }

  lemma {:induction false} WalkKeep(stopwords: set<string>, tokens: seq<string>, phrase: seq<string>)
    decreases |tokens|, 0
    requires tokens != [] && !IsBreak(stopwords, tokens[0])
    ensures var groups := SplitAt(tokens, Breaker(stopwords));
            Walk(stopwords, tokens, phrase) == JoinGroups([phrase + groups[0]] + groups[1..])
  {
    var isBreak := Breaker(stopwords);
    var w := tokens[0];
    assert [w] + tokens[1..] == tokens;
    SplitAtCons(w, tokens[1..], isBreak);
    var rest := SplitAt(tokens[1..], isBreak);
    WalkIsSplit(stopwords, tokens[1..], phrase + [w]);
    assert phrase + [w] + rest[0] == phrase + ([w] + rest[0]);
  }

  lemma {:induction false} WalkBreak(stopwords: set<string>, tokens: seq<string>, phrase: seq<string>)
    decreases |tokens|, 0
    requires tokens != [] && IsBreak(stopwords, tokens[0])
    ensures var groups := SplitAt(tokens, Breaker(stopwords));
            Walk(stopwords, tokens, phrase) == JoinGroups([phrase + groups[0]] + groups[1..])
  {
    var isBreak := Breaker(stopwords);
    var w := tokens[0];
    assert [w] + tokens[1..] == tokens;
    SplitAtCons(w, tokens[1..], isBreak);
    var rest := SplitAt(tokens[1..], isBreak);
    WalkIsSplit(stopwords, tokens[1..], []);
    var empty: seq<string> := [];
    assert empty + rest[0] == rest[0];
    assert [rest[0]] + rest[1..] == rest;
    JoinGroupsAppend([phrase], rest);
    assert phrase + empty == phrase;
  }

  lemma {:induction false} StripAllAppend(a: seq<string>, b: seq<string>)
    ensures StripAll(a + b) == StripAll(a) + StripAll(b)
  {
    if a == [] {
      assert a + b == b;
    } else {
      assert (a + b)[0] == a[0] && (a + b)[1..] == a[1..] + b;
      StripAllAppend(a[1..], b);
    }
  }

  lemma {:induction false} StripAllAt(words: seq<string>, i: nat)
    requires i < |words|
    ensures StripAll(words)[i] == Strip(words[i])
  {
    if i > 0 { StripAllAt(words[1..], i - 1); }
  }

  /** Walking tokens from an empty buffer yields the joins of the groups
      between breaks. */
  lemma WalkFromEmpty(stopwords: set<string>, tokens: seq<string>)
    ensures Walk(stopwords, tokens, []) == JoinGroups(SplitAt(tokens, Breaker(stopwords)))
  {
    var groups := SplitAt(tokens, Breaker(stopwords));
    WalkIsSplit(stopwords, tokens, []);
    var empty: seq<string> := [];
    assert Walk(stopwords, tokens, []) == JoinGroups([empty + groups[0]] + groups[1..]);
    assert empty + groups[0] == groups[0];
    assert [groups[0]] + groups[1..] == groups;
  }

  /** A break between two token sequences separates their phrases: the
      phrases of `a + [t] + b` are those of `a` followed by those of `b`. */
  lemma WalkAcrossBreak(stopwords: set<string>, a: seq<string>, t: string, b: seq<string>)
    requires IsBreak(stopwords, t)
    ensures Walk(stopwords, a + [t] + b, []) == Walk(stopwords, a, []) + Walk(stopwords, b, [])
  {
    var isBreak := Breaker(stopwords);
    SplitAtAppend(a, t, b, isBreak);
    WalkFromEmpty(stopwords, a + [t] + b);
    WalkFromEmpty(stopwords, a);
    WalkFromEmpty(stopwords, b);
    JoinGroupsAppend(SplitAt(a, isBreak), SplitAt(b, isBreak));
  }

  /** A sentence whose tokens are all breaks (stopwords or empty) has no phrases. */
  lemma {:induction false} AllBreaksNoPhrases(stopwords: set<string>, tokens: seq<string>)
    requires forall i :: 0 <= i < |tokens| ==> IsBreak(stopwords, tokens[i])
    ensures Walk(stopwords, tokens, []) == []
  {
    if tokens != [] {
      AllBreaksNoPhrases(stopwords, tokens[1..]);
    }
  }
}
