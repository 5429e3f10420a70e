/** `rake_keyword_extraction` (app.py): the phrases of a text are counted and
    ranked by how often they occur. Phrases shorter than the minimum length
    are not counted, ties keep the order in which the phrases first appear,
    and phrases below the minimum frequency are dropped. */
module Rake {
  import opened Text
  import opened Segmenter
  import opened Ranking

  /** `phrase_list` for a text: the phrases of its sentences, in order. */
  function Phrases(stopwords: set<string>, text: string): seq<string> {
    PhraseList(stopwords, SplitSentences(text))
  }

  /** The phrases that the frequency loop counts: those at least `minLen`
      characters long, in order and with their repetitions. */
  function LongEnough(phrases: seq<string>, minLen: int): seq<string> {
    if phrases == [] then []
    else
      var last := phrases[|phrases| - 1];
      LongEnough(phrases[..|phrases| - 1], minLen) + (if |last| >= minLen then [last] else [])
  }

  /** Exactly the phrases of at least `minLen` characters are counted. */
  lemma {:induction false} LongEnoughMembers(phrases: seq<string>, minLen: int)
    ensures forall p :: p in LongEnough(phrases, minLen) <==> p in phrases && |p| >= minLen
  {
    if phrases != [] {
      var init := phrases[..|phrases| - 1];
      assert phrases == init + [phrases[|phrases| - 1]];
      LongEnoughMembers(init, minLen);
    }
  }

  /** The keys of the frequency dictionary, in insertion order: each
      phrase once, where it first occurs. */
  function Distinct(s: seq<string>): seq<string> {
    if s == [] then []
    else
      var last := s[|s| - 1];
      var d := Distinct(s[..|s| - 1]);
      if last in d then d else d + [last]
  }

  /** The keys are the phrases of `s`, none twice. */
  lemma {:induction false} DistinctSpec(s: seq<string>)
    ensures forall p :: p in Distinct(s) <==> p in s
    ensures forall i, j :: 0 <= i < j < |Distinct(s)| ==> Distinct(s)[i] != Distinct(s)[j]
  {
    if s != [] {
      var init, last := s[..|s| - 1], s[|s| - 1];
      assert s == init + [last];
      DistinctSpec(init);
    }
  }

  /** The position where `p` first occurs in `s`, or `|s|` if it does not. */
  function FirstIndex(s: seq<string>, p: string): (r: nat)
    ensures r <= |s|
    ensures r < |s| <==> p in s
    ensures r < |s| ==> s[r] == p
    ensures forall k :: 0 <= k < r ==> s[k] != p
  {
    if s == [] then 0
    else if s[0] == p then 0
    else 1 + FirstIndex(s[1..], p)
  }

  /** The order of first occurrence in `s`, as a ranking of phrases. */
  function FirstSeen(s: seq<string>): string -> int {
    p => FirstIndex(s, p)
  }

  /** `freq.items()`: every distinct phrase of `s` with the number of times
      it occurs, in insertion order. */
  function Tally(s: seq<string>): seq<Entry> {
    var keys := Distinct(s);
    seq(|keys|, i requires 0 <= i < |keys| => Entry(keys[i], multiset(s)[keys[i]]))
  }

  /** What `rake_keyword_extraction(text, minLen, minFreq)` returns. */
  function Keywords(stopwords: set<string>, text: string, minLen: int, minFreq: int): seq<Entry> {
    AtLeast(SortByCountDesc(Tally(LongEnough(Phrases(stopwords, text), minLen))), minFreq)
  }

  /** `freq.items()` for the dictionary with keys `order` and counts `freq`. */
  function Items(order: seq<string>, freq: map<string, nat>): seq<Entry>
    requires forall p :: p in order ==> p in freq
  {
    seq(|order|, k requires 0 <= k < |order| => Entry(order[k], freq[order[k]]))
  }

  /** The extraction as the source performs it: a walk over the words of
      each sentence that collects phrases, a counting loop that fills an
      insertion-ordered dictionary, then the sort and the frequency filter. */
  method RakeKeywordExtraction(stopwords: set<string>, text: string, minCharLength: int, minKeywordFreq: int)
    returns (keywords: seq<Entry>)
    ensures keywords == Keywords(stopwords, text, minCharLength, minKeywordFreq)
  {
    var sentences := SplitSentences(text);
    var phraseList: seq<string> := [];
    for si := 0 to |sentences|
      invariant phraseList == PhraseList(stopwords, sentences[..si])
    {
      phraseList := WalkSentence(stopwords, sentences[si], phraseList);
      PhraseListStep(stopwords, sentences, si);
    }
    assert sentences[..|sentences|] == sentences;

    var order, freq := CountPhrases(phraseList, minCharLength);
    ItemsAreTally(LongEnough(phraseList, minCharLength), order, freq);
    keywords := SortByCountDesc(Items(order, freq));
    keywords := AtLeast(keywords, minKeywordFreq);
  }

  lemma PhraseListStep(stopwords: set<string>, sentences: seq<string>, si: nat)
    requires si < |sentences|
    ensures PhraseList(stopwords, sentences[..si + 1]) ==
            PhraseList(stopwords, sentences[..si]) + SentencePhrases(stopwords, sentences[si])
  {
    var xs := sentences[..si + 1];
    assert xs[..|xs| - 1] == sentences[..si];
    assert xs[|xs| - 1] == sentences[si];
  }

  /** The inner loop over the words of one sentence: each stripped word that
      is neither empty nor a stopword joins the current phrase, any other
      word closes it, and the phrase left at the end is closed too. */
  method WalkSentence(stopwords: set<string>, sentence: string, phraseList: seq<string>)
    returns (newList: seq<string>)
    ensures newList == phraseList + SentencePhrases(stopwords, sentence)
  {
    newList := phraseList;
    var words := WordTokens(sentence);
    ghost var tokens := StripAll(words);
    ghost var goal := phraseList + Walk(stopwords, tokens, []);
    var phrase: seq<string> := [];
    assert tokens[0..] == tokens;
    for wi := 0 to |words|
      invariant newList + Walk(stopwords, tokens[wi..], phrase) == goal
    {
      var w := Strip(words[wi]);
      StripAllAt(words, wi);
      WalkLoopStep(stopwords, tokens, wi, newList, phrase, goal);
      if w != [] && w !in stopwords {
        phrase := phrase + [w];
      } else if phrase != [] {
        newList := newList + [Join(phrase, ' ')];
        phrase := [];
      }
    }
    assert tokens[|words|..] == [];
    if phrase != [] {
      newList := newList + [Join(phrase, ' ')];
    }
    WalkFromEmpty(stopwords, tokens);
  }

  /** One pass of the inner loop keeps what remains of the walk in step with
      the phrases still to come. */
  lemma WalkLoopStep(stopwords: set<string>, tokens: seq<string>, wi: nat,
                     newList: seq<string>, phrase: seq<string>, goal: seq<string>)
    requires wi < |tokens|
    requires newList + Walk(stopwords, tokens[wi..], phrase) == goal
    ensures !IsBreak(stopwords, tokens[wi]) ==>
              newList + Walk(stopwords, tokens[wi + 1..], phrase + [tokens[wi]]) == goal
    ensures IsBreak(stopwords, tokens[wi]) && phrase != [] ==>
              newList + [Join(phrase, ' ')] + Walk(stopwords, tokens[wi + 1..], []) == goal
    ensures IsBreak(stopwords, tokens[wi]) && phrase == [] ==>
              newList + Walk(stopwords, tokens[wi + 1..], []) == goal
  {
    var rest := tokens[wi + 1..];
    assert tokens[wi..] == [tokens[wi]] + rest;
    WalkStep(stopwords, tokens[wi..], phrase);
    var flushed := Flush(phrase);
    assert newList + (flushed + Walk(stopwords, rest, [])) == newList + flushed + Walk(stopwords, rest, []);
    if phrase == [] {
      assert newList + flushed == newList;
    }
  }

  /** `freq.items()` lists what the dictionary counts, in insertion order. */
  lemma ItemsAreTally(counted: seq<string>, order: seq<string>, freq: map<string, nat>)
    requires Counts(counted, order, freq)
    ensures forall p :: p in order ==> p in freq
    ensures Items(order, freq) == Tally(counted)
  {
  }

  /** The dictionary `(order, freq)` counts the phrases of `counted`: its
      keys are the distinct phrases in order of first occurrence, and each
      maps to the number of times it occurs. */
  ghost predicate Counts(counted: seq<string>, order: seq<string>, freq: map<string, nat>) {
    && order == Distinct(counted)
    && (forall p :: p in freq <==> p in order)
    && (forall p :: p in freq ==> freq[p] == multiset(counted)[p])
  }

  /** The counting loop: every phrase of at least `minCharLength`
      characters adds one to its entry, which starts at zero. The dictionary is its
      keys in insertion order and the map from key to count. */
  method CountPhrases(phraseList: seq<string>, minCharLength: int)
    returns (order: seq<string>, freq: map<string, nat>)
    ensures Counts(LongEnough(phraseList, minCharLength), order, freq)
  {
    order, freq := [], map[];
    for i := 0 to |phraseList|
      invariant Counts(LongEnough(phraseList[..i], minCharLength), order, freq)
    {
      var p := phraseList[i];
      assert phraseList[..i + 1] == phraseList[..i] + [p];
      ghost var counted := LongEnough(phraseList[..i], minCharLength);
      CountStep(counted, order, freq, p);
      LongEnoughSnoc(phraseList[..i], p, minCharLength);
      ghost var next := LongEnough(phraseList[..i + 1], minCharLength);
      assert next == if |p| >= minCharLength then counted + [p] else counted;
      if |p| >= minCharLength {
        if p in freq {
          freq := freq[p := freq[p] + 1];
        } else {
          order := order + [p];
          freq := freq[p := 1];
        }
      }
    }
    assert phraseList[..|phraseList|] == phraseList;
  }

  /** Counting one more phrase: a known key's count goes up by one, a new
      key is appended with count one. */
  lemma CountStep(counted: seq<string>, order: seq<string>, freq: map<string, nat>, p: string)
    requires Counts(counted, order, freq)
    ensures p in freq ==> Counts(counted + [p], order, freq[p := freq[p] + 1])
    ensures p !in freq ==> Counts(counted + [p], order + [p], freq[p := 1])
  {
    DistinctSpec(counted);
    DistinctSnoc(counted, p);
    var next := if p in freq then freq[p := freq[p] + 1] else freq[p := 1];
    forall q | q in next ensures next[q] == multiset(counted + [p])[q] {
      assert multiset(counted + [p]) == multiset(counted) + multiset{p};
      if q != p {
        assert next[q] == freq[q];
      }
    }
  }

  lemma LongEnoughSnoc(s: seq<string>, p: string, minLen: int)
    ensures LongEnough(s + [p], minLen) == LongEnough(s, minLen) + (if |p| >= minLen then [p] else [])
  {
    assert (s + [p])[..|s|] == s;
  }

  lemma DistinctSnoc(s: seq<string>, p: string)
    ensures Distinct(s + [p]) == if p in s then Distinct(s) else Distinct(s) + [p]
  {
    assert (s + [p])[..|s|] == s;
    DistinctSpec(s);
  }

  /** A phrase of at least `minLen` characters is counted as often as it
      occurs; a shorter one is not counted at all. */
  lemma {:induction false} LongEnoughCount(s: seq<string>, minLen: int, p: string)
    ensures multiset(LongEnough(s, minLen))[p] == if |p| >= minLen then multiset(s)[p] else 0
  {
    if s != [] {
      var init, last := s[..|s| - 1], s[|s| - 1];
      assert s == init + [last];
      LongEnoughCount(init, minLen, p);
    }
  }

  /** The items hold every distinct phrase once, with its number of
      occurrences, and nothing else. */
  lemma TallyEntries(s: seq<string>)
    ensures forall e: Entry :: e in Tally(s) <==> e.phrase in s && e.count == multiset(s)[e.phrase]
  {
    DistinctSpec(s);
    var keys := Distinct(s);
    var t := Tally(s);
    forall e: Entry | e.phrase in s && e.count == multiset(s)[e.phrase] ensures e in t {
      var k :| 0 <= k < |keys| && keys[k] == e.phrase;
      assert t[k] == e;
    }
  }

  lemma FirstIndexSnoc(s: seq<string>, last: string, p: string)
    requires p in s
    ensures FirstIndex(s + [last], p) == FirstIndex(s, p)
  {
    var r, r' := FirstIndex(s, p), FirstIndex(s + [last], p);
    assert (s + [last])[r] == p;
    if r' < r {
      assert s[r'] == (s + [last])[r'];
    }
  }

  /** The keys of the dictionary come in order of first occurrence. */
  lemma {:induction false} DistinctFirstSeen(s: seq<string>)
    ensures forall i, j :: 0 <= i < j < |Distinct(s)| ==>
              FirstIndex(s, Distinct(s)[i]) < FirstIndex(s, Distinct(s)[j])
  {
    if s != [] {
      var init, last := s[..|s| - 1], s[|s| - 1];
      assert s == init + [last];
      DistinctFirstSeen(init);
      DistinctSpec(init);
      var d, d' := Distinct(init), Distinct(s);
      forall i, j | 0 <= i < j < |d'| ensures FirstIndex(s, d'[i]) < FirstIndex(s, d'[j]) {
        assert d'[i] == d[i] && d[i] in init;
        FirstIndexSnoc(init, last, d[i]);
        if j < |d| {
          assert d'[j] == d[j] && d[j] in init;
          FirstIndexSnoc(init, last, d[j]);
        } else {
          assert d'[j] == last && last !in init;
        }
      }
    }
  }

  /** The items come in order of first occurrence of their phrases. */
  lemma TallyFirstSeen(s: seq<string>)
    ensures IncreasingRank(Tally(s), FirstSeen(s))
  {
    DistinctFirstSeen(s);
    var t, d, rank := Tally(s), Distinct(s), FirstSeen(s);
    forall i, j | 0 <= i < j < |t| ensures rank(t[i].phrase) < rank(t[j].phrase) {
      assert t[i].phrase == d[i] && t[j].phrase == d[j];
    }
  }

  /** What the extraction returns, entry by entry: `(p, n)` is a keyword
      exactly when `p` is a phrase of the text at least `minLen` long that
      occurs `n` times, and `n` is at least `minFreq`. */
  lemma KeywordsExact(stopwords: set<string>, text: string, minLen: int, minFreq: int)
    ensures var phrases := Phrases(stopwords, text);
            forall p: string, n: nat :: Entry(p, n) in Keywords(stopwords, text, minLen, minFreq) <==>
              p in phrases && |p| >= minLen && n == multiset(phrases)[p] && n >= minFreq
  {
    var phrases := Phrases(stopwords, text);
    var counted := LongEnough(phrases, minLen);
    LongEnoughMembers(phrases, minLen);
    TallyEntries(counted);
    SortByCountDescSpec(Tally(counted));
    AtLeastMembers(SortByCountDesc(Tally(counted)), minFreq);
    forall p: string | |p| >= minLen {
      LongEnoughCount(phrases, minLen, p);
    }
  }

  /** Every keyword is a phrase: one or more words of word characters,
      none of them a stopword, joined by single spaces. */
  lemma KeywordsArePhrases(stopwords: set<string>, text: string, minLen: int, minFreq: int)
    ensures forall e: Entry :: e in Keywords(stopwords, text, minLen, minFreq) ==> IsPhrase(stopwords, e.phrase)
  {
    KeywordsExact(stopwords, text, minLen, minFreq);
    PhraseListArePhrases(stopwords, SplitSentences(text));
    forall e: Entry | e in Keywords(stopwords, text, minLen, minFreq) ensures IsPhrase(stopwords, e.phrase) {
      assert Entry(e.phrase, e.count) == e;
    }
  }

  /** The keywords are sorted by descending count, and keywords of equal
      count keep the order in which their phrases first occur. */
  lemma KeywordsRanked(stopwords: set<string>, text: string, minLen: int, minFreq: int)
    ensures RankedBy(Keywords(stopwords, text, minLen, minFreq),
                     FirstSeen(LongEnough(Phrases(stopwords, text), minLen)))
  {
    var counted := LongEnough(Phrases(stopwords, text), minLen);
    var rank := FirstSeen(counted);
    TallyFirstSeen(counted);
    SortRanked(Tally(counted), rank);
    AtLeastRanked(SortByCountDesc(Tally(counted)), minFreq, rank);
  }

  /** No phrase is listed twice. */
  lemma KeywordsDistinct(stopwords: set<string>, text: string, minLen: int, minFreq: int)
    ensures var r := Keywords(stopwords, text, minLen, minFreq);
            forall i, j :: 0 <= i < j < |r| ==> r[i].phrase != r[j].phrase
  {
    var r := Keywords(stopwords, text, minLen, minFreq);
    var rank := FirstSeen(LongEnough(Phrases(stopwords, text), minLen));
    KeywordsExact(stopwords, text, minLen, minFreq);
    KeywordsRanked(stopwords, text, minLen, minFreq);
    forall i, j | 0 <= i < j < |r| ensures r[i].phrase != r[j].phrase {
      assert Precedes(r[i], r[j], rank);
      assert Entry(r[i].phrase, r[i].count) in r && Entry(r[j].phrase, r[j].count) in r;
    }
  }

  /** A text of nothing but whitespace and sentence ends has no keywords. */
  lemma KeywordsOfBlank(stopwords: set<string>, text: string, minLen: int, minFreq: int)
    requires forall i :: 0 <= i < |text| ==> IsSpace(text[i]) || IsSentenceEnd(text[i])
    ensures Keywords(stopwords, text, minLen, minFreq) == []
  {
    SplitSentencesEmpty(text);
    assert Phrases(stopwords, text) == [];
  }

  /** A sentence whose every word token, stripped, is a stopword or empty
      has no phrases. */
  lemma SentenceOfBreaks(stopwords: set<string>, sentence: string)
    requires forall i :: 0 <= i < |WordTokens(sentence)| ==> IsBreak(stopwords, Strip(WordTokens(sentence)[i]))
    ensures SentencePhrases(stopwords, sentence) == []
  {
    var words := WordTokens(sentence);
    var tokens := StripAll(words);
    forall i | 0 <= i < |tokens| ensures IsBreak(stopwords, tokens[i]) {
      StripAllAt(words, i);
    }
    AllBreaksNoPhrases(stopwords, tokens);
    WalkFromEmpty(stopwords, tokens);
  }

  lemma {:induction false} PhraseListOfBreaks(stopwords: set<string>, sentences: seq<string>)
    requires forall s, i :: s in sentences && 0 <= i < |WordTokens(s)| ==> IsBreak(stopwords, Strip(WordTokens(s)[i]))
    ensures PhraseList(stopwords, sentences) == []
  {
    if sentences != [] {
      var init, last := sentences[..|sentences| - 1], sentences[|sentences| - 1];
      assert forall s :: s in init ==> s in sentences;
      PhraseListOfBreaks(stopwords, init);
      SentenceOfBreaks(stopwords, last);
    }
  }

  /** A text made of nothing but stopwords and non-word characters has no
      keywords: every stripped word token of every sentence is a stopword or
      empty. */
  lemma KeywordsOfStopwordsOnly(stopwords: set<string>, text: string, minLen: int, minFreq: int)
    requires forall s, i :: s in SplitSentences(text) && 0 <= i < |WordTokens(s)| ==> IsBreak(stopwords, Strip(WordTokens(s)[i]))
    ensures Keywords(stopwords, text, minLen, minFreq) == []
  {
    PhraseListOfBreaks(stopwords, SplitSentences(text));
    assert Phrases(stopwords, text) == [];
  }

  lemma PhraseListSnoc(stopwords: set<string>, xs: seq<string>, last: string)
    ensures PhraseList(stopwords, xs + [last]) == PhraseList(stopwords, xs) + SentencePhrases(stopwords, last)
  {
    var zs := xs + [last];
    assert zs[..|zs| - 1] == xs;
  }

  lemma {:induction false} PhraseListAppend(stopwords: set<string>, xs: seq<string>, ys: seq<string>)
    ensures PhraseList(stopwords, xs + ys) == PhraseList(stopwords, xs) + PhraseList(stopwords, ys)
  {
    if ys == [] {
      assert xs + ys == xs;
    } else {
      var init, last := ys[..|ys| - 1], ys[|ys| - 1];
      assert ys == init + [last];
      assert xs + ys == (xs + init) + [last];
      PhraseListAppend(stopwords, xs, init);
      PhraseListSnoc(stopwords, xs + init, last);
      PhraseListSnoc(stopwords, init, last);
      ConcatAssoc(PhraseList(stopwords, xs), PhraseList(stopwords, init), SentencePhrases(stopwords, last));
    }
  }

  /** No phrase spans a sentence end: the phrases of two texts joined by one
      are those of the first followed by those of the second. */
  lemma PhrasesAcrossSentences(stopwords: set<string>, a: string, t: char, b: string)
    requires IsSentenceEnd(t)
    ensures Phrases(stopwords, a + [t] + b) == Phrases(stopwords, a) + Phrases(stopwords, b)
  {
    SplitSentencesAppend(a, t, b);
    PhraseListAppend(stopwords, SplitSentences(a), SplitSentences(b));
  }
}
