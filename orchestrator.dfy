/** The request handler `index` (app.py): it reads the submitted texts, the
    method and the keyword count from the form, splits the texts into
    non-blank lines, and runs TF-IDF over all lines together or RAKE on each
    line, keeping the requested number of keywords. */
module Orchestrator {
  import opened Wrappers
  import opened Text
  import opened Ranking
  import opened IntParse
  import opened Tokenizer
  import opened Rake

  /** A keyword's score: a RAKE phrase count, or a TF-IDF weight. */
  datatype Score = Count(n: nat) | Weight(w: real)

  datatype Keyword = Keyword(term: string, score: Score)

  /** The incoming request: a plain page load, or a submitted form. */
  datatype Request = Get | Post(form: map<string, string>)

  /** The values `index` hands to the page template. */
  datatype Page = Page(inputTexts: string, methodName: string, corpusKeywords: seq<Keyword>,
                       perTextKeywords: seq<seq<Keyword>>, numKeywords: int)

  /** The keyword count used when none, or no usable one, is given. */
  const DefaultCount := 5
  /** The arguments `index` passes to `rake_keyword_extraction` by default. */
  const MinCharLength := 2
  const MinKeywordFreq := 1

  /** A form field, or the default when the form lacks it. */
  function Field(form: map<string, string>, key: string, default: string): string {
    if key in form then form[key] else default
  }

  /** The keyword count for the submitted `count` field: the integer it
      holds when that is at least one, and the default otherwise. */
  function KeywordCount(s: string): (k: int)
    ensures k >= 1
  {
    match ParseInt(s)
    case Some(n) => if n < 1 then DefaultCount else n
    case None => DefaultCount
  }

  predicate IsNotNewline(c: char) {
    !IsNewline(c)
  }

  /** The input cut at newlines: the non-blank lines, stripped, in order. */
  function Lines(input: string): (r: seq<string>)
    ensures forall t :: t in r ==> t != [] && Strip(t) == t
    ensures forall t, j :: t in r && 0 <= j < |t| ==> t[j] != '\n'
  {
    var pieces := SplitAt(input, IsNewline);
    StripNonEmptyChars(pieces, IsNotNewline);
    StripNonEmpty(pieces)
  }

  /** The first `k` elements, or all of them when there are fewer. */
  function Take<T>(s: seq<T>, k: nat): (r: seq<T>)
    ensures |r| == if k < |s| then k else |s|
    ensures r == s[..|r|]
  {
    if k < |s| then s[..k] else s
  }

  /** The `(phrase, count)` pairs of RAKE as keywords. */
  function AsKeywords(entries: seq<Entry>): (r: seq<Keyword>)
    ensures |r| == |entries|
    ensures forall i :: 0 <= i < |r| ==> r[i].term == entries[i].phrase && r[i].score == Count(entries[i].count)
  {
    if entries == [] then []
    else [Keyword(entries[0].phrase, Count(entries[0].count))] + AsKeywords(entries[1..])
  }

  /** The RAKE keywords of one line, cut to `k`. */
  function RakeTop(stopwords: set<string>, line: string, k: nat): seq<Keyword> {
    AsKeywords(Take(Keywords(stopwords, line, MinCharLength, MinKeywordFreq), k))
  }

  /** The RAKE keywords of a line, cut to `k`, as a function of the line. */
  function RakeLine(stopwords: set<string>, k: nat): string -> seq<Keyword> {
    line => RakeTop(stopwords, line, k)
  }

  /** `f` applied to every element, in order. */
  function MapSeq<A, B>(f: A -> B, s: seq<A>): seq<B> {
    if s == [] then [] else MapSeq(f, s[..|s| - 1]) + [f(s[|s| - 1])]
  }

  lemma {:induction false} MapSeqAt<A, B>(f: A -> B, s: seq<A>)
    ensures |MapSeq(f, s)| == |s|
    ensures forall i :: 0 <= i < |s| ==> MapSeq(f, s)[i] == f(s[i])
  {
    if s != [] {
      var init := s[..|s| - 1];
      MapSeqAt(f, init);
      forall i | 0 <= i < |init| ensures MapSeq(f, s)[i] == f(s[i]) {
        assert s[i] == init[i];
      }
    }
  }

  lemma MapSeqSnoc<A, B>(f: A -> B, s: seq<A>, x: A)
    ensures MapSeq(f, s + [x]) == MapSeq(f, s) + [f(x)]
  {
    assert (s + [x])[..|s|] == s;
  }

  lemma MapSeqStep<A, B>(f: A -> B, s: seq<A>, i: nat, acc: seq<B>, y: B)
    requires i < |s| && acc == MapSeq(f, s[..i]) && y == f(s[i])
    ensures acc + [y] == MapSeq(f, s[..i + 1])
  {
    assert s[..i + 1] == s[..i] + [s[i]];
    MapSeqSnoc(f, s[..i], s[i]);
  }

  /** Whether TF-IDF has a term to weigh: some line keeps a token. When no
      line does, the vectorizer's vocabulary is empty and it raises
      `ValueError`, which `index` does not catch. */
  predicate HasVocabulary(stopwords: set<string>, lines: seq<string>) {
    exists i :: 0 <= i < |lines| && Tokenize(stopwords, lines[i]) != []
  }

  /** `index()`. The page is `None` when the request fails with the
      exception TF-IDF raises on an empty vocabulary. The TF-IDF scores
      themselves are the parameter `tfidf`, taking the lines and the keyword
      count and returning the corpus keywords and the keywords of each
      line. */
  method Index(stopwords: set<string>, request: Request,
               tfidf: (seq<string>, int) -> (seq<Keyword>, seq<seq<Keyword>>))
    returns (page: Option<Page>)
    ensures page.Some? ==> page.value.numKeywords >= 1
    ensures request.Get? ==> page == Some(Page("", "tfidf", [], [], DefaultCount))
    ensures request.Post? ==>
              var texts := Field(request.form, "texts", "");
              var methodName := Field(request.form, "method", "tfidf");
              var k := KeywordCount(Field(request.form, "count", "5"));
              var lines := Lines(texts);
              if lines == [] || (methodName != "tfidf" && methodName != "rake") then
                page == Some(Page(texts, methodName, [], [], k))
              else if methodName == "tfidf" then
                if HasVocabulary(stopwords, lines) then
                  page == Some(Page(texts, methodName, tfidf(lines, k).0, tfidf(lines, k).1, k))
                else
                  page == None
              else
                page == Some(Page(texts, methodName, [], MapSeq(RakeLine(stopwords, k), lines), k))
  {
    var inputTexts := "";
    var methodName := "tfidf";
    var corpusKeywords: seq<Keyword> := [];
    var perTextKeywords: seq<seq<Keyword>> := [];
    var numKeywords := DefaultCount;

    if request.Post? {
      inputTexts := Field(request.form, "texts", "");
      methodName := Field(request.form, "method", "tfidf");
      var numKeywordsStr := Field(request.form, "count", "5");
      numKeywords := ReadCount(numKeywordsStr);

      var texts := Lines(inputTexts);
      if texts != [] {
        if methodName == "tfidf" {
          if !HasVocabulary(stopwords, texts) {
            return None;
          }
          var result := tfidf(texts, numKeywords);
          corpusKeywords, perTextKeywords := result.0, result.1;
        } else if methodName == "rake" {
          perTextKeywords := RakeEach(stopwords, texts, numKeywords);
          corpusKeywords := [];
        }
      }
    }
    page := Some(Page(inputTexts, methodName, corpusKeywords, perTextKeywords, numKeywords));
  }

  /** The `try`/`except` around `int(num_keywords_str)`: the parsed count
      when it is at least one, and the default when it is smaller or when the
      conversion fails. */
  method ReadCount(numKeywordsStr: string) returns (numKeywords: int)
    ensures numKeywords == KeywordCount(numKeywordsStr)
  {
    match ParseInt(numKeywordsStr)
    case Some(n) =>
      numKeywords := n;
      if numKeywords < 1 {
        numKeywords := DefaultCount;
      }
    case None =>
      numKeywords := DefaultCount;
  }

  /** The RAKE branch: every line's keywords, cut to `k`, in line order. */
  method RakeEach(stopwords: set<string>, texts: seq<string>, k: int) returns (perTextKeywords: seq<seq<Keyword>>)
    requires k >= 1
    ensures perTextKeywords == MapSeq(RakeLine(stopwords, k), texts)
  {
    ghost var f := RakeLine(stopwords, k);
    perTextKeywords := [];
    for i := 0 to |texts|
      invariant perTextKeywords == MapSeq(f, texts[..i])
    {
      var kws := RakeOne(stopwords, texts[i], k);
      MapSeqStep(f, texts, i, perTextKeywords, kws);
      perTextKeywords := perTextKeywords + [kws];
    }
    assert texts[..|texts|] == texts;
  }

  /** The body of the loop over the lines: the line's RAKE keywords with
      the default thresholds, cut to the first `k`. */
  method RakeOne(stopwords: set<string>, line: string, k: nat) returns (kws: seq<Keyword>)
    ensures kws == RakeLine(stopwords, k)(line)
  {
    var entries := RakeKeywordExtraction(stopwords, line, MinCharLength, MinKeywordFreq);
    entries := Take(entries, k);
    kws := AsKeywords(entries);
  }

  /** One list of keywords per line: the line's RAKE keywords cut to `k`. */
  lemma RakeEachAt(stopwords: set<string>, texts: seq<string>, k: nat)
    ensures |MapSeq(RakeLine(stopwords, k), texts)| == |texts|
    ensures forall i :: 0 <= i < |texts| ==> MapSeq(RakeLine(stopwords, k), texts)[i] == RakeTop(stopwords, texts[i], k)
  {
    MapSeqAt(RakeLine(stopwords, k), texts);
  }

  /** A count that Python prints as a positive integer is used as given. */
  lemma KeywordCountPositive(n: int)
    requires n >= 1
    ensures KeywordCount(ShowInt(n)) == n
  {
    ParseShowInt(n);
  }

  /** Zero or a negative count falls back to the default. */
  lemma KeywordCountNonPositive(n: int)
    requires n < 1
    ensures KeywordCount(ShowInt(n)) == DefaultCount
  {
    ParseShowInt(n);
  }

  /** An empty or blank count field falls back to the default. */
  lemma KeywordCountBlank(s: string)
    requires AllSpace(s)
    ensures KeywordCount(s) == DefaultCount
  {
    ParseBlank(s);
  }

  /** There are no lines exactly when the input is all whitespace. */
  lemma LinesEmpty(input: string)
    ensures Lines(input) == [] <==> AllSpace(input)
  {
    StripNonEmptyEmpty(SplitAt(input, IsNewline));
    SplitAtAllSpace(input, IsNewline);
  }

  /** An input without a newline is one line, stripped, unless it is
      blank. */
  lemma LinesSingle(input: string)
    requires forall i :: 0 <= i < |input| ==> !IsNewline(input[i])
    ensures Lines(input) == if AllSpace(input) then [] else [Strip(input)]
  {
    NoSeparatorSplitAt(input, IsNewline);
    StripNonEmptySingle(input);
    StripEmpty(input);
  }

  /** Lines with no character of the Arabic block (`hello`, say) give TF-IDF
      no vocabulary, so `tfidf` on them fails. */
  lemma NoVocabularyOutsideScript(stopwords: set<string>, lines: seq<string>)
    requires forall t, j :: t in lines && 0 <= j < |t| ==> !InArabicBlock(t[j])
    ensures !HasVocabulary(stopwords, lines)
  {
    forall i | 0 <= i < |lines| ensures Tokenize(stopwords, lines[i]) == [] {
      TokenizeOutsideScript(stopwords, lines[i]);
    }
  }

  /** Lines keep their order: the lines of two inputs joined by a newline
      are those of the first followed by those of the second. */
  lemma LinesAppend(a: string, b: string)
    ensures Lines(a + "\n" + b) == Lines(a) + Lines(b)
  {
    assert a + "\n" + b == a + ['\n'] + b;
    SplitAtAppend(a, '\n', b, IsNewline);
    StripNonEmptyAppend(SplitAt(a, IsNewline), SplitAt(b, IsNewline));
  }

  /** The first `k` RAKE keywords of a line are its best: at most `k` of
      them, each ranked above every keyword that was cut. */
  lemma RakeTopBest(stopwords: set<string>, line: string, k: nat)
    ensures var all := Keywords(stopwords, line, MinCharLength, MinKeywordFreq);
            var top := Take(all, k);
            var rank := FirstSeen(LongEnough(Phrases(stopwords, line), MinCharLength));
            && |top| <= k
            && forall i, j :: 0 <= i < |top| <= j < |all| ==> Precedes(top[i], all[j], rank)
  {
    KeywordsRanked(stopwords, line, MinCharLength, MinKeywordFreq);
  }
}
