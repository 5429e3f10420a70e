# Persian keyword extractor — a Dafny model

This project models the core of `app.py`, a small web page that extracts
keywords from Persian texts. It covers the following parts:

- `simple_tokenizer` replaces every character outside the Arabic block
  (U+0600–U+06FF) and outside whitespace with a space. It then splits on
  whitespace and drops stopwords and tokens of two characters or fewer.
- `split_sentences` cuts a text at `.`, `!`, the Arabic question mark U+061F
  and newlines. It keeps the stripped, non-empty pieces.
- `rake_keyword_extraction` first splits each sentence at runs of non-word
  characters. A walk over the tokens gathers runs of consecutive
  non-stopword tokens into space-joined phrases. The method then counts the
  phrases that have at least `min_char_length` characters, in an
  insertion-ordered dictionary. It sorts the `(phrase, count)` items by
  count, descending, with a stable sort, and keeps the items whose count is
  at least `min_keyword_freq`. It is modelled as an imperative method with
  the source's loops, and is proved equal to a functional specification
  (`Rake.Keywords`).
- `index` reads the form fields and parses the keyword count with `int()`,
  falling back to 5. It splits the input into stripped non-blank lines. It
  then either runs TF-IDF over all lines, or runs RAKE on each line and cuts
  the result to the count.

Modules, one per file:

- `Text`: character classes, `strip`, the split and join operations with
  their laws
- `Tokenizer`: `simple_tokenizer`
- `Segmenter`: `split_sentences` and the phrase walk as functions
- `Ranking`: the stable descending sort and the frequency filter
- `IntParse`: Python's `int()` on strings
- `Rake`: `rake_keyword_extraction`
- `Orchestrator`: `index`
- `Wrappers`: an `Option` type

The stopword set is a parameter of every operation that uses it.

Python's dictionary `freq` is an insertion-ordered dictionary. It is
modelled as the pair of its key order (`order: seq<string>`) and its
contents (`freq: map<string, nat>`).

## Model

| member | source | states |
|---|---|---|
| Text.IsSpace | app.py:14-15 | The whitespace of `str.isspace` and of `\s`, as a fixed character table. It has no contract of its own: `StripEmpty`, `WordsOfBlank` and `LinesEmpty` state what it decides. |
| Text.InArabicBlock | app.py:14 | The character range U+0600–U+06FF that the substitution keeps. It has no contract of its own: `ScriptFilter` and `TokenizeOutsideScript` state it. |
| Text.IsWordChar | app.py:44 | The characters `\w` matches, for ASCII and the Arabic block. It has no contract of its own: `WordCharIsNotSpace` and the `SplitRuns` lemmas state how it cuts the words. |
| Tokenizer.ScriptFilter | app.py:14 | The result has the text's length. Every character is in the Arabic block or is whitespace. Arabic-block and whitespace characters are kept as they are. Any other character becomes a space. |
| Tokenizer.Words | app.py:15 | `str.split()` yields non-empty pieces that contain no whitespace. |
| Tokenizer.WordsKeepAllText | app.py:15 | Concatenating the pieces of `str.split()` gives back exactly the non-whitespace characters of the text, in order. |
| Tokenizer.KeepTokens | app.py:15 | A word survives the filter exactly when it occurs in the input, is not a stopword and is longer than two characters. |
| Tokenizer.IsKeptToken | app.py:15 | The tokenizer's filter condition: not a stopword and longer than two characters. It has no contract of its own: `KeepTokens` and `KeepTokensAll` state it. |
| Tokenizer.Tokenize | app.py:13-15 | Every token is a non-stopword longer than two characters made only of Arabic-block, non-space characters; the empty text has no tokens. |
| Tokenizer.TokenizeAppend | app.py:13-15 | A separator character (whitespace or anything outside the Arabic block) splits the token list: tokens of `a + [c] + b` are those of `a` followed by those of `b`. |
| Tokenizer.TokenizeScriptText | app.py:13-15 | On a text of Arabic-block letters and spaces whose words are all kept, the tokens are exactly the whitespace-split words, in order. |
| Tokenizer.KeepTokensAll | app.py:15 | The filter changes nothing when every word is kept. |
| Tokenizer.KeepTokensAppend | app.py:15 | The filter distributes over concatenation (keeps order). |
| Tokenizer.ScriptFilterAppend | app.py:14 | The substitution works character by character. |
| Tokenizer.WordsOfBlank | app.py:15 | `str.split()` of a blank string has no words. |
| Tokenizer.TokenizeOutsideScript | app.py:13-15 | A text with no character of the Arabic block (Latin text, digits, punctuation) has no tokens. |
| Text.Strip | app.py:37 | `str.strip()`: the result is empty or begins and ends with a non-space, and a text already in that form is returned unchanged. |
| Text.StripEmpty | app.py:37 | `strip()` yields the empty string exactly when the text is all whitespace. |
| Text.StripIsSlice | app.py:37 | `strip()` returns a slice `s[i..j]` of the text, and everything before `i` and after `j` is whitespace. |
| Text.StripKeeps | app.py:37 | Every character of the stripped text satisfies a property that every character of the text satisfies. |
| Text.TrimStartSuffix | app.py:37 | Trimming the front removes only a prefix of the dropped class (whitespace for `strip()`): the result is a suffix of the text, not starting with a dropped character unless empty. |
| Text.TrimEndPrefix | app.py:37 | Trimming the back removes only a suffix of the dropped class (whitespace for `strip()`): the result is a prefix of the text, not ending with a dropped character unless empty. |
| Text.SplitAt | app.py:36 | Splitting at single separators yields at least one piece and no piece holds a separator. |
| Text.SplitRuns | app.py:44 | Splitting at maximal separator runs yields at least one piece, no piece holds a separator, only the first and last piece can be empty, and the first is non-empty when the input starts with a non-separator. |
| Text.NoSeparatorSplitRuns | app.py:44 | A text with no non-word character is a single token. |
| Text.SplitRunsAppend | app.py:44 | The split cuts exactly at maximal runs of separators. If `run` is a whole run (the text before it does not end with a separator, and the text after it does not start with one), the pieces of `a + run + b` are those of `a` followed by those of `b`. |
| Text.RunSplitRuns | app.py:44 | A run of separators followed by a non-separator opens exactly one new piece. |
| Text.Join | app.py:52 | `' '.join` of the phrase's words. It has no contract of its own: `JoinSplitAt`, `SplitAtJoin` and `PhraseSplitsIntoWords` state that a join splits back into its pieces. |
| Text.JoinSplitAt | app.py:86 | Joining the pieces of a split with the separator gives back the input. |
| Text.SplitAtJoin | app.py:52 | Splitting a join of separator-free pieces gives back the pieces. |
| Text.SplitAtAppend | app.py:36 | A separator splits the piece list: pieces of `a + [t] + b` are those of `a` followed by those of `b`. |
| Text.NoSeparatorSplitAt | app.py:36 | A text with no separator is one piece. |
| Text.FlattenSplitAt | app.py:36 | The pieces together hold exactly the non-separator characters, in order. |
| Text.FlattenSplitRuns | app.py:44 | The pieces of a run split together hold exactly the non-separator characters, in order. |
| Text.NonEmpty | app.py:15 | Dropping empty pieces keeps only non-empty pieces of the input. |
| Text.StripNonEmpty | app.py:37 | `[p.strip() for p in ps if p.strip()]` holds only non-empty, stripped strings. |
| Text.StripNonEmptyAppend | app.py:37 | That comprehension distributes over concatenation. |
| Text.StripNonEmptySingle | app.py:37 | On one piece it yields the stripped piece, or nothing when the piece is blank. |
| Text.StripNonEmptyChars | app.py:37 | Stripping never adds a character: a property of all characters of the pieces holds for the result. |
| Text.StripNonEmptyEmpty | app.py:37 | The comprehension is empty exactly when every piece is blank. |
| Text.SplitAtAllSpace | app.py:36-37 | All pieces are blank exactly when the text holds only whitespace and separators. |
| Text.SplitAtElements | app.py:15 | A property of every character of the input holds for every character of every piece. It is used for the whitespace split of the tokenizer, and for the grouping of tokens between breaks at app.py:48-53. |
| Text.FlattenNonEmpty | app.py:15 | Dropping empty pieces loses no characters. |
| Segmenter.SplitSentences | app.py:35-37 | Every sentence is non-empty, already stripped and contains no sentence end. |
| Segmenter.IsSentenceEnd | app.py:36 | The characters `split_sentences` cuts at: `.`, `!`, U+061F and newline. It has no contract of its own: `SplitSentences` and `SplitSentencesAppend` state it. |
| Segmenter.SplitSentencesAppend | app.py:35-37 | Sentences keep their order: a sentence end splits the list into the sentences before and after it. |
| Segmenter.SplitSentencesSingle | app.py:35-37 | A text without a sentence end is the single stripped sentence, or no sentence when blank. |
| Segmenter.SplitSentencesEmpty | app.py:35-37 | There are no sentences exactly when the text holds only whitespace and sentence ends. |
| Segmenter.WordTokens | app.py:44 | The word tokens of a sentence, split at runs of non-word characters with `SplitRuns`. It has no contract of its own: the `SplitRuns` lemmas fix where it cuts. |
| Segmenter.Walk | app.py:46-55 | The word-by-word walk with its pending phrase. It has no contract of its own: `WalkIsSplit` and `WalkFromEmpty` prove it equal to joining the groups between breaks. |
| Segmenter.IsBreak | app.py:48 | A token ends the current phrase when it is empty once stripped or a stopword. It has no contract of its own: `WalkAcrossBreak` and `AllBreaksNoPhrases` state it. |
| Segmenter.SentencePhrases | app.py:44-55 | The phrases of one sentence: stripped word tokens cut at every break, each non-empty group joined with spaces. It has no contract of its own: `PhrasesAreWellFormed`, `WalkFromEmpty` and `SentenceOfBreaks` state it, and `Rake.WalkSentence` is proved equal to it. |
| Segmenter.PhraseList | app.py:43-55 | `phrase_list` for a list of sentences: each sentence's phrases, in sentence order. It has no contract of its own: `PhraseListArePhrases`, `Rake.PhraseListAppend` and `Rake.PhraseListStep` state it. |
| Segmenter.StripAll | app.py:46-47 | Stripping every token keeps the number of tokens. |
| Segmenter.PhrasesAreWellFormed | app.py:44-55 | Every phrase of a sentence is a space-joined, non-empty group of non-empty word-character tokens, none a stopword. |
| Segmenter.PhraseSplitsIntoWords | app.py:52 | Splitting a phrase at spaces gives back the words it was joined from. |
| Segmenter.PhraseListArePhrases | app.py:43-55 | Every phrase collected from all sentences is well formed. |
| Segmenter.WalkIsSplit | app.py:46-55 | The token walk with a pending phrase produces the joined non-empty groups between stopwords/empty tokens, the first group extended by the pending phrase. |
| Segmenter.WalkFromEmpty | app.py:45-55 | The walk from an empty phrase is exactly "split the tokens at breaks, join each non-empty group with spaces". |
| Segmenter.WalkAcrossBreak | app.py:48-53 | A stopword or empty token separates phrases: no phrase spans it. |
| Segmenter.AllBreaksNoPhrases | app.py:48-55 | A sentence made only of stopwords and empty tokens has no phrases. |
| Segmenter.JoinGroupsAppend | app.py:51-55 | Flushing groups keeps their order. |
| Segmenter.StripAllAt | app.py:47 | The i-th stripped token is `words[i].strip()`. |
| Ranking.InsertByCountPerm | app.py:62 | Inserting an item into the sorted list adds exactly that item (multiset). |
| Ranking.InsertNonIncreasing | app.py:62 | Inserting keeps the list sorted by descending count. |
| Ranking.SortByCountDescSpec | app.py:62 | `sorted(..., key=count, reverse=True)` is a permutation of its input with counts non-increasing. |
| Ranking.SortRanked | app.py:62 | The sort is stable: items with equal counts keep their input order (given an input order rank). |
| Ranking.InsertRanked | app.py:62 | Inserting an item that comes after all others keeps stability. |
| Ranking.AtLeastMembers | app.py:63 | The filter keeps exactly the items whose count is at least the threshold. |
| Ranking.AtLeastRanked | app.py:63 | The filter keeps the ranking order. |
| Ranking.SortByCountDesc | app.py:62 | The stable sort by count, highest first, as an insertion sort. It has no contract of its own: `SortByCountDescSpec` and `SortRanked` state it. |
| Ranking.AtLeast | app.py:63 | The minimum-frequency filter. It has no contract of its own: `AtLeastMembers` and `AtLeastRanked` state it. |
| IntParse.ParseDigits | app.py:80 | An accepted digit string starts and ends with a digit and holds only digits and underscores. |
| IntParse.DigitValue | app.py:80 | A digit's value is below ten and no digit is whitespace, an underscore or a sign. |
| IntParse.ParseShowNat | app.py:80 | Parsing the decimal form of a natural number gives it back. |
| IntParse.ParseShowInt | app.py:80 | `int(str(i)) == i` for every integer. |
| IntParse.ParseNegative | app.py:80 | A minus sign before an accepted digit string negates its value. |
| IntParse.ParseBlank | app.py:79-84 | A blank string is rejected (the `ValueError` path). |
| IntParse.ParseInt | app.py:80 | `int()` on a string: the whitespace `int()` skips is removed, then an optional sign and the digits are read. It has no contract of its own: `ParseShowInt`, `ParseNegative`, `ParseBlank` and `SeparatorBeforeDigit` state it. |
| IntParse.SeparatorBeforeDigit | app.py:80 | `int()` does not skip the information separators U+001C–U+001F that `str.strip()` removes, so a count such as `"\x1c7"` is rejected, while surrounding ASCII whitespace is skipped. |
| Rake.RakeKeywordExtraction | app.py:39-65 | The method's result equals `Keywords`: the phrases of length at least `min_char_length` counted, sorted by count descending (stably), filtered by `min_keyword_freq`. |
| Rake.WalkSentence | app.py:44-55 | The inner loop over one sentence's words appends exactly that sentence's phrases to `phrase_list`. |
| Rake.CountPhrases | app.py:57-60 | After the counting loop, the dictionary's keys are the distinct long-enough phrases in first-seen order and each value is that phrase's number of occurrences. |
| Rake.CountStep | app.py:59-60 | One dictionary update `freq[p] = freq.get(p, 0) + 1` keeps the counting invariant. |
| Rake.ItemsAreTally | app.py:62 | `freq.items()` lists each distinct phrase with its count, in insertion order. |
| Rake.LongEnoughMembers | app.py:59 | The length filter keeps exactly the phrases of at least `min_char_length` characters. |
| Rake.LongEnoughCount | app.py:59 | Filtering by length keeps every occurrence of a long-enough phrase and none of a short one. |
| Rake.DistinctSpec | app.py:57-60 | The dictionary keys are exactly the counted phrases, each once. |
| Rake.FirstIndex | app.py:57-60 | The first position of a phrase: within bounds exactly when it occurs, holding it, with no earlier occurrence. |
| Rake.TallyEntries | app.py:57-62 | An item is in the tally exactly when its phrase was counted and its count is that phrase's number of occurrences. |
| Rake.DistinctFirstSeen | app.py:57-60 | Dictionary keys appear in order of first occurrence. |
| Rake.TallyFirstSeen | app.py:57-62 | The items come in order of their phrases' first occurrence. |
| Rake.KeywordsExact | app.py:39-65 | `(p, n)` is a keyword exactly when `p` is a phrase of the text of length at least `min_char_length`, `n` is its number of occurrences and `n >= min_keyword_freq`. |
| Rake.KeywordsArePhrases | app.py:39-65 | Every keyword is a well-formed phrase. |
| Rake.KeywordsRanked | app.py:62-63 | Keywords are ordered by count, descending, ties broken by first occurrence. |
| Rake.KeywordsDistinct | app.py:57-65 | No phrase is listed twice. |
| Rake.KeywordsOfBlank | app.py:39-65 | A text of only whitespace and sentence ends has no keywords. |
| Rake.KeywordsOfStopwordsOnly | app.py:48-63 | A text whose every stripped word token, in every sentence, is a stopword or empty has no keywords. |
| Rake.SentenceOfBreaks | app.py:44-55 | A sentence whose every stripped token is a stopword or empty has no phrases. |
| Rake.PhraseListOfBreaks | app.py:43-55 | Sentences made only of stopwords and empty tokens give an empty phrase list. |
| Rake.Keywords | app.py:39-65 | The result of the extraction, as a function: the phrases at least `min_char_length` long, counted, sorted and filtered. It has no contract of its own: `KeywordsExact`, `KeywordsRanked`, `KeywordsDistinct` and `RakeKeywordExtraction` state it. |
| Rake.Phrases | app.py:40-55 | `phrase_list` for a text: the phrase list of its sentences. It has no contract of its own: `PhrasesAcrossSentences` and `KeywordsArePhrases` state it. |
| Rake.Items | app.py:62 | `freq.items()`: one entry per key, in insertion order, with its count. It has no contract of its own: `ItemsAreTally` states it. |
| Rake.LongEnough | app.py:59 | The phrases the counting loop counts. It has no contract of its own: `LongEnoughMembers` and `LongEnoughCount` state it. |
| Rake.Distinct | app.py:57-60 | The dictionary's keys, in first-seen order. It has no contract of its own: `DistinctSpec` and `DistinctFirstSeen` state it. |
| Rake.Tally | app.py:57-62 | The dictionary's items. It has no contract of its own: `TallyEntries` and `TallyFirstSeen` state it. |
| Rake.PhraseListAppend | app.py:43-55 | The phrase list of consecutive sentences is the concatenation of their phrase lists. |
| Rake.PhrasesAcrossSentences | app.py:35-55 | No phrase spans a sentence end. |
| Rake.PhraseListStep | app.py:43-55 | One pass of the sentence loop appends the sentence's phrases. |
| Orchestrator.Index | app.py:68-97 | A page load gives the default page. A post takes the three form fields and uses `KeywordCount` for the count, which is always at least one. It gives empty results when there are no lines or the method is unknown. For `rake` it gives each line's RAKE keywords, cut to the count. For `tfidf` it gives TF-IDF's result, or no page (the uncaught `ValueError`) when no line has a token. |
| Orchestrator.ReadCount | app.py:79-84 | The `try`/`except` sets the count to `KeywordCount` of the field. |
| Orchestrator.KeywordCount | app.py:79-84 | The keyword count is at least one. |
| Orchestrator.KeywordCountPositive | app.py:79-82 | A positive integer written out is used as given. |
| Orchestrator.KeywordCountNonPositive | app.py:81-82 | Zero or a negative integer falls back to 5. |
| Orchestrator.KeywordCountBlank | app.py:83-84 | A blank field falls back to 5. |
| Orchestrator.Lines | app.py:86 | Every line is non-empty, stripped and without a newline. |
| Orchestrator.LinesEmpty | app.py:86-88 | There are no lines exactly when the input is all whitespace. |
| Orchestrator.LinesAppend | app.py:86 | Lines keep their order across a newline. |
| Orchestrator.LinesSingle | app.py:86 | An input without a newline is its stripped self as one line, or no line when it is blank. |
| Orchestrator.HasVocabulary | app.py:88-90 | Whether TF-IDF has a term: some line keeps a token of `simple_tokenizer`. Without one, the vectorizer raises. It has no contract of its own: `Index` and `NoVocabularyOutsideScript` use it. |
| Orchestrator.NoVocabularyOutsideScript | app.py:88-90 | Lines with no Arabic-block character (such as `hello`) give TF-IDF no vocabulary, so the `tfidf` request fails. |
| Orchestrator.Field | app.py:76-78 | A form field, or its default when the form lacks it. It has no contract of its own: `Index` states the fields it reads. |
| Orchestrator.Take | app.py:95 | `kws[:k]` has length `min(k, len(kws))` and is a prefix of `kws`. |
| Orchestrator.AsKeywords | app.py:94-95 | Each `(phrase, count)` pair becomes a keyword with that term and count, in order. |
| Orchestrator.RakeEach | app.py:92-96 | The loop yields, in line order, each line's RAKE keywords cut to the count. |
| Orchestrator.RakeOne | app.py:94-96 | One pass of the loop computes the line's RAKE keywords cut to the count. |
| Orchestrator.RakeTop | app.py:94-95 | A line's RAKE keywords cut to the count. It has no contract of its own: `RakeTopBest` and `RakeEachAt` state it. |
| Orchestrator.RakeEachAt | app.py:92-96 | There is one keyword list per line and the i-th belongs to the i-th line. |
| Orchestrator.RakeTopBest | app.py:62-63 | The kept keywords number at most the count and each ranks above every keyword that was cut. |
| Orchestrator.MapSeqAt | app.py:93-96 | Mapping keeps the length and maps each position. |

## Left out

- `extract_keywords_tfidf` (app.py:17-33): its scores and ranking are not
  modelled. It delegates to scikit-learn's `TfidfVectorizer` and numpy's
  `argsort`, which are not part of this model. `Orchestrator.Index` takes
  the scores as a function parameter `tfidf`. It models the dispatch, and
  the one error the vectorizer raises on these inputs: an empty vocabulary
  when no line keeps a token (`Orchestrator.HasVocabulary`).
- Flask (`app`, `request.form`, `render_template`, the route) is left out.
  The request is a `Request` value, and the page handed to the template is a
  `Page` value.
- The stopword literal (app.py:7-11) is left out. The stopwords are a
  `set<string>` parameter.
- Text.IsWordChar: Python's `\w` (a character for which `str.isalnum()`
  holds, or `_`) is modelled only for ASCII and the Arabic block
  U+0600–U+06FF. Letters and digits of other scripts count as non-word
  characters here, while Python treats them as word characters.
- IntParse.ParseInt: `int()` accepts ASCII, Arabic-Indic (U+0660–U+0669) and
  Extended Arabic-Indic (U+06F0–U+06F9) digits. Other Unicode decimal
  digits are not modelled.
- IntParse.ParseInt: the limit on the number of digits that Python 3.11 and
  later enforce (4300 by default) is not modelled. Such a count parses in
  the model, while those Python versions raise and fall back to 5.
- Orchestrator.Score: TF-IDF weights are `real`, not floating point.
- `str.isspace`/`\s` use the fixed Python whitespace table. No Unicode
  database is consulted.
