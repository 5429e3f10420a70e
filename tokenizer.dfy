/** `simple_tokenizer` (app.py): the Persian-script filter, the whitespace
    split, and the stopword and length filter. */
module Tokenizer {
  import opened Text

  /** The regular-expression substitution of the tokenizer: every character
      that is neither in the Arabic block nor whitespace becomes a space. */
  function ScriptFilter(text: string): (r: string)
    ensures |r| == |text|
    ensures forall i :: 0 <= i < |r| ==> InArabicBlock(r[i]) || IsSpace(r[i])
    ensures forall i :: 0 <= i < |r| ==> r[i] == text[i] || (r[i] == ' ' && !InArabicBlock(text[i]))
    ensures forall i :: 0 <= i < |r| && (InArabicBlock(text[i]) || IsSpace(text[i])) ==> r[i] == text[i]
  {
    seq(|text|, i requires 0 <= i < |text| =>
      if InArabicBlock(text[i]) || IsSpace(text[i]) then text[i] else ' ')
  }

  /** `s.split()`: the maximal runs of non-whitespace characters. */
  function Words(s: string): (r: seq<string>)
    ensures forall w, j :: w in r && 0 <= j < |w| ==> !IsSpace(w[j])
    ensures forall w :: w in r ==> w != []
  {
    NonEmpty(SplitAt(s, IsSpace))
  }

  predicate IsKeptToken(stopwords: set<string>, w: string) {
    w !in stopwords && |w| > 2
  }

  /** The token filter: keeps, in order, the words that are not stopwords
      and are longer than two characters. */
  function KeepTokens(stopwords: set<string>, words: seq<string>): (r: seq<string>)
    ensures forall w :: w in r <==> w in words && IsKeptToken(stopwords, w)
  {
    if words == [] then []
    else (if IsKeptToken(stopwords, words[0]) then [words[0]] else [])
         + KeepTokens(stopwords, words[1..])
  }

  /** `simple_tokenizer(text)`. */
  function Tokenize(stopwords: set<string>, text: string): (r: seq<string>)
    ensures forall w :: w in r ==> w !in stopwords && |w| > 2
    ensures forall w, j :: w in r && 0 <= j < |w| ==> InArabicBlock(w[j]) && !IsSpace(w[j])
    ensures text == [] ==> r == []
  {
    var filtered := ScriptFilter(text);
    SplitAtElements(filtered, IsSpace, InArabicOrSpace);
    KeepTokens(stopwords, Words(filtered))
  }

  predicate InArabicOrSpace(c: char) {
    InArabicBlock(c) || IsSpace(c)
  }

  /** `s.split()` loses nothing but whitespace and keeps the order. */
  lemma WordsKeepAllText(s: string)
    ensures Flatten(Words(s)) == Kept(s, IsSpace)
  {
    FlattenNonEmpty(SplitAt(s, IsSpace));
    FlattenSplitAt(s, IsSpace);
  }

  lemma {:induction false} KeepTokensAppend(stopwords: set<string>, a: seq<string>, b: seq<string>)
    ensures KeepTokens(stopwords, a + b) == KeepTokens(stopwords, a) + KeepTokens(stopwords, b)
  {
    if a == [] {
      assert a + b == b;
    } else {
      assert (a + b)[0] == a[0] && (a + b)[1..] == a[1..] + b;
      KeepTokensAppend(stopwords, a[1..], b);
    }
  }

  lemma {:induction false} KeepTokensAll(stopwords: set<string>, words: seq<string>)
    requires forall w :: w in words ==> IsKeptToken(stopwords, w)
    ensures KeepTokens(stopwords, words) == words
  {
    if words != [] {
      KeepTokensAll(stopwords, words[1..]);
      assert [words[0]] + words[1..] == words;
    }
  }

  lemma ScriptFilterAppend(a: string, c: char, b: string)
    ensures ScriptFilter(a + [c] + b) == ScriptFilter(a) + ScriptFilter([c]) + ScriptFilter(b)
  {
    var t := a + [c] + b;
    var r := ScriptFilter(a) + ScriptFilter([c]) + ScriptFilter(b);
    assert |ScriptFilter(t)| == |r|;
    forall i | 0 <= i < |t| ensures ScriptFilter(t)[i] == r[i] {
      if i < |a| {
        assert t[i] == a[i];
      } else if i == |a| {
        assert t[i] == c;
      } else {
        assert t[i] == b[i - |a| - 1];
      }
    }
  }

  /** Tokens come out left to right with duplicates kept: the tokens of two
      texts joined by a separator (whitespace or any character outside the
      Persian script) are the tokens of the first followed by those of the
      second. */
  lemma TokenizeAppend(stopwords: set<string>, a: string, c: char, b: string)
    requires IsSpace(c) || !InArabicBlock(c)
    ensures Tokenize(stopwords, a + [c] + b) == Tokenize(stopwords, a) + Tokenize(stopwords, b)
  {
    var fa, fb := ScriptFilter(a), ScriptFilter(b);
    var c' := ScriptFilter([c])[0];
    ScriptFilterAppend(a, c, b);
    assert ScriptFilter([c]) == [c'];
    assert IsSpace(c');
    SplitAtAppend(fa, c', fb, IsSpace);
    NonEmptyAppend(SplitAt(fa, IsSpace), SplitAt(fb, IsSpace));
    assert Words(fa + [c'] + fb) == Words(fa) + Words(fb);
    KeepTokensAppend(stopwords, Words(fa), Words(fb));
  }

  /** A text of Persian-script characters and whitespace whose words are all
      longer than two characters and none a stopword tokenizes to exactly
      its whitespace-separated words, in order. */
  lemma TokenizeScriptText(stopwords: set<string>, text: string)
    requires forall i :: 0 <= i < |text| ==> InArabicBlock(text[i]) || IsSpace(text[i])
    requires forall w :: w in Words(text) ==> IsKeptToken(stopwords, w)
    ensures Tokenize(stopwords, text) == Words(text)
  {
    assert ScriptFilter(text) == text;
    KeepTokensAll(stopwords, Words(text));
  }

  /** `s.split()` of a blank string has no words. */
  lemma {:induction false} WordsOfBlank(s: string)
    requires AllSpace(s)
    ensures Words(s) == []
  {
    if s != [] {
      WordsOfBlank(s[1..]);
      var rest := SplitAt(s[1..], IsSpace);
      assert SplitAt(s, IsSpace) == [[]] + rest;
      NonEmptyAppend([[]], rest);
    }
  }

  /** A text without a single character of the Arabic block (Latin text,
      digits, punctuation) has no tokens. */
  lemma TokenizeOutsideScript(stopwords: set<string>, text: string)
    requires forall i :: 0 <= i < |text| ==> !InArabicBlock(text[i])
    ensures Tokenize(stopwords, text) == []
  {
    var filtered := ScriptFilter(text);
    assert AllSpace(filtered);
    WordsOfBlank(filtered);
  }
}
