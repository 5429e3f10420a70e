/** Character classes, trimming, splitting and joining, as the Python
    standard library applies them to the program's strings. */
module Text {

  /** Python's `str.isspace`, which is also what `\s` matches in a `re`
      pattern over `str`: the characters of bidirectional class WS, B or S
      and those of category Zs. */
  predicate IsSpace(c: char) {
    var n := c as int;
    (0x09 <= n <= 0x0D) || (0x1C <= n <= 0x20) || n == 0x85 || n == 0xA0 || n == 0x1680
    || (0x2000 <= n <= 0x200A) || n == 0x2028 || n == 0x2029 || n == 0x202F
    || n == 0x205F || n == 0x3000
  }

  /** The Unicode block U+0600-U+06FF (Arabic, which holds the Persian script). */
  predicate InArabicBlock(c: char) {
    0x0600 <= c as int <= 0x06FF
  }

  /** What `\w` matches in a `re` pattern over `str`: a letter or digit, or `_`.
      The letters and digits counted here are those of ASCII and of the
      Arabic block (its combining marks, punctuation and symbols are not). */
  predicate IsWordChar(c: char) {
    var n := c as int;
    ('0' <= c <= '9') || ('A' <= c <= 'Z') || ('a' <= c <= 'z') || c == '_'
    || (0x0620 <= n <= 0x064A) || (0x0660 <= n <= 0x0669) || (0x066E <= n <= 0x066F)
    || (0x0671 <= n <= 0x06D3) || n == 0x06D5 || (0x06E5 <= n <= 0x06E6)
    || (0x06EE <= n <= 0x06FC) || n == 0x06FF
  }

  predicate IsNonWordChar(c: char) {
    !IsWordChar(c)
  }

  predicate IsNewline(c: char) {
    c == '\n'
  }

  /** The space character that `' '.join` puts between words. */
  predicate IsSpaceChar(c: char) {
    c == ' '
  }

  lemma WordCharIsNotSpace(c: char)
    requires IsWordChar(c)
    ensures !IsSpace(c) && !IsSpaceChar(c)
  {
  }

  ghost predicate AllSpace(s: string) {
    forall i :: 0 <= i < |s| ==> IsSpace(s[i])
  }

  /** Drops the leading characters of class `drop`; with `IsSpace` this is
      `s.lstrip()`. */
  function TrimStart(s: string, drop: char -> bool): string {
    if s != [] && drop(s[0]) then TrimStart(s[1..], drop) else s
  }

  /** Drops the trailing characters of class `drop`; with `IsSpace` this is
      `s.rstrip()`. */
  function TrimEnd(s: string, drop: char -> bool): string {
    if s != [] && drop(s[|s| - 1]) then TrimEnd(s[..|s| - 1], drop) else s
  }

  /** The front trim is a suffix of `s` that does not start with a dropped
      character, and everything it drops is of class `drop`. */
  lemma {:induction false} TrimStartSuffix(s: string, drop: char -> bool)
    ensures var r := TrimStart(s, drop);
      && |r| <= |s| && r == s[|s| - |r|..]
      && (r == [] || !drop(r[0]))
      && forall i :: 0 <= i < |s| - |r| ==> drop(s[i])
  {
    if s != [] && drop(s[0]) {
      var t := s[1..];
      TrimStartSuffix(t, drop);
      var r := TrimStart(t, drop);
      assert t[|t| - |r|..] == s[|s| - |r|..];
      forall i | 0 <= i < |s| - |r| ensures drop(s[i]) {
        if i > 0 {
          assert s[i] == t[i - 1];
        }
      }
    }
  }

  /** The back trim is a prefix of `s` that does not end with a dropped
      character, and everything it drops is of class `drop`. */
  lemma {:induction false} TrimEndPrefix(s: string, drop: char -> bool)
    ensures var r := TrimEnd(s, drop);
      && |r| <= |s| && r == s[..|r|]
      && (r == [] || !drop(r[|r| - 1]))
      && forall i :: |r| <= i < |s| ==> drop(s[i])
  {
    if s != [] && drop(s[|s| - 1]) {
      TrimEndPrefix(s[..|s| - 1], drop);
    }
  }

  /** `s.strip()`: a piece of `s` that neither starts nor ends with
      whitespace; it is `s` itself when `s` already has no whitespace at
      either end. */
  function Strip(s: string): (r: string)
    ensures r == [] || (!IsSpace(r[0]) && !IsSpace(r[|r| - 1]))
    ensures (s == [] || (!IsSpace(s[0]) && !IsSpace(s[|s| - 1]))) ==> r == s
  {
    TrimFacts(s);
    TrimEnd(TrimStart(s, IsSpace), IsSpace)
  }

  lemma TrimFacts(s: string)
    ensures var r := TrimEnd(TrimStart(s, IsSpace), IsSpace);
      && (r == [] || (!IsSpace(r[0]) && !IsSpace(r[|r| - 1])))
      && (r == [] <==> AllSpace(s))
      && ((s == [] || (!IsSpace(s[0]) && !IsSpace(s[|s| - 1]))) ==> r == s)
  {
    var t := TrimStart(s, IsSpace);
    var r := TrimEnd(t, IsSpace);
    TrimStartSuffix(s, IsSpace);
    TrimEndPrefix(t, IsSpace);
    var k := |s| - |t|;
    assert t == r + t[|r|..];
    assert r != [] ==> r[0] == t[0];
    assert r == [] ==> t == [];
    assert t != [] ==> t[0] == s[k];
    assert (s != [] && !IsSpace(s[0])) ==> k == 0;
  }

  /** `s.strip()` is empty exactly when `s` is all whitespace. */
  lemma StripEmpty(s: string)
    ensures Strip(s) == [] <==> AllSpace(s)
  {
    TrimFacts(s);
  }

  /** `s.strip()` is the part of `s` between a whitespace prefix and a
      whitespace suffix. */
  lemma StripIsSlice(s: string)
    ensures exists i, j :: 0 <= i <= j <= |s| && Strip(s) == s[i..j] && AllSpace(s[..i]) && AllSpace(s[j..])
  {
    var t := TrimStart(s, IsSpace);
    var r := TrimEnd(t, IsSpace);
    TrimStartSuffix(s, IsSpace);
    TrimEndPrefix(t, IsSpace);
    var i := |s| - |t|;
    var j := i + |r|;
    assert r == s[i..j];
    assert AllSpace(s[..i]);
    forall k | 0 <= k < |s| - j ensures IsSpace(s[j..][k]) {
      assert s[j..][k] == t[|r| + k];
    }
  }

  /** Whatever holds of every character of `s` holds of every character of
      `s.strip()`: stripping only removes characters. */
  lemma StripKeeps(s: string, P: char -> bool)
    requires forall i :: 0 <= i < |s| ==> P(s[i])
    ensures forall i :: 0 <= i < |Strip(s)| ==> P(Strip(s)[i])
  {
    TrimStartKeeps(s, IsSpace, P);
    TrimEndKeeps(TrimStart(s, IsSpace), IsSpace, P);
  }

  lemma {:induction false} TrimStartKeeps(s: string, drop: char -> bool, P: char -> bool)
    requires forall i :: 0 <= i < |s| ==> P(s[i])
    ensures forall i :: 0 <= i < |TrimStart(s, drop)| ==> P(TrimStart(s, drop)[i])
  {
    if s != [] && drop(s[0]) {
      TrimStartKeeps(s[1..], drop, P);
    }
  }

  lemma {:induction false} TrimEndKeeps(s: string, drop: char -> bool, P: char -> bool)
    requires forall i :: 0 <= i < |s| ==> P(s[i])
    ensures forall i :: 0 <= i < |TrimEnd(s, drop)| ==> P(TrimEnd(s, drop)[i])
  {
    if s != [] && drop(s[|s| - 1]) {
      TrimEndKeeps(s[..|s| - 1], drop, P);
    }
  }

  /** Splitting at every separator, keeping empty pieces: Python's
      `s.split(sep)` for a one-character `sep`, and `re.split` with a
      one-character class as the pattern. There is always one piece more
      than there are separators, and no piece holds a separator. */
  function SplitAt<T>(s: seq<T>, isSep: T -> bool): (r: seq<seq<T>>)
    ensures |r| >= 1
    ensures forall i, j :: 0 <= i < |r| && 0 <= j < |r[i]| ==> !isSep(r[i][j])
  {
    if s == [] then [[]]
    else
      var rest := SplitAt(s[1..], isSep);
      if isSep(s[0]) then [[]] + rest
      else [[s[0]] + rest[0]] + rest[1..]
  }

  lemma SplitAtCons<T>(x: T, s: seq<T>, isSep: T -> bool)
    ensures var rest := SplitAt(s, isSep);
      SplitAt([x] + s, isSep) == if isSep(x) then [[]] + rest else [[x] + rest[0]] + rest[1..]
  {
    assert ([x] + s)[0] == x && ([x] + s)[1..] == s;
  }

  /** `re.split` with a pattern `X+`: splitting at maximal runs of
      separators. Only the first piece (when `s` starts with a separator) and
      the last (when it ends with one) can be empty. */
  function SplitRuns<T>(s: seq<T>, isSep: T -> bool): (r: seq<seq<T>>)
    ensures |r| >= 1
    ensures forall i, j :: 0 <= i < |r| && 0 <= j < |r[i]| ==> !isSep(r[i][j])
    ensures forall i :: 0 < i < |r| - 1 ==> r[i] != []
    ensures (s != [] && !isSep(s[0])) ==> r[0] != []
  {
    if s == [] then [[]]
    else
      var rest := SplitRuns(s[1..], isSep);
      if isSep(s[0]) then
        if |s| > 1 && isSep(s[1]) then rest else [[]] + rest
      else [[s[0]] + rest[0]] + rest[1..]
  }

  /** `sep.join(ws)` for a one-element separator. */
  function Join<T>(ws: seq<seq<T>>, sep: T): seq<T> {
    if |ws| == 0 then []
    else if |ws| == 1 then ws[0]
    else ws[0] + [sep] + Join(ws[1..], sep)
  }

  function Flatten<T>(ws: seq<seq<T>>): seq<T> {
    if ws == [] then [] else ws[0] + Flatten(ws[1..])
  }

  /** The elements of `s` that are not separators, in order. */
  function Kept<T>(s: seq<T>, isSep: T -> bool): seq<T> {
    if s == [] then []
    else (if isSep(s[0]) then [] else [s[0]]) + Kept(s[1..], isSep)
  }

  /** The non-empty pieces: what remains of `SplitAt` in Python's
      argument-less `s.split()`. */
  function NonEmpty<T>(ws: seq<seq<T>>): (r: seq<seq<T>>)
    ensures forall i :: 0 <= i < |r| ==> r[i] != [] && r[i] in ws
  {
    if ws == [] then []
    else (if ws[0] == [] then [] else [ws[0]]) + NonEmpty(ws[1..])
  }

  /** The stripped pieces, dropping those that strip to nothing. */
  function StripNonEmpty(ws: seq<string>): (r: seq<string>)
    ensures forall p :: p in r ==> p != [] && Strip(p) == p
  {
    if ws == [] then []
    else (if Strip(ws[0]) == [] then [] else [Strip(ws[0])]) + StripNonEmpty(ws[1..])
  }

  lemma {:induction false} NoSeparatorSplitAt<T>(s: seq<T>, isSep: T -> bool)
    requires forall i :: 0 <= i < |s| ==> !isSep(s[i])
    ensures SplitAt(s, isSep) == [s]
  {
    if s != [] {
      NoSeparatorSplitAt(s[1..], isSep);
      assert [s[0]] + s[1..] == s;
    }
  }

  /** Splitting is a homomorphism over a separator: the pieces of
      `a + [t] + b` are those of `a` followed by those of `b`. */
  lemma {:induction false} SplitAtAppend<T>(a: seq<T>, t: T, b: seq<T>, isSep: T -> bool)
    requires isSep(t)
    ensures SplitAt(a + [t] + b, isSep) == SplitAt(a, isSep) + SplitAt(b, isSep)
  {
    if a == [] {
      assert a + [t] + b == [t] + b;
      assert ([t] + b)[1..] == b;
    } else {
      var u := a[1..] + [t] + b;
      assert a + [t] + b == [a[0]] + u && a == [a[0]] + a[1..];
      SplitAtAppend(a[1..], t, b, isSep);
      SplitAtCons(a[0], u, isSep);
      SplitAtCons(a[0], a[1..], isSep);
      PiecesCons(a[0], SplitAt(a[1..], isSep), SplitAt(b, isSep));
    }
  }

  /** Joining the pieces back with the separator gives the string again. */
  lemma {:induction false} JoinSplitAt<T>(s: seq<T>, sep: T, isSep: T -> bool)
    requires forall x :: isSep(x) <==> x == sep
    ensures Join(SplitAt(s, isSep), sep) == s
  {
    if s != [] {
      var rest := SplitAt(s[1..], isSep);
      JoinSplitAt(s[1..], sep, isSep);
      SplitAtCons(s[0], s[1..], isSep);
      JoinOpen(rest, sep);
      JoinExtend(s[0], rest[0], rest[1..], sep);
      assert [rest[0]] + rest[1..] == rest;
      assert [s[0]] + s[1..] == s;
    }
  }

  /** `Join` of pieces led by an empty one: a separator in front. */
  lemma JoinOpen<T>(ws: seq<seq<T>>, sep: T)
    requires |ws| >= 1
    ensures Join([[]] + ws, sep) == [sep] + Join(ws, sep)
  {
    var u := [[]] + ws;
    assert u[0] == [] && u[1..] == ws;
  }

  /** `Join` of pieces whose first one is extended by `x` in front. */
  lemma JoinExtend<T>(x: T, w: seq<T>, rest: seq<seq<T>>, sep: T)
    ensures Join([[x] + w] + rest, sep) == [x] + Join([w] + rest, sep)
  {
    var v := [[x] + w] + rest;
    var ws := [w] + rest;
    assert v[1..] == rest && ws[1..] == rest;
    if rest != [] {
      var tail := Join(rest, sep);
      assert ([x] + w) + [sep] + tail == [x] + (w + [sep] + tail);
    }
  }

  /** Splitting a join at its separator gives back the joined pieces, when
      no piece holds the separator. */
  lemma {:induction false} SplitAtJoin<T>(ws: seq<seq<T>>, sep: T, isSep: T -> bool)
    requires forall x :: isSep(x) <==> x == sep
    requires |ws| >= 1
    requires forall i, j :: 0 <= i < |ws| && 0 <= j < |ws[i]| ==> ws[i][j] != sep
    ensures SplitAt(Join(ws, sep), isSep) == ws
  {
    NoSeparatorSplitAt(ws[0], isSep);
    if |ws| > 1 {
      SplitAtJoin(ws[1..], sep, isSep);
      SplitAtAppend(ws[0], sep, Join(ws[1..], sep), isSep);
      assert [ws[0]] + ws[1..] == ws;
    }
  }

  /** Concatenation is associative, stated once so that callers can apply it
      to large terms without unfolding them. */
  lemma ConcatAssoc<T>(a: seq<T>, b: seq<T>, c: seq<T>)
    ensures (a + b) + c == a + (b + c)
  {
  }

  lemma {:induction false} FlattenAppend<T>(a: seq<seq<T>>, b: seq<seq<T>>)
    ensures Flatten(a + b) == Flatten(a) + Flatten(b)
  {
    if a == [] {
      assert a + b == b;
    } else {
      assert (a + b)[0] == a[0] && (a + b)[1..] == a[1..] + b;
      FlattenAppend(a[1..], b);
      assert Flatten(a + b) == a[0] + (Flatten(a[1..]) + Flatten(b));
    }
  }

  /** Nothing but the separators is lost by `SplitRuns`, and the order of
      what is kept does not change. */
  lemma {:induction false} FlattenSplitRuns<T>(s: seq<T>, isSep: T -> bool)
    ensures Flatten(SplitRuns(s, isSep)) == Kept(s, isSep)
  {
    if s != [] {
      var rest := SplitRuns(s[1..], isSep);
      FlattenSplitRuns(s[1..], isSep);
      if isSep(s[0]) {
        if !(|s| > 1 && isSep(s[1])) {
          FlattenAppend([[]], rest);
        }
      } else {
        var r := [[s[0]] + rest[0]] + rest[1..];
        assert r[1..] == rest[1..];
        assert Flatten(rest) == rest[0] + Flatten(rest[1..]);
      }
    }
  }

  /** A sequence without separators is not cut by `SplitRuns`. */
  lemma {:induction false} NoSeparatorSplitRuns<T>(s: seq<T>, isSep: T -> bool)
    requires forall i :: 0 <= i < |s| ==> !isSep(s[i])
    ensures SplitRuns(s, isSep) == [s]
  {
    if s != [] {
      NoSeparatorSplitRuns(s[1..], isSep);
      assert [s[0]] + s[1..] == s;
    }
  }

  /** A run of separators followed by a non-separator (or the end) opens
      exactly one new piece. */
  lemma {:induction false} RunSplitRuns<T>(run: seq<T>, b: seq<T>, isSep: T -> bool)
    requires run != [] && forall i :: 0 <= i < |run| ==> isSep(run[i])
    requires b == [] || !isSep(b[0])
    ensures SplitRuns(run + b, isSep) == [[]] + SplitRuns(b, isSep)
  {
    var s := run + b;
    assert s[1..] == run[1..] + b;
    if |run| == 1 {
      assert s[1..] == b;
      assert |s| > 1 ==> s[1] == b[0];
    } else {
      assert s[1] == run[1];
      RunSplitRuns(run[1..], b, isSep);
    }
  }

  /** `SplitRuns` cuts exactly at maximal runs of separators: the pieces of
      `a + run + b` are those of `a` followed by those of `b` when `run` is a
      whole run, that is `a` does not end and `b` does not start with a
      separator. */
  lemma {:induction false} SplitRunsAppend<T>(a: seq<T>, run: seq<T>, b: seq<T>, isSep: T -> bool)
    requires run != [] && forall i :: 0 <= i < |run| ==> isSep(run[i])
    requires a == [] || !isSep(a[|a| - 1])
    requires b == [] || !isSep(b[0])
    ensures SplitRuns(a + run + b, isSep) == SplitRuns(a, isSep) + SplitRuns(b, isSep)
  {
    if a == [] {
      assert a + run + b == run + b;
      RunSplitRuns(run, b, isSep);
    } else {
      var t := a[1..] + run + b;
      assert a + run + b == [a[0]] + t;
      assert a == [a[0]] + a[1..];
      SplitRunsAppend(a[1..], run, b, isSep);
      SplitRunsCons(a[0], t, isSep);
      SplitRunsCons(a[0], a[1..], isSep);
      if isSep(a[0]) {
        assert a[1..] != [] && t[0] == a[1..][0];
      }
      PiecesCons(a[0], SplitRuns(a[1..], isSep), SplitRuns(b, isSep));
    }
  }

  /** One step of `SplitRuns`, with the rest of the input given by name. */
  lemma SplitRunsCons<T>(x: T, t: seq<T>, isSep: T -> bool)
    ensures var rest := SplitRuns(t, isSep);
      SplitRuns([x] + t, isSep) ==
        if isSep(x) then (if t != [] && isSep(t[0]) then rest else [[]] + rest)
        else [[x] + rest[0]] + rest[1..]
  {
    assert ([x] + t)[1..] == t;
  }

  /** The piece-list algebra behind `SplitRunsAppend`'s inductive step. */
  lemma PiecesCons<T>(x: T, ra: seq<seq<T>>, rb: seq<seq<T>>)
    requires |ra| >= 1
    ensures [[]] + (ra + rb) == ([[]] + ra) + rb
    ensures [[x] + (ra + rb)[0]] + (ra + rb)[1..] == ([[x] + ra[0]] + ra[1..]) + rb
  {
    assert (ra + rb)[1..] == ra[1..] + rb;
  }

  lemma {:induction false} NonEmptyAppend<T>(a: seq<seq<T>>, b: seq<seq<T>>)
    ensures NonEmpty(a + b) == NonEmpty(a) + NonEmpty(b)
  {
    if a == [] {
      assert a + b == b;
    } else {
      assert (a + b)[0] == a[0] && (a + b)[1..] == a[1..] + b;
      NonEmptyAppend(a[1..], b);
    }
  }

  lemma StripNonEmptySingle(p: string)
    ensures StripNonEmpty([p]) == if Strip(p) == [] then [] else [Strip(p)]
  {
    var ws := [p];
    assert ws[1..] == [];
  }

  lemma {:induction false} StripNonEmptyAppend(a: seq<string>, b: seq<string>)
    ensures StripNonEmpty(a + b) == StripNonEmpty(a) + StripNonEmpty(b)
  {
    if a == [] {
      assert a + b == b;
    } else {
      assert (a + b)[0] == a[0] && (a + b)[1..] == a[1..] + b;
      StripNonEmptyAppend(a[1..], b);
    }
  }

  /** A character class that holds of every character of every piece also
      holds of every character of what `StripNonEmpty` keeps. */
  lemma {:induction false} StripNonEmptyChars(ws: seq<string>, P: char -> bool)
    requires forall w, j :: w in ws && 0 <= j < |w| ==> P(w[j])
    ensures forall p, j :: p in StripNonEmpty(ws) && 0 <= j < |p| ==> P(p[j])
  {
    if ws != [] {
      StripNonEmptyChars(ws[1..], P);
      StripKeeps(ws[0], P);
    }
  }

  ghost predicate AllPiecesSpace(ws: seq<string>) {
    forall w :: w in ws ==> AllSpace(w)
  }

  lemma {:induction false} StripNonEmptyEmpty(ws: seq<string>)
    ensures StripNonEmpty(ws) == [] <==> AllPiecesSpace(ws)
  {
    if ws != [] {
      StripNonEmptyEmpty(ws[1..]);
      StripEmpty(ws[0]);
      assert AllPiecesSpace(ws) <==> AllSpace(ws[0]) && AllPiecesSpace(ws[1..]) by {
        assert forall w :: w in ws <==> w == ws[0] || w in ws[1..];
      }
    }
  }

  lemma {:induction false} SplitAtAllSpace(s: string, isSep: char -> bool)
    ensures AllPiecesSpace(SplitAt(s, isSep)) <==> forall i :: 0 <= i < |s| ==> IsSpace(s[i]) || isSep(s[i])
  {
    if s != [] {
      SplitAtAllSpace(s[1..], isSep);
      var rest := SplitAt(s[1..], isSep);
      var r := SplitAt(s, isSep);
      assert (forall i :: 0 <= i < |s| ==> IsSpace(s[i]) || isSep(s[i])) <==>
             (IsSpace(s[0]) || isSep(s[0])) && (forall i :: 0 <= i < |s[1..]| ==> IsSpace(s[1..][i]) || isSep(s[1..][i])) by {
        assert forall i :: 0 < i < |s| ==> s[i] == s[1..][i - 1];
      }
      assert AllPiecesSpace(rest) <==> AllSpace(rest[0]) && AllPiecesSpace(rest[1..]) by {
        assert forall w :: w in rest <==> w == rest[0] || w in rest[1..];
      }
      if isSep(s[0]) {
        assert forall w :: w in r <==> w == [] || w in rest;
      } else {
        assert forall w :: w in r <==> w == [s[0]] + rest[0] || w in rest[1..];
        var w := [s[0]] + rest[0];
        if AllSpace(w) {
          assert IsSpace(w[0]);
          forall i | 0 <= i < |rest[0]| ensures IsSpace(rest[0][i]) {
            assert w[i + 1] == rest[0][i];
          }
        }
        if IsSpace(s[0]) && AllSpace(rest[0]) {
          forall i | 0 <= i < |w| ensures IsSpace(w[i]) {
            if i > 0 { assert w[i] == rest[0][i - 1]; }
          }
        }
      }
    }
  }

  /** A property of every element of `s` holds of every element of every
      piece `SplitAt` cuts it into. */
  lemma {:induction false} SplitAtElements<T>(s: seq<T>, isSep: T -> bool, P: T -> bool)
    requires forall i :: 0 <= i < |s| ==> P(s[i])
    ensures forall w, j :: w in SplitAt(s, isSep) && 0 <= j < |w| ==> P(w[j])
  {
    if s != [] {
      SplitAtElements(s[1..], isSep, P);
      var rest := SplitAt(s[1..], isSep);
      if !isSep(s[0]) {
        var first := [s[0]] + rest[0];
        assert forall j :: 0 < j < |first| ==> first[j] == rest[0][j - 1];
        assert forall w :: w in SplitAt(s, isSep) ==> w == first || w in rest;
      }
    }
  }

  /** `Kept` is what remains of `SplitAt` once the pieces are put together:
      only the separators are lost. */
  lemma {:induction false} FlattenSplitAt<T>(s: seq<T>, isSep: T -> bool)
    ensures Flatten(SplitAt(s, isSep)) == Kept(s, isSep)
  {
    if s != [] {
      var rest := SplitAt(s[1..], isSep);
      FlattenSplitAt(s[1..], isSep);
      if isSep(s[0]) {
        FlattenAppend([[]], rest);
      } else {
        var r := [[s[0]] + rest[0]] + rest[1..];
        assert r[1..] == rest[1..];
        assert Flatten(rest) == rest[0] + Flatten(rest[1..]);
      }
    }
  }

  lemma {:induction false} FlattenNonEmpty<T>(ws: seq<seq<T>>)
    ensures Flatten(NonEmpty(ws)) == Flatten(ws)
  {
    if ws != [] {
      FlattenNonEmpty(ws[1..]);
      FlattenAppend(if ws[0] == [] then [] else [ws[0]], NonEmpty(ws[1..]));
    }
  }
}
