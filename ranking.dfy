/** The ranking step of `rake_keyword_extraction` (app.py): the dictionary
    items are sorted by their count, highest first, with Python's stable
    `sorted`, and then filtered by the minimum frequency. */
module Ranking {

  /** One `(phrase, count)` item of the frequency dictionary. */
  datatype Entry = Entry(phrase: string, count: nat)

  ghost predicate NonIncreasing(s: seq<Entry>) {
    forall i, j :: 0 <= i < j < |s| ==> s[i].count >= s[j].count
  }

  /** `x` goes before `y`: a higher count, or the same count and a lower `rank`. */
  ghost predicate Precedes(x: Entry, y: Entry, rank: string -> int) {
    x.count > y.count || (x.count == y.count && rank(x.phrase) < rank(y.phrase))
  }

  /** Ranked by count, and among equal counts by `rank`, strictly. */
  ghost predicate RankedBy(s: seq<Entry>, rank: string -> int) {
    forall i, j :: 0 <= i < j < |s| ==> Precedes(s[i], s[j], rank)
  }

  lemma AppendRanked(s: seq<Entry>, y: Entry, rank: string -> int)
    requires RankedBy(s, rank)
    requires forall x :: x in s ==> Precedes(x, y, rank)
    ensures RankedBy(s + [y], rank)
  {
    var r := s + [y];
    forall i, j | 0 <= i < j < |r| ensures Precedes(r[i], r[j], rank) {
      assert r[i] == s[i];
      if j < |s| {
        assert r[j] == s[j];
      }
    }
  }

  ghost predicate IncreasingRank(s: seq<Entry>, rank: string -> int) {
    forall i, j :: 0 <= i < j < |s| ==> rank(s[i].phrase) < rank(s[j].phrase)
  }

  /** Places `e` after every entry whose count is at least its own, as a
      stable sort does with an item that comes after all of `sorted`. */
  function InsertByCount(sorted: seq<Entry>, e: Entry): seq<Entry> {
    if sorted == [] || sorted[|sorted| - 1].count >= e.count then sorted + [e]
    else InsertByCount(sorted[..|sorted| - 1], e) + [sorted[|sorted| - 1]]
  }

  /** Insertion adds `e` and loses nothing. */
  lemma {:induction false} InsertByCountPerm(sorted: seq<Entry>, e: Entry)
    ensures multiset(InsertByCount(sorted, e)) == multiset(sorted) + multiset{e}
    ensures forall x :: x in InsertByCount(sorted, e) <==> x in sorted || x == e
  {
    if !(sorted == [] || sorted[|sorted| - 1].count >= e.count) {
      var init, last := sorted[..|sorted| - 1], sorted[|sorted| - 1];
      assert sorted == init + [last];
      InsertByCountPerm(init, e);
    }
  }

  lemma InsertNonIncreasing(sorted: seq<Entry>, e: Entry)
    requires NonIncreasing(sorted)
    ensures NonIncreasing(InsertByCount(sorted, e))
    decreases |sorted|
  {
    if !(sorted == [] || sorted[|sorted| - 1].count >= e.count) {
      var init, last := sorted[..|sorted| - 1], sorted[|sorted| - 1];
      assert NonIncreasing(init);
      InsertNonIncreasing(init, e);
      InsertByCountPerm(init, e);
      var ins := InsertByCount(init, e);
      var r := ins + [last];
      forall i, j | 0 <= i < j < |r| ensures r[i].count >= r[j].count {
        if j == |r| - 1 {
          assert r[i] in ins;
          if r[i] != e {
            var k :| 0 <= k < |init| && init[k] == r[i];
          }
        } else {
          assert r[i] == ins[i] && r[j] == ins[j];
        }
      }
    }
  }

  /** The stable sort by descending count, as an insertion sort that
      inserts each item after all earlier items of at least its count. */
  function SortByCountDesc(s: seq<Entry>): seq<Entry> {
    if s == [] then []
    else InsertByCount(SortByCountDesc(s[..|s| - 1]), s[|s| - 1])
  }

  /** The sort is a permutation of the items, ordered by non-increasing count. */
  lemma {:induction false} SortByCountDescSpec(s: seq<Entry>)
    ensures multiset(SortByCountDesc(s)) == multiset(s)
    ensures forall x :: x in SortByCountDesc(s) <==> x in s
    ensures NonIncreasing(SortByCountDesc(s))
  {
    if s != [] {
      var init, last := s[..|s| - 1], s[|s| - 1];
      assert s == init + [last];
      SortByCountDescSpec(init);
      InsertByCountPerm(SortByCountDesc(init), last);
      InsertNonIncreasing(SortByCountDesc(init), last);
    }
  }

  lemma InsertRanked(sorted: seq<Entry>, e: Entry, rank: string -> int)
    requires RankedBy(sorted, rank)
    requires forall x :: x in sorted ==> rank(x.phrase) < rank(e.phrase)
    ensures RankedBy(InsertByCount(sorted, e), rank)
    decreases |sorted|
  {
    if sorted == [] || sorted[|sorted| - 1].count >= e.count {
      AppendRanked(sorted, e, rank);
    } else {
      var init, last := sorted[..|sorted| - 1], sorted[|sorted| - 1];
      assert RankedBy(init, rank);
      InsertRanked(init, e, rank);
      InsertByCountPerm(init, e);
      var ins := InsertByCount(init, e);
      forall x | x in ins ensures Precedes(x, last, rank) {
        if x != e {
          var k :| 0 <= k < |init| && init[k] == x;
          assert sorted[k] == x;
        }
      }
      AppendRanked(ins, last, rank);
    }
  }

  /** Stability: when the items come in increasing `rank` (the order of
      first occurrence), items of equal count keep that order. */
  lemma {:induction false} SortRanked(s: seq<Entry>, rank: string -> int)
    requires IncreasingRank(s, rank)
    ensures RankedBy(SortByCountDesc(s), rank)
  {
    if s != [] {
      var init, last := s[..|s| - 1], s[|s| - 1];
      SortRanked(init, rank);
      SortByCountDescSpec(init);
      forall x | x in SortByCountDesc(init) ensures rank(x.phrase) < rank(last.phrase) {
        var k :| 0 <= k < |init| && init[k] == x;
      }
      InsertRanked(SortByCountDesc(init), last, rank);
    }
  }

  /** The items whose count reaches the minimum frequency, in order. */
  function AtLeast(s: seq<Entry>, minFreq: int): seq<Entry> {
    if s == [] then []
    else (if s[0].count >= minFreq then [s[0]] else []) + AtLeast(s[1..], minFreq)
  }

  /** The filter keeps exactly the items of at least the minimum count. */
  lemma {:induction false} AtLeastMembers(s: seq<Entry>, minFreq: int)
    ensures forall e :: e in AtLeast(s, minFreq) <==> e in s && e.count >= minFreq
  {
    if s != [] {
      AtLeastMembers(s[1..], minFreq);
      assert s == [s[0]] + s[1..];
    }
  }

  /** The filter keeps the order of what it keeps. */
  lemma {:induction false} AtLeastRanked(s: seq<Entry>, minFreq: int, rank: string -> int)
    requires RankedBy(s, rank)
    ensures RankedBy(AtLeast(s, minFreq), rank)
  {
    if s != [] {
      AtLeastRanked(s[1..], minFreq, rank);
      AtLeastMembers(s[1..], minFreq);
      var rest := AtLeast(s[1..], minFreq);
      forall x | x in rest ensures Precedes(s[0], x, rank) {
        var k :| 0 <= k < |s[1..]| && s[1..][k] == x;
        assert s[k + 1] == x;
      }
    }
  }
}
