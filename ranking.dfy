/**
 The top-document selection of src/testing.js: the scores reported by
 `tfidfs` are sorted by decreasing score with a stable sort, and the first five
 are kept.
 */
module Ranking {
  import opened Index

  /** `a` is placed before `b` in the ranking: a higher score, or the same
      score and a lower document index. */
  predicate Before(a: Score, b: Score)
  {
    a.score > b.score || (a.score == b.score && a.index < b.index)
  }

  /** Every element is placed before every later one. */
  predicate Ranked(s: seq<Score>)
  {
    forall i, j :: 0 <= i < j < |s| ==> Before(s[i], s[j])
  }

  /** The scores are in decreasing order. */
  predicate Descending(s: seq<Score>)
  {
    forall i, j :: 0 <= i < j < |s| ==> s[i].score >= s[j].score
  }

  /** The document indices strictly increase, as in the output of `tfidfs`. */
  predicate IndicesAscending(s: seq<Score>)
  {
    forall i, j :: 0 <= i < j < |s| ==> s[i].index < s[j].index
  }

  /** Insert `x` before the first element whose score is not higher than its
      own, so that `x` stays ahead of the equal scores that followed it. */
  function Insert(x: Score, s: seq<Score>): (r: seq<Score>)
    ensures multiset(r) == multiset(s) + multiset{x}
    ensures |r| == |s| + 1
    ensures forall y :: y in r <==> y == x || y in s
  {
    if s == [] || s[0].score <= x.score then [x] + s
    else
      assert s == [s[0]] + s[1..];
      [s[0]] + Insert(x, s[1..])
  }

  /** `scores.sort((a, b) => b.score - a.score)`: a stable sort by decreasing
      score. */
  function SortByScore(s: seq<Score>): (r: seq<Score>)
    ensures multiset(r) == multiset(s)
    ensures |r| == |s|
  {
    if s == [] then []
    else
      assert s == [s[0]] + s[1..];
      Insert(s[0], SortByScore(s[1..]))
  }

  /** `.slice(0, 5)`: the first five entries of the sorted scores, or all of
      them when there are fewer. */
  function TopFive(s: seq<Score>): (r: seq<Score>)
    ensures |r| == if |s| < 5 then |s| else 5
    ensures multiset(r) <= multiset(s)
  {
    var sorted := SortByScore(s);
    if |sorted| <= 5 then sorted
    else
      assert sorted == sorted[..5] + sorted[5..];
      sorted[..5]
  }

  // ---------------------------------------------------------------------------
  // Lemmas

  /** Inserting keeps the scores in decreasing order. */
  lemma {:induction false} InsertDescending(x: Score, s: seq<Score>)
    requires Descending(s)
    ensures Descending(Insert(x, s))
  {
    if s != [] && s[0].score > x.score {
      var rest := s[1..];
      InsertDescending(x, rest);
      var r := Insert(x, rest);
      assert forall y :: y in rest ==> s[0].score >= y.score;
      assert forall y :: y in r ==> s[0].score >= y.score;
    }
  }

  /** The sort yields decreasing scores. */
  lemma {:induction false} SortDescending(s: seq<Score>)
    ensures Descending(SortByScore(s))
  {
    if s != [] {
      SortDescending(s[1..]);
      InsertDescending(s[0], SortByScore(s[1..]));
    }
  }

  /** Inserting an entry whose index is below every other index into a ranked
      sequence keeps it ranked: ties end up in index order. */
  lemma {:induction false} InsertRanked(x: Score, s: seq<Score>)
    requires Ranked(s)
    requires forall y :: y in s ==> x.index < y.index
    ensures Ranked(Insert(x, s))
  {
    if s != [] && s[0].score > x.score {
      var rest := s[1..];
      RankedTail(s);
      InsertRanked(x, rest);
      var r := Insert(x, rest);
      forall y | y in r ensures Before(s[0], y) {
        if y != x {
          var k :| 0 <= k < |rest| && rest[k] == y;
          assert s[k + 1] == y;
        }
      }
      RankedCons(s[0], r);
    } else {
      forall y | y in s ensures Before(x, y) {
        var k :| 0 <= k < |s| && s[k] == y;
        if k > 0 {
          assert Before(s[0], s[k]);
        }
      }
      RankedCons(x, s);
    }
  }

  /** Dropping the first entry keeps a sequence ranked. */
  lemma RankedTail(s: seq<Score>)
    requires Ranked(s) && s != []
    ensures Ranked(s[1..])
  {
    forall i, j | 0 <= i < j < |s| - 1 ensures Before(s[1..][i], s[1..][j]) {
      assert s[1..][i] == s[i + 1] && s[1..][j] == s[j + 1];
    }
  }

  /** An entry placed before every entry of a ranked sequence can head it. */
  lemma RankedCons(a: Score, s: seq<Score>)
    requires Ranked(s)
    requires forall y :: y in s ==> Before(a, y)
    ensures Ranked([a] + s)
  {
    var r := [a] + s;
    forall i, j | 0 <= i < j < |r| ensures Before(r[i], r[j]) {
      assert r[j] == s[j - 1];
      if i > 0 {
        assert r[i] == s[i - 1];
      }
    }
  }

  /** Sorting scores whose indices ascend, as `tfidfs` reports them, ranks
      them by decreasing score and then by increasing index. */
  lemma {:induction false} SortRanked(s: seq<Score>)
    requires IndicesAscending(s)
    ensures Ranked(SortByScore(s))
  {
    if s != [] {
      var rest := s[1..];
      assert IndicesAscending(rest);
      SortRanked(rest);
      var sorted := SortByScore(rest);
      forall y | y in sorted ensures s[0].index < y.index {
        assert y in multiset(sorted);
        assert y in rest;
        var k :| 0 <= k < |rest| && rest[k] == y;
        assert s[k + 1] == y;
      }
      InsertRanked(s[0], sorted);
    }
  }

  /** A ranked sequence is determined by its elements: two ranked sequences
      with the same multiset of entries are equal. Any stable sort by
      decreasing score therefore gives `SortByScore`'s result on the output of
      `tfidfs`. */
  lemma {:induction false} RankedUnique(a: seq<Score>, b: seq<Score>)
    requires Ranked(a) && Ranked(b) && multiset(a) == multiset(b)
    ensures a == b
  {
    if a == [] {
      assert |b| == |multiset(b)|;
    } else {
      RankedHead(a, b);
      MultisetTail(a, b);
      RankedUnique(a[1..], b[1..]);
      assert a == [a[0]] + a[1..] && b == [b[0]] + b[1..];
    }
  }

  /** Two ranked sequences with the same entries start with the same one. */
  lemma RankedHead(a: seq<Score>, b: seq<Score>)
    requires Ranked(a) && Ranked(b) && multiset(a) == multiset(b) && a != []
    ensures b != [] && a[0] == b[0]
  {
    assert a[0] in multiset(b);
    assert b != [] && b[0] in multiset(a);
    var i :| 0 <= i < |b| && b[i] == a[0];
    var j :| 0 <= j < |a| && a[j] == b[0];
    if i > 0 && j > 0 {
      assert false;
    }
  }

  lemma MultisetTail(a: seq<Score>, b: seq<Score>)
    requires a != [] && b != [] && a[0] == b[0] && multiset(a) == multiset(b)
    ensures multiset(a[1..]) == multiset(b[1..])
  {
    assert a == [a[0]] + a[1..];
    assert b == [b[0]] + b[1..];
    assert multiset(a) == multiset{a[0]} + multiset(a[1..]);
    assert multiset(b) == multiset{b[0]} + multiset(b[1..]);
    forall z ensures multiset(a[1..])[z] == multiset(b[1..])[z] {
      assert multiset(a)[z] == multiset(a[1..])[z] + multiset{a[0]}[z];
      assert multiset(b)[z] == multiset(b[1..])[z] + multiset{b[0]}[z];
    }
  }

  /** The scores `tfidfs` reports are ranked by the sort: by decreasing score,
      ties in increasing document index; and the five kept are the best: none
      of the dropped ones has a higher score. */
  lemma TopFiveOfScores(s: seq<Score>)
    requires forall i :: 0 <= i < |s| ==> s[i].index == i
    ensures Ranked(SortByScore(s))
    ensures forall x, y :: x in TopFive(s) && y in s && y !in TopFive(s) ==> x.score >= y.score
  {
    SortRanked(s);
    SortDescending(s);
    var sorted := SortByScore(s);
    var n := if |sorted| <= 5 then |sorted| else 5;
    assert sorted[..n] == TopFive(s);
    PrefixBest(sorted, n);
    assert forall y :: y in s ==> y in multiset(sorted);
  }

  /** In a sequence of decreasing scores, no entry outside a prefix scores
      higher than one inside it. */
  lemma PrefixBest(sorted: seq<Score>, n: nat)
    requires Descending(sorted) && n <= |sorted|
    ensures forall x, y :: x in sorted[..n] && y in sorted && y !in sorted[..n] ==> x.score >= y.score
  {
    forall x, y | x in sorted[..n] && y in sorted && y !in sorted[..n] ensures x.score >= y.score {
      var k :| 0 <= k < |sorted| && sorted[k] == y;
      var m :| 0 <= m < n && sorted[..n][m] == x;
      assert k >= n;
      assert sorted[m] == x;
    }
  }
}
