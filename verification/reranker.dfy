/**
 The reranker's ordering: chunks paired with their cross-encoder scores,
 sorted by score from highest to lowest with Python's stable sort, and cut
 to the first `top_n`. The scores are an input sequence aligned with the
 chunks.
 */
module Reranker {
  import opened Records

  /** Position `a` goes before position `b` in the stable descending sort:
      a higher score first, equal scores in input order. */
  predicate Before(scores: seq<int>, a: nat, b: nat)
    requires a < |scores| && b < |scores|
  {
    scores[a] > scores[b] || (scores[a] == scores[b] && a < b)
  }

  /** Every position listed is a valid index of `scores`. */
  predicate Valid(scores: seq<int>, xs: seq<nat>) {
    forall k :: 0 <= k < |xs| ==> xs[k] < |scores|
  }

  /** `xs` lists positions in sort order. */
  predicate Sorted(scores: seq<int>, xs: seq<nat>)
    requires Valid(scores, xs)
  {
    forall i, j :: 0 <= i < j < |xs| ==> Before(scores, xs[i], xs[j])
  }

  /** Inserts position `x` into the sorted list `xs`. */
  function Insert(scores: seq<int>, x: nat, xs: seq<nat>): (r: seq<nat>)
    requires x < |scores| && Valid(scores, xs)
    ensures |r| == |xs| + 1 && Valid(scores, r)
    ensures forall y: nat :: y in r <==> y == x || y in xs
  {
    if |xs| == 0 then [x]
    else if Before(scores, x, xs[0]) then [x] + xs
    else [xs[0]] + Insert(scores, x, xs[1..])
  }

  lemma {:induction false} InsertSorted(scores: seq<int>, x: nat, xs: seq<nat>)
    requires x < |scores| && Valid(scores, xs) && Sorted(scores, xs) && x !in xs
    ensures Sorted(scores, Insert(scores, x, xs))
  {
    if |xs| > 0 {
      var t := xs[1..];
      SortedTail(scores, xs);
      if Before(scores, x, xs[0]) {
        SortedCons(scores, x, xs);
      } else {
        assert x !in t;
        InsertSorted(scores, x, t);
        SortedCons(scores, xs[0], Insert(scores, x, t));
      }
    }
  }

  /** The tail of a sorted list is sorted and comes after its head. */
  lemma SortedTail(scores: seq<int>, xs: seq<nat>)
    requires Valid(scores, xs) && Sorted(scores, xs) && |xs| > 0
    ensures Valid(scores, xs[1..]) && Sorted(scores, xs[1..])
    ensures forall y :: y in xs[1..] ==> Before(scores, xs[0], y)
  {
    var t := xs[1..];
    assert forall k :: 0 <= k < |t| ==> t[k] == xs[k + 1];
  }

  /** A head that goes before every element of a sorted list keeps it sorted. */
  lemma SortedCons(scores: seq<int>, a: nat, t: seq<nat>)
    requires a < |scores| && Valid(scores, t) && Sorted(scores, t)
    requires forall y :: y in t ==> Before(scores, a, y)
    ensures Sorted(scores, [a] + t)
  {
    var r := [a] + t;
    forall i, j | 0 <= i < j < |r|
      ensures Before(scores, r[i], r[j])
    {
      assert r[j] == t[j - 1];
      if i > 0 {
        assert r[i] == t[i - 1];
      } else {
        assert t[j - 1] in t;
      }
    }
  }

  /** Positions `0 .. n-1` in sort order (an insertion sort). */
  function SortPositions(scores: seq<int>, n: nat): (r: seq<nat>)
    requires n <= |scores|
    ensures |r| == n && Valid(scores, r)
    ensures forall y: nat :: y in r <==> y < n
  {
    if n == 0 then []
    else
      var p := SortPositions(scores, n - 1);
      var r := Insert(scores, n - 1, p);
      assert forall y: nat :: y in r <==> y == n - 1 || y in p;
      r
  }

  lemma {:induction false} SortPositionsSorted(scores: seq<int>, n: nat)
    requires n <= |scores|
    ensures Sorted(scores, SortPositions(scores, n))
  {
    if n > 0 {
      SortPositionsSorted(scores, n - 1);
      InsertSorted(scores, n - 1, SortPositions(scores, n - 1));
    }
  }

  /** Python's `xs[:top_n]` length: a negative `top_n` drops from the end. */
  function TakeCount(n: nat, topN: int): (m: nat)
    ensures m <= n
    ensures topN >= 0 ==> m == if topN < n then topN else n
  {
    if topN >= 0 then (if topN < n then topN else n)
    else if n + topN < 0 then 0 else n + topN
  }

  /** Python's `min(len(chunks), len(scores))`, the length of the `zip`. */
  function Paired(chunks: seq<Chunk>, scores: seq<int>): nat {
    if |chunks| <= |scores| then |chunks| else |scores|
  }

  /** The positions `rerank` keeps, in output order. */
  function Selected(chunks: seq<Chunk>, scores: seq<int>, topN: int): (r: seq<nat>)
    ensures Valid(scores, r)
    ensures forall k :: 0 <= k < |r| ==> r[k] < Paired(chunks, scores)
  {
    var n := Paired(chunks, scores);
    var all := SortPositions(scores, n);
    var r := all[..TakeCount(n, topN)];
    assert forall k :: 0 <= k < |r| ==> r[k] == all[k] && all[k] in all;
    r
  }

  /** Python's `rerank(query, chunks, top_n)` with the scores given. */
  function Rerank(chunks: seq<Chunk>, scores: seq<int>, topN: int): (r: seq<Chunk>)
    ensures |r| == |Selected(chunks, scores, topN)|
  {
    var sel := Selected(chunks, scores, topN);
    seq(|sel|, i requires 0 <= i < |sel| => chunks[sel[i]])
  }

  /** `rerank` returns min(top_n, n) chunks for a non-negative `top_n`,
      where n is the number of chunk/score pairs; chunk `i` of the output
      is the input chunk at the `i`-th selected position. */
  lemma RerankShape(chunks: seq<Chunk>, scores: seq<int>, topN: int)
    ensures var n := Paired(chunks, scores);
      |Rerank(chunks, scores, topN)| == TakeCount(n, topN) &&
      (topN >= 0 ==> |Rerank(chunks, scores, topN)| == if topN < n then topN else n)
    ensures forall i :: 0 <= i < |Rerank(chunks, scores, topN)| ==>
      Rerank(chunks, scores, topN)[i] == chunks[Selected(chunks, scores, topN)[i]]
  {
  }

  /** The selected positions are in sort order: scores never increase,
      equal scores keep their input order, and no position repeats. */
  lemma RerankOrdered(chunks: seq<Chunk>, scores: seq<int>, topN: int)
    ensures var sel := Selected(chunks, scores, topN);
      forall i, j :: 0 <= i < j < |sel| ==>
        scores[sel[i]] >= scores[sel[j]] &&
        (scores[sel[i]] == scores[sel[j]] ==> sel[i] < sel[j]) &&
        sel[i] != sel[j]
  {
    var n := Paired(chunks, scores);
    var all := SortPositions(scores, n);
    SortPositionsSorted(scores, n);
    var sel := Selected(chunks, scores, topN);
    assert forall i :: 0 <= i < |sel| ==> sel[i] == all[i];
  }

  /** Every selected chunk scores at least as high as every paired chunk
      left out, and a left-out chunk with the same score comes later in the
      input. */
  lemma RerankTopScores(chunks: seq<Chunk>, scores: seq<int>, topN: int, i: nat, j: nat)
    requires var sel := Selected(chunks, scores, topN);
      i < |sel| && j < Paired(chunks, scores) && j !in sel
    ensures var sel := Selected(chunks, scores, topN);
      scores[sel[i]] >= scores[j] && (scores[sel[i]] == scores[j] ==> sel[i] < j)
  {
    var n := Paired(chunks, scores);
    var all := SortPositions(scores, n);
    SortPositionsSorted(scores, n);
    var sel := Selected(chunks, scores, topN);
    assert j in all;
    var q :| 0 <= q < |all| && all[q] == j;
    assert forall k :: 0 <= k < |sel| ==> sel[k] == all[k] && sel[k] != j;
    assert q >= |sel|;
    assert sel[i] == all[i];
  }

  /** Every pair the zip forms is selected when `top_n` covers them all. */
  lemma RerankKeepsAll(chunks: seq<Chunk>, scores: seq<int>, topN: int, j: nat)
    requires j < Paired(chunks, scores) <= topN
    ensures j in Selected(chunks, scores, topN)
  {
    var n := Paired(chunks, scores);
    assert Selected(chunks, scores, topN) == SortPositions(scores, n);
  }
}
