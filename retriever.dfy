/**
 * The keyword-boosted reranking inside `search`. Each hit of the vector store
 * is scored as its semantic distance minus 0.3 for every keyword found in its
 * lower-cased text; the hits are sorted stably by that score in place, and
 * the first n are packed into four parallel result lists.
 */
module Retriever {
  import opened Text
  import opened Catalogue

  /** A vector-store hit: document, metadata, id and semantic distance. */
  datatype Candidate = Candidate(doc: string, metadata: Metadata, id: string, distance: real)

  /** An entry of `scored_results`. */
  datatype Scored = Scored(doc: string, metadata: Metadata, id: string, distance: real,
                           keywordCount: nat, finalScore: real)

  /** The result dictionary: one list per field, all of the same length. */
  datatype SearchResults = SearchResults(documents: seq<string>, metadatas: seq<Metadata>,
                                         ids: seq<string>, distances: seq<real>)

  /** The distance taken off per keyword found. */
  const KeywordBonus: real := 0.3

  /** How many entries of `keywords` occur in `docLower`; a keyword listed twice counts twice. */
  function KeywordCount(keywords: seq<string>, docLower: string): (n: nat)
    ensures n <= |keywords|
  {
    if keywords == [] then 0
    else (if Contains(docLower, keywords[0]) then 1 else 0) + KeywordCount(keywords[1..], docLower)
  }

  /** The count is zero exactly when no keyword occurs, and full exactly when every keyword does. */
  lemma {:induction false} KeywordCountExtremes(keywords: seq<string>, docLower: string)
    ensures KeywordCount(keywords, docLower) == 0 <==> forall kw :: kw in keywords ==> !Contains(docLower, kw)
    ensures KeywordCount(keywords, docLower) == |keywords| <==> forall kw :: kw in keywords ==> Contains(docLower, kw)
  {
    if keywords != [] {
      KeywordCountExtremes(keywords[1..], docLower);
      var head, tail := keywords[0], keywords[1..];
      assert keywords == [head] + tail;
      assert KeywordCount(keywords, docLower) ==
        (if Contains(docLower, head) then 1 else 0) + KeywordCount(tail, docLower);
      assert (forall kw :: kw in keywords ==> !Contains(docLower, kw)) <==>
        !Contains(docLower, head) && forall kw :: kw in tail ==> !Contains(docLower, kw);
      assert (forall kw :: kw in keywords ==> Contains(docLower, kw)) <==>
        Contains(docLower, head) && forall kw :: kw in tail ==> Contains(docLower, kw);
    }
  }

  /** The entry built for one candidate. */
  function Score(c: Candidate, keywords: seq<string>): (r: Scored)
    ensures r.keywordCount <= |keywords|
    ensures c.distance - KeywordBonus * |keywords| as real <= r.finalScore <= c.distance
    ensures r.finalScore == c.distance <==> forall kw :: kw in keywords ==> !Contains(Lower(c.doc), kw)
  {
    var count := KeywordCount(keywords, Lower(c.doc));
    KeywordCountExtremes(keywords, Lower(c.doc));
    Scored(c.doc, c.metadata, c.id, c.distance, count, c.distance - KeywordBonus * count as real)
  }

  /** The candidate an entry was built from. */
  function Origin(s: Scored): Candidate {
    Candidate(s.doc, s.metadata, s.id, s.distance)
  }

  /** Scoring keeps the candidate's own fields. */
  lemma ScoreOrigin(c: Candidate, keywords: seq<string>)
    ensures Origin(Score(c, keywords)) == c
  {}

  /** `scored_results` after the loop over the candidates. */
  function ScoreAll(candidates: seq<Candidate>, keywords: seq<string>): (r: seq<Scored>)
    ensures |r| == |candidates|
    ensures forall k :: 0 <= k < |r| ==> r[k] == Score(candidates[k], keywords)
  {
    seq(|candidates|, (k: int) requires 0 <= k < |candidates| => Score(candidates[k], keywords))
  }

  ghost predicate Sorted(s: seq<Scored>) {
    forall i, j :: 0 <= i < j < |s| ==> s[i].finalScore <= s[j].finalScore
  }

  /** `[x]` when `x` has final score `v`, else nothing. */
  function Only(x: Scored, v: real): seq<Scored> {
    if x.finalScore == v then [x] else []
  }

  /** The entries with final score `v`, in order. */
  function WithScore(s: seq<Scored>, v: real): (r: seq<Scored>)
    ensures |r| <= |s|
  {
    if s == [] then [] else WithScore(s[..|s| - 1], v) + Only(s[|s| - 1], v)
  }

  lemma WithScoreSnoc(t: seq<Scored>, x: Scored, v: real)
    ensures WithScore(t + [x], v) == WithScore(t, v) + Only(x, v)
  {
    assert (t + [x])[..|t|] == t;
  }

  /** Appending an entry of greater score than `x` commutes with `x`'s own contribution. */
  lemma SnocSwap(r: seq<Scored>, t: seq<Scored>, x: Scored, last: Scored, v: real)
    requires last.finalScore > x.finalScore
    requires WithScore(r, v) == WithScore(t, v) + Only(x, v)
    ensures WithScore(r + [last], v) == WithScore(t + [last], v) + Only(x, v)
  {
    WithScoreSnoc(r, last, v);
    WithScoreSnoc(t, last, v);
    assert Only(x, v) == [] || Only(last, v) == [];
    SwapEmpty(WithScore(t, v), Only(x, v), Only(last, v));
  }

  /** Two sequences of which one is empty may be appended in either order. */
  lemma SwapEmpty<T>(w: seq<T>, a: seq<T>, b: seq<T>)
    requires a == [] || b == []
    ensures w + a + b == w + b + a
  {
    if a == [] {
      assert w + a == w && b + a == b;
    } else {
      assert w + b == w && a + b == a;
    }
  }

  /**
   * One insertion step of the stable sort: `x` goes after the last entry of
   * `t` whose score is not greater than its own.
   */
  function InsertBack(x: Scored, t: seq<Scored>): (r: seq<Scored>)
    ensures |r| == |t| + 1
    ensures multiset(r) == multiset(t) + multiset{x}
  {
    if t == [] || t[|t| - 1].finalScore <= x.finalScore then t + [x]
    else
      assert t == t[..|t| - 1] + [t[|t| - 1]];
      InsertBack(x, t[..|t| - 1]) + [t[|t| - 1]]
  }

  /** Insertion adds no entry above a bound that `x` and `t` respect. */
  lemma InsertBackBound(x: Scored, t: seq<Scored>, bound: real)
    requires x.finalScore <= bound
    requires forall k :: 0 <= k < |t| ==> t[k].finalScore <= bound
    ensures forall k :: 0 <= k < |t| + 1 ==> InsertBack(x, t)[k].finalScore <= bound
  {
    var r := InsertBack(x, t);
    forall k | 0 <= k < |r| ensures r[k].finalScore <= bound {
      assert r[k] in multiset(r);
      if r[k] != x {
        assert r[k] in multiset(t);
        var m :| 0 <= m < |t| && t[m] == r[k];
      }
    }
  }

  lemma {:induction false} InsertBackSorted(x: Scored, t: seq<Scored>)
    requires Sorted(t)
    ensures Sorted(InsertBack(x, t))
  {
    if t != [] && t[|t| - 1].finalScore > x.finalScore {
      var init, last := t[..|t| - 1], t[|t| - 1];
      InsertBackSorted(x, init);
      InsertBackBound(x, init, last.finalScore);
      var r := InsertBack(x, init);
      var r2 := r + [last];
      forall i, j | 0 <= i < j < |r2| ensures r2[i].finalScore <= r2[j].finalScore {
        assert r2[i] == r[i];
        if j < |r| {
          assert r2[j] == r[j];
        }
      }
    }
  }

  /** Inserting `x` appends it to the entries of its score and leaves the other scores alone. */
  lemma {:induction false} InsertBackStable(x: Scored, t: seq<Scored>, v: real)
    ensures WithScore(InsertBack(x, t), v) == WithScore(t, v) + Only(x, v)
  {
    if t == [] || t[|t| - 1].finalScore <= x.finalScore {
      WithScoreSnoc(t, x, v);
    } else {
      var init, last := t[..|t| - 1], t[|t| - 1];
      InsertBackStable(x, init, v);
      assert t == init + [last];
      SnocSwap(InsertBack(x, init), init, x, last, v);
    }
  }

  /** The stable ascending sort by final score, one insertion per entry from the left. */
  function SortScored(s: seq<Scored>): (r: seq<Scored>)
    ensures |r| == |s|
    ensures multiset(r) == multiset(s)
  {
    if s == [] then []
    else
      assert s == s[..|s| - 1] + [s[|s| - 1]];
      InsertBack(s[|s| - 1], SortScored(s[..|s| - 1]))
  }

  lemma {:induction false} SortScoredSorted(s: seq<Scored>)
    ensures Sorted(SortScored(s))
  {
    if s != [] {
      SortScoredSorted(s[..|s| - 1]);
      InsertBackSorted(s[|s| - 1], SortScored(s[..|s| - 1]));
    }
  }

  /** Stability: entries of equal score keep their relative order. */
  lemma {:induction false} SortScoredStable(s: seq<Scored>, v: real)
    ensures WithScore(SortScored(s), v) == WithScore(s, v)
  {
    if s != [] {
      var init, last := s[..|s| - 1], s[|s| - 1];
      SortScoredStable(init, v);
      InsertBackStable(last, SortScored(init), v);
    }
  }

  lemma SortScoredStep(s: seq<Scored>, i: nat)
    requires i < |s|
    ensures SortScored(s[..i + 1]) == InsertBack(s[i], SortScored(s[..i]))
  {
    assert s[..i + 1][..i] == s[..i];
  }

  /** Moving the insertion point past an entry with a greater score. */
  lemma InsertBackShift(x: Scored, t: seq<Scored>, j: nat)
    requires 0 < j <= |t| && t[j - 1].finalScore > x.finalScore
    ensures InsertBack(x, t[..j]) + t[j..] == InsertBack(x, t[..j - 1]) + t[j - 1..]
  {
    assert t[..j][..j - 1] == t[..j - 1];
    assert t[j - 1..] == [t[j - 1]] + t[j..];
  }

  /** The insertion point reached: nothing before it has a greater score. */
  lemma InsertBackStop(x: Scored, t: seq<Scored>, j: nat)
    requires j <= |t| && (j == 0 || t[j - 1].finalScore <= x.finalScore)
    ensures InsertBack(x, t[..j]) + t[j..] == t[..j] + [x] + t[j..]
  {}

  /** The array after one shift of the inner loop, as slices. */
  lemma ShiftSlices(b: seq<Scored>, t: seq<Scored>, i: nat, j: nat)
    requires 0 < j <= i < |b| && |t| == i
    requires b[..j] == t[..j] && b[j + 1..i + 1] == t[j..]
    ensures b[j := b[j - 1]][..j - 1] == t[..j - 1]
    ensures b[j := b[j - 1]][j..i + 1] == t[j - 1..]
    ensures b[j := b[j - 1]][i + 1..] == b[i + 1..]
  {
    var c := b[j := b[j - 1]];
    assert c[..j - 1] == b[..j][..j - 1];
    assert b[j - 1] == t[j - 1];
    assert c[j..i + 1] == [t[j - 1]] + b[j + 1..i + 1];
  }

  /** The array once `x` is placed at the insertion point, as slices. */
  lemma PlaceSlices(b: seq<Scored>, t: seq<Scored>, x: Scored, i: nat, j: nat)
    requires j <= i < |b| && |t| == i
    requires b[..j] == t[..j] && b[j + 1..i + 1] == t[j..]
    ensures b[j := x][..i + 1] == t[..j] + [x] + t[j..]
    ensures b[j := x][i + 1..] == b[i + 1..]
  {
    var c := b[j := x];
    assert c[..i + 1] == c[..j] + [c[j]] + c[j + 1..i + 1];
  }

  /**
   * One pass of the insertion sort: shifts the entries of `a[..i]` with a
   * greater score than `a[i]` one place right and drops `a[i]` into the gap.
   */
  method InsertAt(a: array<Scored>, i: nat)
    requires i < a.Length
    modifies a
    ensures a[..i + 1] == InsertBack(old(a[i]), old(a[..i]))
    ensures a[i + 1..] == old(a[i + 1..])
  {
    var x := a[i];
    ghost var t := a[..i];
    ghost var rest := a[i + 1..];
    var j := i;
    assert t[..j] == t && t[j..] == [];
    while j > 0 && a[j - 1].finalScore > x.finalScore
      invariant 0 <= j <= i
      invariant a[..j] == t[..j]
      invariant a[j + 1..i + 1] == t[j..]
      invariant a[i + 1..] == rest
      invariant InsertBack(x, t) == InsertBack(x, t[..j]) + t[j..]
      decreases j
    {
      assert a[j - 1] == t[j - 1] by {
        assert a[..j][j - 1] == t[..j][j - 1];
      }
      InsertBackShift(x, t, j);
      ghost var b := a[..];
      ShiftSlices(b, t, i, j);
      a[j] := a[j - 1];
      assert a[..] == b[j := b[j - 1]];
      j := j - 1;
    }
    assert j > 0 ==> a[j - 1] == t[j - 1] by {
      if j > 0 {
        assert a[..j][j - 1] == t[..j][j - 1];
      }
    }
    InsertBackStop(x, t, j);
    ghost var b := a[..];
    PlaceSlices(b, t, x, i, j);
    a[j] := x;
    assert a[..] == b[j := x];
  }

  /** `scored_results.sort(key=lambda x: x['final_score'])`, as an in-place insertion sort. */
  method SortByFinalScore(a: array<Scored>)
    modifies a
    ensures a[..] == SortScored(old(a[..]))
  {
    ghost var s := a[..];
    for i := 0 to a.Length
      invariant a[..i] == SortScored(s[..i])
      invariant a[i..] == s[i..]
    {
      assert a[i] == s[i] && a[i + 1..] == s[i + 1..] by {
        assert a[i..][0] == s[i..][0];
        assert a[i + 1..] == a[i..][1..] && s[i + 1..] == s[i..][1..];
      }
      InsertAt(a, i);
      SortScoredStep(s, i);
      assert a[i + 1..] == s[i + 1..];
    }
    assert a[..a.Length] == a[..];
    assert s[..a.Length] == s;
  }

  /** `scored_results[:n]`. */
  function Take(s: seq<Scored>, n: nat): (r: seq<Scored>)
    ensures |r| == if n < |s| then n else |s|
    ensures r <= s
  {
    if n < |s| then s[..n] else s
  }

  /** The four result lists, field by field. */
  function Pack(top: seq<Scored>): (r: SearchResults)
    ensures |r.documents| == |r.metadatas| == |r.ids| == |r.distances| == |top|
    ensures forall k :: 0 <= k < |top| ==>
      Candidate(r.documents[k], r.metadatas[k], r.ids[k], r.distances[k]) == Origin(top[k])
  {
    SearchResults(seq(|top|, (k: int) requires 0 <= k < |top| => top[k].doc),
                  seq(|top|, (k: int) requires 0 <= k < |top| => top[k].metadata),
                  seq(|top|, (k: int) requires 0 <= k < |top| => top[k].id),
                  seq(|top|, (k: int) requires 0 <= k < |top| => top[k].distance))
  }

  /** The entries kept: the first n of the stable sort of the scored candidates. */
  function Reranked(candidates: seq<Candidate>, keywords: seq<string>, n: nat): (top: seq<Scored>)
    ensures |top| == if n < |candidates| then n else |candidates|
    ensures top <= SortScored(ScoreAll(candidates, keywords))
  {
    Take(SortScored(ScoreAll(candidates, keywords)), n)
  }

  /** The scoring loop, the in-place sort, the truncation and the rebuilt result lists. */
  method Rerank(candidates: seq<Candidate>, keywords: seq<string>, n: nat) returns (r: SearchResults)
    ensures r == Pack(Reranked(candidates, keywords, n))
  {
    var scoredResults: seq<Scored> := [];
    for idx := 0 to |candidates|
      invariant |scoredResults| == idx
      invariant forall k :: 0 <= k < idx ==> scoredResults[k] == Score(candidates[k], keywords)
    {
      var c := candidates[idx];
      var docLower := Lower(c.doc);
      var keywordCount := KeywordCount(keywords, docLower);
      var finalScore := c.distance - KeywordBonus * keywordCount as real;
      scoredResults := scoredResults + [Scored(c.doc, c.metadata, c.id, c.distance, keywordCount, finalScore)];
    }
    assert scoredResults == ScoreAll(candidates, keywords);
    var a := new Scored[|scoredResults|](k requires 0 <= k < |scoredResults| => scoredResults[k]);
    assert a[..] == scoredResults;
    SortByFinalScore(a);
    var topResults := Take(a[..], n);
    r := Pack(topResults);
  }

  /**
   * The kept entries: min(n, #candidates) of them, in ascending final score,
   * each the scoring of an input candidate.
   */
  lemma RerankedShape(candidates: seq<Candidate>, keywords: seq<string>, n: nat)
    ensures |Reranked(candidates, keywords, n)| == if n < |candidates| then n else |candidates|
    ensures Sorted(Reranked(candidates, keywords, n))
    ensures forall e :: e in Reranked(candidates, keywords, n) ==>
      Origin(e) in candidates && e == Score(Origin(e), keywords)
  {
    var all := ScoreAll(candidates, keywords);
    var sorted := SortScored(all);
    var r := Reranked(candidates, keywords, n);
    SortScoredSorted(all);
    forall e | e in r ensures Origin(e) in candidates && e == Score(Origin(e), keywords) {
      assert e in sorted;
      assert e in multiset(sorted);
      assert e in multiset(all);
      var k :| 0 <= k < |all| && all[k] == e;
      ScoreOrigin(candidates[k], keywords);
    }
  }

  /** The sorted list holds the scoring of every candidate. */
  lemma ScoredInSorted(candidates: seq<Candidate>, keywords: seq<string>, c: Candidate)
    requires c in candidates
    ensures Score(c, keywords) in SortScored(ScoreAll(candidates, keywords))
  {
    var all := ScoreAll(candidates, keywords);
    var k :| 0 <= k < |candidates| && candidates[k] == c;
    assert all[k] == Score(c, keywords);
    assert Score(c, keywords) in multiset(all);
    assert Score(c, keywords) in multiset(SortScored(all));
  }

  /** In a sorted list, an entry scoring below a kept one is kept too. */
  lemma TakeKeepsBetter(s: seq<Scored>, n: nat, y: Scored, e: Scored)
    requires Sorted(s) && y in s && e in Take(s, n)
    requires y.finalScore < e.finalScore
    ensures y in Take(s, n)
  {
    var top := Take(s, n);
    var j :| 0 <= j < |s| && s[j] == y;
    var i :| 0 <= i < |top| && top[i] == e;
    assert s[i] == e;
    assert j < i;
    assert top[j] == y;
  }

  /** A candidate that scores strictly better than some kept entry is kept too. */
  lemma RerankedKeepsBetter(candidates: seq<Candidate>, keywords: seq<string>, n: nat, c: Candidate, e: Scored)
    requires c in candidates
    requires e in Reranked(candidates, keywords, n)
    requires Score(c, keywords).finalScore < e.finalScore
    ensures Score(c, keywords) in Reranked(candidates, keywords, n)
  {
    SortScoredSorted(ScoreAll(candidates, keywords));
    ScoredInSorted(candidates, keywords, c);
    TakeKeepsBetter(SortScored(ScoreAll(candidates, keywords)), n, Score(c, keywords), e);
  }

  /** Ties keep the vector store's order: the entries of each score appear as in the candidates. */
  lemma RerankedTies(candidates: seq<Candidate>, keywords: seq<string>, v: real)
    ensures WithScore(SortScored(ScoreAll(candidates, keywords)), v) == WithScore(ScoreAll(candidates, keywords), v)
  {
    SortScoredStable(ScoreAll(candidates, keywords), v);
  }

  /** The candidate packed at position k of the result lists. */
  function ResultAt(r: SearchResults, k: nat): Candidate
    requires k < |r.documents| && k < |r.metadatas| && k < |r.ids| && k < |r.distances|
  {
    Candidate(r.documents[k], r.metadatas[k], r.ids[k], r.distances[k])
  }

  /**
   * The result lists have equal length and hold min(n, #candidates) items;
   * position k is the candidate of the k-th reranked entry, with its original
   * semantic distance, and the positions ascend by keyword-adjusted score.
   */
  lemma RerankResults(candidates: seq<Candidate>, keywords: seq<string>, n: nat)
    ensures var r := Pack(Reranked(candidates, keywords, n));
      && |r.documents| == |r.metadatas| == |r.ids| == |r.distances| == (if n < |candidates| then n else |candidates|)
      && (forall k :: 0 <= k < |r.ids| ==>
            ResultAt(r, k) in candidates && ResultAt(r, k) == Origin(Reranked(candidates, keywords, n)[k]))
      && (forall i, j :: 0 <= i < j < |r.ids| ==>
            Score(ResultAt(r, i), keywords).finalScore <= Score(ResultAt(r, j), keywords).finalScore)
  {
    var top := Reranked(candidates, keywords, n);
    var r := Pack(top);
    RerankedShape(candidates, keywords, n);
    forall k | 0 <= k < |top| ensures ResultAt(r, k) in candidates && Score(ResultAt(r, k), keywords) == top[k] {
      assert top[k] in top;
    }
    forall i, j | 0 <= i < j < |r.ids|
      ensures Score(ResultAt(r, i), keywords).finalScore <= Score(ResultAt(r, j), keywords).finalScore
    {
      assert Score(ResultAt(r, i), keywords) == top[i];
      assert Score(ResultAt(r, j), keywords) == top[j];
    }
  }
}
