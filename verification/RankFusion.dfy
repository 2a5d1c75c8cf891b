/** Hybrid reranking (backend/gaf_ai/rag.py, _rrf_score and _rerank_docs): reciprocal rank fusion of
    the vector rank and the keyword rank, a small keyword boost, rounding, and a stable sort. The
    optional LLM pass is off. Scores are reals and `round` is any monotone function. */
module RankFusion {
  import opened Prelude
  import opened Sorting

  const RRF_K: nat := 60

  function Rrf(ranks: seq<nat>): real {
    if ranks == [] then 0.0 else 1.0 / (RRF_K + ranks[0] + 1) as real + Rrf(ranks[1..])
  }

  function Range(n: nat): seq<nat> {
    seq(n, i requires 0 <= i < n => i)
  }

  /** Descending by score, for positions into `score`. */
  function Desc(score: seq<real>): (nat, nat) -> bool {
    (i: nat, j: nat) => (if i < |score| then score[i] else 0.0) >= (if j < |score| then score[j] else 0.0)
  }

  lemma DescIsPreorder(score: seq<real>)
    ensures TotalPreorder(Desc(score))
  {
  }

  /** Positions in descending score order, ties in their given order. */
  function Ranking(score: seq<real>): seq<nat> {
    Sorted(Range(|score|), Desc(score))
  }

  /** A ranking is a permutation of the positions, and a position precedes every later one whose score
      is not higher. */
  lemma RankingCorrect(score: seq<real>)
    ensures |Ranking(score)| == |score| && NoDup(Ranking(score))
    ensures forall i: nat :: i in Ranking(score) <==> i < |score|
    ensures forall i, j :: 0 <= i < j < |score| && score[i] >= score[j] ==> Before(Ranking(score), i, j)
    ensures forall p, q :: 0 <= p < q < |score| ==> Desc(score)(Ranking(score)[p], Ranking(score)[q])
  {
    var r := Range(|score|);
    DescIsPreorder(score);
    SortedCorrect(r, Desc(score));
    assert forall i: nat :: i in r <==> i < |score| by {
      forall i: nat | i < |score| ensures i in r { assert r[i] == i; }
    }
    NoDupByMultiset(r, Ranking(score));
    forall i, j | 0 <= i < j < |score| && score[i] >= score[j] ensures Before(Ranking(score), i, j) {
      assert r[i] == i && r[j] == j;
      SortedStable(r, Desc(score), i, j);
    }
  }

  /** Where `x` stands in `s`. */
  function IndexOf(s: seq<nat>, x: nat): nat {
    if s == [] || s[0] == x then 0 else 1 + IndexOf(s[1..], x)
  }

  lemma {:induction false} IndexOfAt(s: seq<nat>, p: nat)
    requires NoDup(s) && p < |s|
    ensures IndexOf(s, s[p]) == p
    decreases p
  {
    if p > 0 {
      assert s[0] != s[p];
      IndexOfAt(s[1..], p - 1);
    }
  }

  lemma RankingPlace(kw: seq<real>, i: nat) returns (p: nat)
    requires i < |kw|
    ensures p < |Ranking(kw)| && Ranking(kw)[p] == i && IndexOf(Ranking(kw), i) == p
  {
    RankingCorrect(kw);
    assert i in Ranking(kw);
    p :| p < |Ranking(kw)| && Ranking(kw)[p] == i;
    IndexOfAt(Ranking(kw), p);
  }

  /** The score of document `i`, its keyword rank read off the keyword ranking. */
  function Fused(kw: seq<real>, round: real -> real, i: nat): real
    requires i < |kw|
  {
    round(Rrf([i, IndexOf(Ranking(kw), i)]) + kw[i] * 0.01)
  }

  function FusedScores(kw: seq<real>, round: real -> real): seq<real> {
    seq(|kw|, i requires 0 <= i < |kw| => Fused(kw, round, i))
  }

  function Take(s: seq<nat>, k: nat): seq<nat> {
    if k <= |s| then s[..k] else s
  }

  /** The positions of the returned documents, best first. */
  function Result(kw: seq<real>, round: real -> real, topK: nat): seq<nat> {
    Take(Ranking(FusedScores(kw, round)), topK)
  }

  datatype Ranked<D> = Ranked(doc: D, rerankScore: real)

  /** The rank dictionary, built by enumerating the keyword order. */
  method KeywordRanks(kw: seq<real>) returns (rank: map<nat, nat>)
    ensures forall i: nat :: i < |kw| ==> i in rank && rank[i] == IndexOf(Ranking(kw), i)
  {
    var order := Ranking(kw);
    rank := map[];
    RankingCorrect(kw);
    for p := 0 to |order|
      invariant forall q :: 0 <= q < p ==> order[q] in rank && rank[order[q]] == q
    {
      rank := rank[order[p] := p];
    }
    forall i: nat | i < |kw| ensures i in rank && rank[i] == IndexOf(order, i) {
      var p := RankingPlace(kw, i);
      assert order[p] in rank;
    }
  }

  /** `_rerank_docs` on documents in vector order; `kw[i]` is the keyword similarity of document i.
      Each returned document is the input document at its position, with its fused score. */
  method RerankDocs<D>(docs: seq<D>, kw: seq<real>, round: real -> real, topK: nat) returns (ranked: seq<Ranked<D>>)
    requires |kw| == |docs|
    ensures |ranked| == |Result(kw, round, topK)|
    ensures forall p :: 0 <= p < |ranked| ==>
              var i := Result(kw, round, topK)[p];
              i < |docs| && ranked[p] == Ranked(docs[i], Fused(kw, round, i))
  {
    RankingCorrect(FusedScores(kw, round));
    var kwRank := KeywordRanks(kw);
    var scores: seq<real> := [];
    for i := 0 to |docs|
      invariant |scores| == i && forall k :: 0 <= k < i ==> scores[k] == Fused(kw, round, k)
    {
      var score := round(Rrf([i, kwRank[i]]) + kw[i] * 0.01);
      assert score == Fused(kw, round, i);
      scores := scores + [score];
    }
    assert scores == FusedScores(kw, round);
    var order := Take(Ranking(scores), topK);
    assert forall p :: 0 <= p < |order| ==> order[p] in Ranking(scores);
    ranked := seq(|order|, p requires 0 <= p < |order| => Ranked(docs[order[p]], scores[order[p]]));
  }

  /** The result has min(top_k, n) distinct positions of input documents, scores descending. */
  lemma ResultShape(kw: seq<real>, round: real -> real, topK: nat)
    ensures var r := Result(kw, round, topK);
            && |r| == (if topK <= |kw| then topK else |kw|) && NoDup(r)
            && (forall p :: 0 <= p < |r| ==> r[p] < |kw|)
            && (forall p, q :: 0 <= p < q < |r| ==> Fused(kw, round, r[p]) >= Fused(kw, round, r[q]))
  {
    var scores := FusedScores(kw, round);
    RankingCorrect(scores);
    var r := Result(kw, round, topK);
    forall p | 0 <= p < |r| ensures r[p] < |kw| {
      assert r[p] == Ranking(scores)[p] && r[p] in Ranking(scores);
    }
    forall p, q | 0 <= p < q < |r| ensures Fused(kw, round, r[p]) >= Fused(kw, round, r[q]) {
      assert r[p] == Ranking(scores)[p] && r[q] == Ranking(scores)[q];
      assert Desc(scores)(Ranking(scores)[p], Ranking(scores)[q]);
    }
  }

  /** Of two documents the one ahead on the vector signal and not behind on the keyword score has the
      better keyword rank too. */
  lemma KeywordRankOrder(kw: seq<real>, a: nat, b: nat)
    requires a < b < |kw| && kw[a] >= kw[b]
    ensures IndexOf(Ranking(kw), a) < IndexOf(Ranking(kw), b)
  {
    RankingCorrect(kw);
    var order := Ranking(kw);
    assert Before(order, a, b);
    var p, q :| 0 <= p < q < |order| && order[p] == a && order[q] == b;
    IndexOfAt(order, p);
    IndexOfAt(order, q);
  }

  lemma RrfPair(i: nat, j: nat)
    ensures Rrf([i, j]) == 1.0 / (RRF_K + i + 1) as real + 1.0 / (RRF_K + j + 1) as real
  {
    assert [i, j][1..] == [j] && [j][1..] == [];
    assert Rrf([j]) == 1.0 / (RRF_K + j + 1) as real + Rrf([]);
  }

  lemma Reciprocal(m: nat, n: nat)
    requires 0 < m < n
    ensures 1.0 / m as real > 1.0 / n as real
  {
  }

  /** A document that is ahead on the vector signal and not behind on the keyword signal gets a fused
      score that is not lower, whatever the rounding. */
  lemma FusedMonotone(kw: seq<real>, round: real -> real, a: nat, b: nat)
    requires Monotone(round) && a < b < |kw| && kw[a] >= kw[b]
    ensures Fused(kw, round, a) >= Fused(kw, round, b)
  {
    var p, q := IndexOf(Ranking(kw), a), IndexOf(Ranking(kw), b);
    KeywordRankOrder(kw, a, b);
    Reciprocal(RRF_K + a + 1, RRF_K + b + 1);
    Reciprocal(RRF_K + p + 1, RRF_K + q + 1);
    RrfPair(a, p);
    RrfPair(b, q);
    assert Rrf([a, p]) + kw[a] * 0.01 >= Rrf([b, q]) + kw[b] * 0.01;
  }

  /** The first `n` entries. */
  ghost function FirstOf(s: seq<nat>, n: nat): set<nat>
    requires n <= |s|
  {
    if n == 0 then {} else FirstOf(s, n - 1) + {s[n - 1]}
  }

  lemma {:induction false} FirstOfMembers(s: seq<nat>, n: nat, x: nat)
    requires n <= |s|
    ensures x in FirstOf(s, n) <==> exists k :: 0 <= k < n && s[k] == x
    decreases n
  {
    if n > 0 { FirstOfMembers(s, n - 1, x); }
  }

  lemma {:induction false} FirstOfSize(s: seq<nat>, n: nat)
    requires NoDup(s) && n <= |s|
    ensures |FirstOf(s, n)| == n
    decreases n
  {
    if n > 0 {
      FirstOfSize(s, n - 1);
      FirstOfMembers(s, n - 1, s[n - 1]);
    }
  }

  /** `j` has a better keyword rank than `i`. */
  ghost predicate Ahead(kw: seq<real>, j: nat, i: nat)
    requires i < |kw|
  {
    j < |kw| && (kw[j] > kw[i] || (kw[j] == kw[i] && j < i))
  }

  lemma NotBefore(order: seq<nat>, p: nat, q: nat)
    requires NoDup(order) && q < p < |order|
    ensures !Before(order, order[p], order[q])
  {
  }

  lemma AheadIsEarlier(kw: seq<real>, p: nat, q: nat)
    requires p < |Ranking(kw)| && q < |Ranking(kw)|
    ensures |Ranking(kw)| == |kw| && Ranking(kw)[p] < |kw|
    ensures Ahead(kw, Ranking(kw)[q], Ranking(kw)[p]) <==> q < p
  {
    RankingCorrect(kw);
    var order := Ranking(kw);
    assert order[p] in order && order[q] in order;
    if q < p {
      assert Desc(kw)(order[q], order[p]);
      if order[p] < order[q] && kw[order[p]] == kw[order[q]] { NotBefore(order, p, q); }
    } else if p < q {
      assert Desc(kw)(order[p], order[q]);
      if order[q] < order[p] && kw[order[p]] == kw[order[q]] { NotBefore(order, q, p); }
    }
  }

  lemma AheadIsFirst(kw: seq<real>, p: nat, j: nat)
    requires p < |Ranking(kw)|
    ensures |Ranking(kw)| == |kw| && Ranking(kw)[p] < |kw|
    ensures Ahead(kw, j, Ranking(kw)[p]) <==> j in FirstOf(Ranking(kw), p)
  {
    RankingCorrect(kw);
    FirstOfMembers(Ranking(kw), p, j);
    AheadIsEarlier(kw, p, p);
    if j < |kw| {
      assert j in Ranking(kw);
      var q: nat :| q < |Ranking(kw)| && Ranking(kw)[q] == j;
      AheadIsEarlier(kw, p, q);
    }
  }

  /** The keyword rank of a document is the number of documents with a higher keyword similarity, or with
      the same one and an earlier place. */
  lemma KeywordRankMeaning(kw: seq<real>, i: nat)
    requires i < |kw|
    ensures IndexOf(Ranking(kw), i) == |set j: nat | j < |kw| && Ahead(kw, j, i)|
  {
    var p := RankingPlace(kw, i);
    forall j: nat { AheadIsFirst(kw, p, j); }
    RankingCorrect(kw);
    FirstOfSize(Ranking(kw), p);
    assert (set j: nat | j < |kw| && Ahead(kw, j, i)) == FirstOf(Ranking(kw), p);
  }

  /** The fused score of document `i`: one reciprocal for each of its two ranks, counted from 1 and shifted by
      60, and a hundredth of the keyword similarity. */
  lemma FusedMeaning(kw: seq<real>, round: real -> real, i: nat)
    requires i < |kw|
    ensures var rank := |set j: nat | j < |kw| && Ahead(kw, j, i)|;
            Fused(kw, round, i)
            == round(1.0 / (61 + i) as real + 1.0 / (61 + rank) as real + kw[i] / 100.0)
  {
    KeywordRankMeaning(kw, i);
    RrfPair(i, IndexOf(Ranking(kw), i));
    assert kw[i] * 0.01 == kw[i] / 100.0;
  }

  lemma TakeKeeps(s: seq<nat>, k: nat, q: nat)
    requires q < |s|
    ensures q < |Take(s, k)| ==> Take(s, k)[q] == s[q] && s[q] in Take(s, k)
  {
  }

  /** What is left out scores lower than everything returned, or the same and stands later in the input. */
  lemma ResultBest(kw: seq<real>, round: real -> real, topK: nat, p: nat, i: nat)
    requires p < |Result(kw, round, topK)| && i < |kw| && i !in Result(kw, round, topK)
    ensures Result(kw, round, topK)[p] < |kw|
    ensures var x := Result(kw, round, topK)[p];
            Fused(kw, round, x) > Fused(kw, round, i) || (Fused(kw, round, x) == Fused(kw, round, i) && x < i)
  {
    var scores, r := FusedScores(kw, round), Result(kw, round, topK);
    RankingCorrect(scores);
    var full := Ranking(scores);
    assert i in full;
    var q: nat :| q < |full| && full[q] == i;
    TakeKeeps(full, topK, q);
    TakeKeeps(full, topK, p);
    AheadIsEarlier(scores, q, p);
  }

  /** Fusion respects dominance: if b made it into the result, so did a, and a comes first. */
  lemma Dominance(kw: seq<real>, round: real -> real, topK: nat, a: nat, b: nat)
    requires Monotone(round) && a < b < |kw| && kw[a] >= kw[b]
    requires b in Result(kw, round, topK)
    ensures a in Result(kw, round, topK) && Before(Result(kw, round, topK), a, b)
  {
    FusedMonotone(kw, round, a, b);
    var scores := FusedScores(kw, round);
    RankingCorrect(scores);
    var full, r := Ranking(scores), Result(kw, round, topK);
    assert scores[a] >= scores[b] && Before(full, a, b);
    var p, q :| 0 <= p < q < |full| && full[p] == a && full[q] == b;
    var t :| 0 <= t < |r| && r[t] == b;
    assert full[t] == b && t == q;
    assert r[p] == a && r[q] == b;
  }
}
