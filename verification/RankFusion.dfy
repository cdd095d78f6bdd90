/** Reciprocal rank fusion of vector and full-text results (db/repository.py, `hybrid_search`). */
module RankFusion {
  import opened Basics
  import opened Sorting

  const RRF_CONSTANT := 60

  /** The one-based rank of a chunk in a result list. */
  function Rank(list: seq<nat>, id: nat): (r: nat)
    requires id in list
    ensures 1 <= r <= |list| && list[r - 1] == id
  {
    if list[0] == id then 1 else Rank(list[1..], id) + 1
  }

  /** What one list adds to a chunk's score. */
  function Share(list: seq<nat>, id: nat): real {
    if id in list then 1.0 / (RRF_CONSTANT + Rank(list, id)) as real else 0.0
  }

  function Score(vector: seq<nat>, fts: seq<nat>, id: nat): real { Share(vector, id) + Share(fts, id) }

  const MAX_SCORE := 2.0 / 61.0

  function Confidence(score: real): real { Clamp(0.0, 1.0, score / MAX_SCORE) }

  /** Chunk ids by falling score; `order` is the order in which the set of ids is iterated. */
  function Ranked(vector: seq<nat>, fts: seq<nat>, order: seq<nat>): seq<nat> {
    SortDescending(order, id => Score(vector, fts, id))
  }

  function Top(ids: seq<nat>, k: nat): seq<nat> { if |ids| <= k then ids else ids[..k] }

  /** `order` enumerates the chunks of both lists. */
  ghost predicate Enumerates(vector: seq<nat>, fts: seq<nat>, order: seq<nat>) {
    NoRepeats(order) && forall id :: id in order <==> id in vector || id in fts
  }

  /** The dictionary of scores. */
  method ScoreAll(vector: seq<nat>, fts: seq<nat>, order: seq<nat>) returns (scores: map<nat, real>)
    ensures forall id :: id in order ==> id in scores
    ensures forall id :: id in scores ==> scores[id] == Score(vector, fts, id)
  {
    scores := map[];
    for i := 0 to |order|
      invariant forall j :: 0 <= j < i ==> order[j] in scores
      invariant forall id :: id in scores ==> scores[id] == Score(vector, fts, id)
    {
      var score := 0.0;
      if order[i] in vector { score := score + Share(vector, order[i]); }
      if order[i] in fts { score := score + Share(fts, order[i]); }
      scores := scores[order[i] := score];
    }
  }

  /** The fusion step: score, sort, cut, normalise. */
  method Fuse(vector: seq<nat>, fts: seq<nat>, order: seq<nat>, k: nat)
    returns (ids: seq<nat>, confidences: seq<real>)
    requires Enumerates(vector, fts, order)
    ensures ids == Top(Ranked(vector, fts, order), k)
    ensures |ids| == (if |order| < k then |order| else k) && NoRepeats(ids)
    ensures forall i :: 0 <= i < |ids| ==> ids[i] in vector || ids[i] in fts
    ensures forall i, j :: 0 <= i < j < |ids| ==> Score(vector, fts, ids[i]) >= Score(vector, fts, ids[j])
    ensures |confidences| == |ids|
    ensures forall i :: 0 <= i < |ids| ==> confidences[i] == Score(vector, fts, ids[i]) * 30.5
  {
    TopIsOrdered(vector, fts, order, k);
    var scores := ScoreAll(vector, fts, order);
    ids := Top(Ranked(vector, fts, order), k);
    confidences := [];
    for i := 0 to |ids|
      invariant |confidences| == i
      invariant forall j :: 0 <= j < i ==> confidences[j] == Score(vector, fts, ids[j]) * 30.5
    {
      TopIsFound(vector, fts, order, k, i);
      NormalisedInUnit(vector, fts, ids[i]);
      confidences := confidences + [Confidence(scores[ids[i]])];
    }
  }

  /** The best chunks: as many as there are up to `k`, each once, by falling score. */
  lemma TopIsOrdered(vector: seq<nat>, fts: seq<nat>, order: seq<nat>, k: nat)
    requires Enumerates(vector, fts, order)
    ensures var ids := Top(Ranked(vector, fts, order), k);
      && |ids| == (if |order| < k then |order| else k) && NoRepeats(ids)
      && (forall i :: 0 <= i < |ids| ==> ids[i] in vector || ids[i] in fts)
      && (forall i, j :: 0 <= i < j < |ids| ==> Score(vector, fts, ids[i]) >= Score(vector, fts, ids[j]))
  {
    var key := id => Score(vector, fts, id);
    var ranked := Ranked(vector, fts, order);
    PermutationKeeps(order, ranked);
    forall i | 0 <= i < |Top(ranked, k)| ensures Top(ranked, k)[i] in vector || Top(ranked, k)[i] in fts {
      TopIsFound(vector, fts, order, k, i);
    }
    forall i, j | 0 <= i < j < |Top(ranked, k)| ensures Score(vector, fts, Top(ranked, k)[i]) >= Score(vector, fts, Top(ranked, k)[j]) {
      DescendingAt(ranked, key, i, j);
    }
  }

  /** `x` is the reciprocal of 60 and the one-based place of the chunk in the list, and nothing when it is not there. */
  ghost predicate Earns(list: seq<nat>, id: nat, x: real) {
    if id in list
    then exists r :: 0 <= r < |list| && list[r] == id && (forall s :: 0 <= s < r ==> list[s] != id) && x * (61 + r) as real == 1.0
    else x == 0.0
  }

  lemma {:induction false} FirstRank(list: seq<nat>, id: nat)
    requires id in list
    ensures forall s :: 0 <= s < Rank(list, id) - 1 ==> list[s] != id
    decreases |list|
  {
    if list[0] != id {
      FirstRank(list[1..], id);
      assert forall s :: 1 <= s < |list| ==> list[s] == list[1..][s - 1];
    }
  }

  lemma ShareIsEarned(list: seq<nat>, id: nat)
    ensures Earns(list, id, Share(list, id))
  {
    if id in list {
      FirstRank(list, id);
      var r := Rank(list, id) - 1;
      assert list[r] == id && Share(list, id) * (61 + r) as real == 1.0;
    }
  }

  /** Both lists count the same: the score is what the chunk earns in each of them. */
  lemma ScoreIsEarned(vector: seq<nat>, fts: seq<nat>, id: nat)
    ensures exists a, b :: Earns(vector, id, a) && Earns(fts, id, b) && Score(vector, fts, id) == a + b
    ensures Score(vector, fts, id) == Score(fts, vector, id)
  {
    ShareIsEarned(vector, id);
    ShareIsEarned(fts, id);
  }

  lemma TopIsFound(vector: seq<nat>, fts: seq<nat>, order: seq<nat>, k: nat, i: nat)
    requires i < |Top(Ranked(vector, fts, order), k)|
    ensures Top(Ranked(vector, fts, order), k)[i] in order
  {
    var ranked := Ranked(vector, fts, order);
    PermutationKeeps(order, ranked);
    assert Top(ranked, k)[i] == ranked[i] && ranked[i] in ranked;
  }

  lemma ShareRange(list: seq<nat>, id: nat)
    ensures 0.0 <= Share(list, id) <= 1.0 / 61.0
    ensures id in list ==> Share(list, id) > 0.0
  {
    if id in list {
      var d := (RRF_CONSTANT + Rank(list, id)) as real;
      InverseOrder(61.0, d);
    }
  }

  lemma InverseOrder(x: real, y: real)
    requires 0.0 < x <= y
    ensures 0.0 < 1.0 / y <= 1.0 / x
    ensures x < y ==> 1.0 / y < 1.0 / x
  {
    var p, q := 1.0 / x, 1.0 / y;
    assert p * x == 1.0 && q * y == 1.0;
    ProductSign(p, x);
    ProductSign(q, y);
    assert q > 0.0 && p > 0.0;
    ProductSign(p - q, x);
    ProductSign(q, y - x);
    assert Mul(p - q, x) == 1.0 - q * x;
    assert Mul(q, y - x) == 1.0 - q * x;
  }

  /** The normalised score of a found chunk lies in (0, 1], so its clamp never acts. */
  lemma NormalisedInUnit(vector: seq<nat>, fts: seq<nat>, id: nat)
    requires id in vector || id in fts
    ensures 0.0 < Score(vector, fts, id) / MAX_SCORE <= 1.0
    ensures Confidence(Score(vector, fts, id)) == Score(vector, fts, id) / MAX_SCORE
  {
    ShareRange(vector, id);
    ShareRange(fts, id);
  }

  lemma TopIsPrefix(ids: seq<nat>, k: nat, j: nat)
    requires j < |ids|
    ensures j < k ==> ids[j] in Top(ids, k)
  {
    if j < k { assert Top(ids, k)[j] == ids[j]; }
  }

  /** No omitted chunk outscores a returned one. */
  lemma NoOmittedOutscores(vector: seq<nat>, fts: seq<nat>, order: seq<nat>, k: nat, kept: nat, omitted: nat)
    requires Enumerates(vector, fts, order)
    requires kept in Top(Ranked(vector, fts, order), k)
    requires omitted in order && omitted !in Top(Ranked(vector, fts, order), k)
    ensures Score(vector, fts, omitted) <= Score(vector, fts, kept)
  {
    var ranked := Ranked(vector, fts, order);
    PermutationKeeps(order, ranked);
    var i :| 0 <= i < |Top(ranked, k)| && Top(ranked, k)[i] == kept;
    var j :| 0 <= j < |ranked| && ranked[j] == omitted;
    TopIsPrefix(ranked, k, j);
    DescendingAt(ranked, id => Score(vector, fts, id), i, j);
  }

  /** `a` stands ahead of `b` in every list that has `b`. */
  predicate Dominates(vector: seq<nat>, fts: seq<nat>, a: nat, b: nat) {
    && (b in vector ==> a in vector && Rank(vector, a) < Rank(vector, b))
    && (b in fts ==> a in fts && Rank(fts, a) < Rank(fts, b))
  }

  lemma {:induction false} ShareOrder(list: seq<nat>, a: nat, b: nat)
    requires b in list ==> a in list && Rank(list, a) < Rank(list, b)
    ensures Share(list, a) >= Share(list, b)
    ensures b in list ==> Share(list, a) > Share(list, b)
  {
    ShareRange(list, a);
    if b in list {
      InverseOrder((RRF_CONSTANT + Rank(list, a)) as real, (RRF_CONSTANT + Rank(list, b)) as real);
    }
  }

  /** A chunk that stands ahead of another in every list having the other is returned first. */
  lemma DominatingChunkComesFirst(
    vector: seq<nat>, fts: seq<nat>, order: seq<nat>, k: nat, a: nat, j: nat)
    requires Enumerates(vector, fts, order) && j < |Top(Ranked(vector, fts, order), k)|
    requires Dominates(vector, fts, a, Top(Ranked(vector, fts, order), k)[j])
    ensures exists i :: 0 <= i < j && Top(Ranked(vector, fts, order), k)[i] == a
  {
    var ranked := Ranked(vector, fts, order);
    var b := ranked[j];
    PermutationKeeps(order, ranked);
    assert b in ranked;
    ShareOrder(vector, a, b);
    ShareOrder(fts, a, b);
    assert Score(vector, fts, a) > Score(vector, fts, b);
    assert a in order;
    var i :| 0 <= i < |ranked| && ranked[i] == a;
    DescendingAt(ranked, id => Score(vector, fts, id), j, i);
    assert Top(ranked, k)[i] == a;
  }
}
