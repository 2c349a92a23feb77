/** Reciprocal Rank Fusion of vector and text results (`query/hybrid.go`). */
module Fusion {
  import opened Model
  import opened StableSort

  /** The share of the zero-based rank `rank`. */
  function RankTerm(k: nat, rank: nat): real {
    1.0 / (k + rank + 1) as real
  }

  /** Where `id` stands in the list, for the last time if it is repeated. */
  function RankOf(list: seq<Hit>, id: ID): (r: Option<nat>)
    ensures r.Some? ==> r.value < |list| && list[r.value].entry.id == id
    ensures r.Some? <==> HasHit(list, id)
  {
    if list == [] then None
    else
      var n := |list| - 1;
      assert list == list[..n] + [list[n]];
      if list[n].entry.id == id then Some(n) else RankOf(list[..n], id)
  }

  function Share(list: seq<Hit>, id: ID, k: nat): real {
    match RankOf(list, id)
    case None => 0.0
    case Some(r) => RankTerm(k, r)
  }

  /** Where it stands for the first time. */
  function FirstRank(list: seq<Hit>, id: ID): (r: Option<nat>)
    ensures r.Some? ==> r.value < |list| && list[r.value].entry.id == id
    ensures r.Some? <==> HasHit(list, id)
  {
    if list == [] then None
    else
      var n := |list| - 1;
      assert list == list[..n] + [list[n]];
      var before := FirstRank(list[..n], id);
      if before.None? && list[n].entry.id == id then Some(n) else before
  }

  /** The shares of every time it stands there. */
  function AllShares(list: seq<Hit>, id: ID, k: nat): real {
    if list == [] then 0.0
    else
      var n := |list| - 1;
      AllShares(list[..n], id, k) + if list[n].entry.id == id then RankTerm(k, n) else 0.0
  }

  /** Without repetitions there is one rank and one share. */
  lemma {:induction false} RanksOnce(list: seq<Hit>, id: ID, k: nat)
    requires DistinctHits(list)
    ensures FirstRank(list, id) == RankOf(list, id) && AllShares(list, id, k) == Share(list, id, k)
  {
    if list != [] {
      var n := |list| - 1;
      assert list == list[..n] + [list[n]];
      RanksOnce(list[..n], id, k);
    }
  }

  datatype Fused = Fused(result: Hit, rrfScore: real, bestRank: nat)

  /** The fused record of `id`: the score is the sum of its shares; the result is the
      vector one when there is one; the better rank decides how it was reached. A vector
      result overwrites an earlier one with its ID, while repeated text results add up. */
  function FusedFor(vector: seq<Hit>, text: seq<Hit>, k: nat, id: ID): (f: Fused)
    requires InEither(vector, text, id)
  {
    var score := Share(vector, id, k) + AllShares(text, id, k);
    match (RankOf(vector, id), FirstRank(text, id))
    case (Some(v), Some(t)) =>
      if t < v then Fused(vector[v].(reach := Text), score, t) else Fused(vector[v], score, v)
    case (Some(v), None) => Fused(vector[v], score, v)
    case (None, Some(t)) => Fused(text[t].(reach := Text), score, t)
  }

  predicate InEither(vector: seq<Hit>, text: seq<Hit>, id: ID) {
    RankOf(vector, id).Some? || FirstRank(text, id).Some?
  }

  /** The map holds the fused record of every ID of the two lists. */
  ghost predicate Tabulates(fused: map<ID, Fused>, vector: seq<Hit>, text: seq<Hit>, k: nat) {
    && (forall id :: id in fused <==> InEither(vector, text, id))
    && (forall id :: id in fused ==> fused[id] == FusedFor(vector, text, k, id))
  }

  lemma TabulatesVector(fused: map<ID, Fused>, vector: seq<Hit>, k: nat, r: Hit)
    requires Tabulates(fused, vector, [], k)
    ensures Tabulates(fused[r.entry.id := Fused(r, RankTerm(k, |vector|), |vector|)], vector + [r], [], k)
  {
    forall id
      ensures RankOf(vector + [r], id) == if id == r.entry.id then Some(|vector|) else RankOf(vector, id)
    {
      RankOfSnoc(vector, r, id);
    }
    hide RankOf;
  }

  lemma TabulatesText(fused: map<ID, Fused>, vector: seq<Hit>, text: seq<Hit>, k: nat, r: Hit)
    requires Tabulates(fused, vector, text, k)
    ensures var id, score, rank := r.entry.id, RankTerm(k, |text|), |text|;
      var f :=
        if id in fused then
          var better := rank < fused[id].bestRank;
          Fused(if better then fused[id].result.(reach := Text) else fused[id].result, fused[id].rrfScore + score,
                if better then rank else fused[id].bestRank)
        else
          Fused(r.(reach := Text), score, rank);
      Tabulates(fused[id := f], vector, text + [r], k)
  {
    hide HasHit, RankOf, FirstRank, FusedFor, AllShares, Share, RankTerm;
    forall id
      ensures id != r.entry.id ==> FirstRank(text + [r], id) == FirstRank(text, id)
      ensures id != r.entry.id && InEither(vector, text, id) ==>
        FusedFor(vector, text + [r], k, id) == FusedFor(vector, text, k, id)
    {
      FusedForOther(vector, text, k, r, id);
    }
    FusedForText(vector, text, k, r);
  }

  lemma RankOfSnoc(list: seq<Hit>, r: Hit, id: ID)
    ensures RankOf(list + [r], id) == if id == r.entry.id then Some(|list|) else RankOf(list, id)
  {
    assert (list + [r])[..|list|] == list;
  }

  lemma FirstRankSnoc(list: seq<Hit>, r: Hit, id: ID, k: nat)
    ensures FirstRank(list + [r], id) ==
      if FirstRank(list, id).None? && id == r.entry.id then Some(|list|) else FirstRank(list, id)
    ensures AllShares(list + [r], id, k) ==
      AllShares(list, id, k) + if id == r.entry.id then RankTerm(k, |list|) else 0.0
  {
    assert (list + [r])[..|list|] == list;
  }

  lemma FusedForOther(vector: seq<Hit>, text: seq<Hit>, k: nat, r: Hit, id: ID)
    ensures id != r.entry.id ==> FirstRank(text + [r], id) == FirstRank(text, id)
    ensures id != r.entry.id && InEither(vector, text, id) ==>
      FusedFor(vector, text + [r], k, id) == FusedFor(vector, text, k, id)
  {
    FirstRankSnoc(text, r, id, k);
    hide RankOf, FirstRank, AllShares, Share;
  }

  lemma FusedForText(vector: seq<Hit>, text: seq<Hit>, k: nat, r: Hit)
    ensures var id, score, rank := r.entry.id, RankTerm(k, |text|), |text|;
      && FirstRank(text + [r], id).Some?
      && FusedFor(vector, text + [r], k, id) ==
         if InEither(vector, text, id) then
           var f := FusedFor(vector, text, k, id);
           var better := rank < f.bestRank;
           Fused(if better then f.result.(reach := Text) else f.result, f.rrfScore + score,
                 if better then rank else f.bestRank)
         else
           Fused(r.(reach := Text), score, rank)
  {
    hide RankOf, FirstRank, AllShares, Share, RankTerm, HasHit;
    FirstRankSnoc(text, r, r.entry.id, k);
    AbsentShares(text, r.entry.id, k);
    NoShare(vector, r.entry.id, k);
  }

  lemma NoShare(list: seq<Hit>, id: ID, k: nat)
    ensures RankOf(list, id).None? ==> Share(list, id, k) == 0.0
  {
  }

  lemma {:induction false} AbsentShares(list: seq<Hit>, id: ID, k: nat)
    ensures AllShares(list, id, k) >= 0.0
    ensures FirstRank(list, id).None? ==> AllShares(list, id, k) == 0.0
    ensures FirstRank(list, id).Some? ==> AllShares(list, id, k) > 0.0
  {
    if list != [] {
      AbsentShares(list[..|list| - 1], id, k);
    }
  }

  /** What a fused list is: every ID of the union once, best first. */
  ghost predicate FusionOf(results: seq<Hit>, vector: seq<Hit>, text: seq<Hit>, k: nat) {
    && DistinctHits(results)
    && Descending(results)
    && (forall id :: HasHit(results, id) <==> InEither(vector, text, id))
    && (forall h :: h in results ==> IsFused(h, vector, text, k))
  }

  ghost predicate IsFused(h: Hit, vector: seq<Hit>, text: seq<Hit>, k: nat) {
    && InEither(vector, text, h.entry.id)
    && var f := FusedFor(vector, text, k, h.entry.id);
       h == f.result.(score := f.rrfScore)
  }

  method FuseByRRF(vectorResults: seq<Hit>, textResults: seq<Hit>, k: nat) returns (results: seq<Hit>)
    ensures FusionOf(results, vectorResults, textResults, k)
  {
    hide FusedFor, RankOf, FirstRank, AllShares;
    var fused: map<ID, Fused> := map[];
    assert Tabulates(fused, [], [], k) by {
      EmptyTable(k);
    }
    hide Tabulates;
    for rank := 0 to |vectorResults|
      invariant Tabulates(fused, vectorResults[..rank], [], k)
    {
      var r := vectorResults[rank];
      var score := 1.0 / (k + rank + 1) as real;
      TabulatesVector(fused, vectorResults[..rank], k, r);
      assert vectorResults[..rank + 1] == vectorResults[..rank] + [r];
      fused := fused[r.entry.id := Fused(r, score, rank)];
    }
    assert vectorResults[..|vectorResults|] == vectorResults;
    for rank := 0 to |textResults|
      invariant Tabulates(fused, vectorResults, textResults[..rank], k)
    {
      var r := textResults[rank];
      var score := 1.0 / (k + rank + 1) as real;
      TabulatesText(fused, vectorResults, textResults[..rank], k, r);
      assert textResults[..rank + 1] == textResults[..rank] + [r];
      if r.entry.id in fused {
        var fe := fused[r.entry.id];
        fe := fe.(rrfScore := fe.rrfScore + score);
        if rank < fe.bestRank {
          fe := fe.(bestRank := rank, result := fe.result.(reach := Text));
        }
        fused := fused[r.entry.id := fe];
      } else {
        fused := fused[r.entry.id := Fused(r.(reach := Text), score, rank)];
      }
    }
    assert textResults[..|textResults|] == textResults;

    results := [];
    var keys := fused.Keys;
    CollectStart(fused);
    while keys != {}
      invariant Collects(fused, keys, results)
      decreases keys
    {
      var id :| id in keys;
      CollectNext(fused, keys, results, id, vectorResults, textResults, k);
      results := results + [fused[id].result.(score := fused[id].rrfScore)];
      keys := keys - {id};
    }
    ghost var collected := results;
    results := Sorted(results);
    CollectedIsFusion(fused, collected, results, vectorResults, textResults, k);
  }

  lemma EmptyTable(k: nat)
    ensures Tabulates(map[], [], [], k)
  {
  }

  /** The results collected so far, from a map visited in any order. */
  ghost predicate Collects(fused: map<ID, Fused>, left: set<ID>, results: seq<Hit>) {
    && left <= fused.Keys
    && DistinctHits(results)
    && (forall id :: HasHit(results, id) <==> id in fused.Keys - left)
    && (forall h :: h in results ==>
          && h.entry.id in fused
          && h == fused[h.entry.id].result.(score := fused[h.entry.id].rrfScore))
  }

  lemma CollectStart(fused: map<ID, Fused>)
    ensures Collects(fused, fused.Keys, [])
  {
  }

  lemma FusedKeepsEntry(vector: seq<Hit>, text: seq<Hit>, k: nat, id: ID)
    requires InEither(vector, text, id)
    ensures FusedFor(vector, text, k, id).result.entry.id == id
  {
  }

  lemma CollectNext(fused: map<ID, Fused>, left: set<ID>, results: seq<Hit>, id: ID,
                    vector: seq<Hit>, text: seq<Hit>, k: nat)
    requires Tabulates(fused, vector, text, k) && Collects(fused, left, results) && id in left
    ensures Collects(fused, left - {id}, results + [fused[id].result.(score := fused[id].rrfScore)])
  {
    FusedKeepsEntry(vector, text, k, id);
    hide FusedFor, RankOf, FirstRank, Tabulates;
    var hit := fused[id].result.(score := fused[id].rrfScore);
    forall v
      ensures HasHit(results + [hit], v) <==> v in fused.Keys - (left - {id})
    {
      HasHitSnoc(results, hit, v);
    }
    assert !HasHit(results, id);
    forall i | 0 <= i < |results|
      ensures results[i].entry.id != id
    {
      assert results[i] in results;
    }
  }

  lemma CollectedIsFusion(fused: map<ID, Fused>, collected: seq<Hit>, results: seq<Hit>,
                          vector: seq<Hit>, text: seq<Hit>, k: nat)
    requires Tabulates(fused, vector, text, k) && Collects(fused, {}, collected)
    requires StableSortOf(results, collected)
    ensures FusionOf(results, vector, text, k)
  {
    hide FusedFor, RankOf;
    StableSortIsPermutation(results, collected);
    PermutationKeepsHits(collected, results);
  }

  // What fusion means for the scores.

  lemma RankTermFalls(k: nat, r: nat, s: nat)
    requires r < s
    ensures 0.0 < RankTerm(k, s) < RankTerm(k, r) <= 1.0 / (k + 1) as real
  {
    var a, b := (k + r + 1) as real, (k + s + 1) as real;
    assert 1.0 / b < 1.0 / a by {
      assert 1.0 / a - 1.0 / b == (b - a) / (a * b);
    }
    assert 1.0 / a <= 1.0 / (k + 1) as real by {
      if r > 0 {
        var c := (k + 1) as real;
        assert 1.0 / c - 1.0 / a == (a - c) / (c * a);
      }
    }
  }

  lemma ShareBound(list: seq<Hit>, id: ID, k: nat)
    ensures 0.0 <= Share(list, id, k) <= 1.0 / (k + 1) as real
    ensures RankOf(list, id).Some? ==> Share(list, id, k) > 0.0
  {
    match RankOf(list, id)
    case None => assert 1.0 / (k + 1) as real > 0.0;
    case Some(r) => RankTermFalls(k, r, r + 1);
  }

  /** Scores are positive. */
  lemma FusedScorePositive(results: seq<Hit>, vector: seq<Hit>, text: seq<Hit>, k: nat, h: Hit)
    requires FusionOf(results, vector, text, k) && h in results
    ensures h.score > 0.0
  {
    ShareBound(vector, h.entry.id, k);
    AbsentShares(text, h.entry.id, k);
    FusedScore(vector, text, k, h);
    hide FusedFor, Share, AllShares;
    assert IsFused(h, vector, text, k);
  }

  /** And no score exceeds twice the top share, unless the text results repeat an ID. */
  lemma FusedScoreBound(results: seq<Hit>, vector: seq<Hit>, text: seq<Hit>, k: nat, h: Hit)
    requires FusionOf(results, vector, text, k) && h in results && DistinctHits(text)
    ensures 0.0 < h.score <= 2.0 / (k + 1) as real
  {
    hide FusedFor, RankOf, FirstRank, Share, AllShares;
    assert IsFused(h, vector, text, k);
    ShareBound(vector, h.entry.id, k);
    ShareBound(text, h.entry.id, k);
    RanksOnce(text, h.entry.id, k);
    FusedScore(vector, text, k, h);
    FusedScorePositive(results, vector, text, k, h);
    TwoShares(1.0 / (k + 1) as real, (k + 1) as real);
  }

  lemma TwoShares(share: real, x: real)
    requires x > 0.0 && share == 1.0 / x
    ensures share + share == 2.0 / x
  {
  }

  lemma FusedScore(vector: seq<Hit>, text: seq<Hit>, k: nat, h: Hit)
    requires IsFused(h, vector, text, k)
    ensures h.score == Share(vector, h.entry.id, k) + AllShares(text, h.entry.id, k)
  {
  }

  /** What lists that repeat nothing give a result: 1/(k + 1 + rank) for its place in each, where
      it has one. */
  lemma FusedScoreAtRanks(results: seq<Hit>, vector: seq<Hit>, text: seq<Hit>, k: nat, h: Hit, v: nat, t: nat)
    requires FusionOf(results, vector, text, k) && h in results && DistinctHits(vector) && DistinctHits(text)
    requires if v < |vector| then vector[v].entry.id == h.entry.id else !HasHit(vector, h.entry.id)
    requires if t < |text| then text[t].entry.id == h.entry.id else !HasHit(text, h.entry.id)
    ensures h.score == (if v < |vector| then 1.0 / (k + 1 + v) as real else 0.0) +
                       (if t < |text| then 1.0 / (k + 1 + t) as real else 0.0)
  {
    hide FusedFor, RankOf, FirstRank, AllShares, HasHit;
    assert IsFused(h, vector, text, k);
    RanksOnce(text, h.entry.id, k);
    FusedScore(vector, text, k, h);
    OnlyRank(vector, h.entry.id);
    OnlyRank(text, h.entry.id);
  }

  lemma OnlyRank(list: seq<Hit>, id: ID)
    requires DistinctHits(list)
    ensures forall i :: 0 <= i < |list| && list[i].entry.id == id ==> RankOf(list, id) == Some(i)
    ensures !HasHit(list, id) ==> RankOf(list, id) == None
  {
    forall i | 0 <= i < |list| && list[i].entry.id == id
      ensures RankOf(list, id) == Some(i)
    {
      assert list[i] in list;
    }
  }

  /** Ranked ahead of another ID in both lists means strictly ahead in the result. */
  lemma AheadInBothIsAhead(results: seq<Hit>, vector: seq<Hit>, text: seq<Hit>, k: nat, i: nat, j: nat)
    requires FusionOf(results, vector, text, k) && DistinctHits(text) && i < |results| && j < |results|
    requires var a, b := results[i].entry.id, results[j].entry.id;
      && RankOf(vector, a).Some? && RankOf(vector, b).Some? && RankOf(vector, a).value < RankOf(vector, b).value
      && RankOf(text, a).Some? && RankOf(text, b).Some? && RankOf(text, a).value < RankOf(text, b).value
    ensures results[i].score > results[j].score && i < j
  {
    var a, b := results[i].entry.id, results[j].entry.id;
    RankTermFalls(k, RankOf(vector, a).value, RankOf(vector, b).value);
    RankTermFalls(k, RankOf(text, a).value, RankOf(text, b).value);
    RanksOnce(text, a, k);
    RanksOnce(text, b, k);
    FusedScore(vector, text, k, results[i]);
    FusedScore(vector, text, k, results[j]);
    assert results[i] in results && results[j] in results;
  }

  function SumTerms(k: nat, n: nat): real {
    if n == 0 then 0.0 else SumTerms(k, n - 1) + RankTerm(k, n - 1)
  }

  function SumScores(hits: seq<Hit>): real {
    if hits == [] then 0.0 else SumScores(hits[..|hits| - 1]) + hits[|hits| - 1].score
  }

  function SumShares(hits: seq<Hit>, list: seq<Hit>, k: nat): real {
    if hits == [] then 0.0
    else SumShares(hits[..|hits| - 1], list, k) + Share(list, hits[|hits| - 1].entry.id, k)
  }

  /** Taking the last result out of the list takes out its share, once. */
  lemma {:induction false} SharesOfSnoc(hits: seq<Hit>, list: seq<Hit>, k: nat)
    requires DistinctHits(hits) && DistinctHits(list) && list != []
    ensures var n := |list| - 1;
      SumShares(hits, list, k) ==
        SumShares(hits, list[..n], k) + if HasHit(hits, list[n].entry.id) then RankTerm(k, n) else 0.0
  {
    if hits != [] {
      var n, front, last := |list| - 1, hits[..|hits| - 1], hits[|hits| - 1];
      SharesOfSnoc(front, list, k);
      assert hits == front + [last] && list == list[..n] + [list[n]];
      HasHitSnoc(front, last, list[n].entry.id);
      RankOfSnoc(list[..n], list[n], last.entry.id);
      if last.entry.id == list[n].entry.id {
        assert !HasHit(list[..n], last.entry.id);
        assert !HasHit(front, last.entry.id);
      }
    }
  }

  lemma {:induction false} SharesOfAll(hits: seq<Hit>, list: seq<Hit>, k: nat)
    requires DistinctHits(hits) && DistinctHits(list)
    requires forall h :: h in list ==> HasHit(hits, h.entry.id)
    ensures SumShares(hits, list, k) == SumTerms(k, |list|)
  {
    if list == [] {
      SharesOfNone(hits, k);
    } else {
      var n := |list| - 1;
      assert list == list[..n] + [list[n]];
      SharesOfSnoc(hits, list, k);
      SharesOfAll(hits, list[..n], k);
    }
  }

  lemma {:induction false} SharesOfNone(hits: seq<Hit>, k: nat)
    ensures SumShares(hits, [], k) == 0.0
  {
    if hits != [] {
      SharesOfNone(hits[..|hits| - 1], k);
    }
  }

  lemma {:induction false} ScoresAreShares(hits: seq<Hit>, vector: seq<Hit>, text: seq<Hit>, k: nat)
    requires DistinctHits(text) && forall h :: h in hits ==> IsFused(h, vector, text, k)
    ensures SumScores(hits) == SumShares(hits, vector, k) + SumShares(hits, text, k)
  {
    if hits != [] {
      assert hits[|hits| - 1] in hits;
      RanksOnce(text, hits[|hits| - 1].entry.id, k);
      ScoresAreShares(hits[..|hits| - 1], vector, text, k);
    }
  }

  /** Fusion hands out every rank's share of both lists, and nothing else. */
  lemma FusionConservesScore(results: seq<Hit>, vector: seq<Hit>, text: seq<Hit>, k: nat)
    requires DistinctHits(vector) && DistinctHits(text) && FusionOf(results, vector, text, k)
    ensures SumScores(results) == SumTerms(k, |vector|) + SumTerms(k, |text|)
  {
    ScoresAreShares(results, vector, text, k);
    forall h | h in vector
      ensures HasHit(results, h.entry.id)
    {
      assert HasHit(vector, h.entry.id);
    }
    forall h | h in text
      ensures HasHit(results, h.entry.id)
    {
      assert HasHit(text, h.entry.id);
    }
    SharesOfAll(results, vector, k);
    SharesOfAll(results, text, k);
  }
}
