/** The ranking pipeline behind hybrid search (`query/hybrid.go`). */
module HybridSearch {
  import opened Model
  import opened Enrichment
  import opened GraphSearch
  import opened StableSort
  import opened RealPower
  import Expansion
  import Fusion
  import Similarity
  import Sorting
  import TextSearch
  import VectorSearch

  datatype HybridOptions = HybridOptions(
    vector: VectorSearch.VectorOptions,
    textSearch: bool,
    rrfk: int,
    expandDepth: int,
    expandDirection: Direction,
    expandEdgeTypes: seq<string>,
    totalLimit: int,
    includeSuperseded: bool)
  {
    function RrfK(): nat {
      if rrfk > 0 then rrfk else 60
    }
  }

  function Cut<T>(s: seq<T>, limit: int): seq<T> {
    if limit > 0 && |s| > limit then s[..limit] else s
  }

  function Demoted(h: Hit): Hit {
    if h.isSuperseded then h.(score := h.score * 0.1) else h
  }

  function DemoteAll(hits: seq<Hit>): (r: seq<Hit>)
    ensures |r| == |hits|
  {
    seq(|hits|, i requires 0 <= i < |hits| => Demoted(hits[i]))
  }

  method DemoteSuperseded(results: array<Hit>)
    modifies results
    ensures results[..] == DemoteAll(old(results[..]))
  {
    for i := 0 to results.Length
      invariant forall k :: 0 <= k < i ==> results[k] == Demoted(old(results[k]))
      invariant forall k :: i <= k < results.Length ==> results[k] == old(results[k])
    {
      if results[i].isSuperseded {
        results[i] := results[i].(score := results[i].score * 0.1);
      }
    }
  }

  /** Candidates are put in raw order, enriched, demoted, put in order again, and cut. */
  ghost predicate Ranked(store: Store, opts: HybridOptions, candidates: seq<Hit>, results: seq<Hit>) {
    exists raw, full ::
      && StableSortOf(raw, candidates)
      && FinalOrder(opts.includeSuperseded, EnrichAll(store, raw), full)
      && results == Cut(full, opts.totalLimit)
  }

  ghost predicate FinalOrder(includeSuperseded: bool, enriched: seq<Hit>, full: seq<Hit>) {
    if includeSuperseded then full == enriched else StableSortOf(full, DemoteAll(enriched))
  }

  method Rank(store: Store, opts: HybridOptions, candidates: seq<Hit>) returns (results: seq<Hit>)
    ensures Ranked(store, opts, candidates, results)
  {
    hide StableSortOf;
    var allResults := new Hit[|candidates|](i requires 0 <= i < |candidates| => candidates[i]);
    assert allResults[..] == candidates;
    SortResultsByScore(allResults);
    ghost var raw := allResults[..];
    EnrichSuperseded(store, allResults);
    if !opts.includeSuperseded {
      DemoteSuperseded(allResults);
      SortResultsByScore(allResults);
    }
    ghost var full := allResults[..];
    results := Cut(allResults[..], opts.totalLimit);
    assert StableSortOf(raw, candidates) && FinalOrder(opts.includeSuperseded, EnrichAll(store, raw), full);
  }

  /** The seeds of the expansion: the vector results, fused with the text results when
      text search is on and found anything, and then cut to the requested limit. */
  ghost predicate SeedsFor(opts: HybridOptions, vector: seq<Hit>, text: Option<seq<Hit>>, seeds: seq<Hit>) {
    if !opts.textSearch then seeds == vector
    else if text.None? || text.value == [] then seeds == Cut(vector, opts.vector.limit)
    else exists fused ::
      && Fusion.FusionOf(fused, vector, text.value, if opts.rrfk > 0 then opts.rrfk else 60)
      && seeds == Cut(fused, opts.vector.limit)
  }

  /** The results are the ranked candidates: the seeds, and what each of them expands to. */
  ghost predicate HybridAnswer(store: Store, opts: HybridOptions, vector: seq<Hit>, text: Option<seq<Hit>>,
                               seeds: seq<Hit>, groups: seq<seq<Hit>>, results: seq<Hit>) {
    && SeedsFor(opts, vector, text, seeds)
    && Expansion.Waves(store, opts.expandDirection, opts.expandEdgeTypes,
                       if opts.expandDepth > 0 then opts.expandDepth else 1, seeds, groups)
    && Ranked(store, opts, seeds + Expansion.Flatten(groups), results)
    && DistinctHits(seeds) && DistinctHits(seeds + Expansion.Flatten(groups))
  }

  /** What the vector phase may find. */
  ghost predicate VectorPhase(query: Similarity.Query, opts: HybridOptions, around: VectorSearch.Surroundings,
                              store: Store, vector: seq<Hit>) {
    exists kept :: VectorSearch.Answers(query, opts.vector, around, store.entries, kept, vector)
  }

  /** What the text phase may find, if text search is on and the backend has an index; it goes
      without a threshold. */
  ghost predicate TextPhase(index: Option<TextSearch.TextQuery>, opts: HybridOptions,
                            around: VectorSearch.Surroundings, store: Store, text: Option<seq<Hit>>) {
    && (text.Some? <==> opts.textSearch && index.Some?)
    && (text.Some? ==> exists kept, hits ::
          && TextSearch.TextAnswers(index.value, opts.vector.(threshold := 0.0), around, store.entries, kept, hits)
          && text.value == EnrichAll(store, hits))
  }

  /** `index` is the full-text index if the backend has one; `embedded` says whether the query
      text could be embedded. */
  method SearchHybrid(store: Store, query: Similarity.Query, index: Option<TextSearch.TextQuery>, opts: HybridOptions,
                      around: VectorSearch.Surroundings, embedded: bool)
    returns (r: Outcome<seq<Hit>>)
    requires store.Valid() && query.scope == opts.vector.scope
    requires index.Some? ==> index.value.scope == opts.vector.scope
    ensures r.Ok? <==> opts.vector.text != "" && opts.vector.scope != "" && embedded && query.vector != []
    ensures r.Ok? ==> exists vector, text, seeds, groups ::
      && VectorPhase(query, opts, around, store, vector) && TextPhase(index, opts, around, store, text)
      && HybridAnswer(store, opts, vector, text, seeds, groups, r.value)
  {
    hide Fusion.FusionOf, Ranked, Expansion.Waves, SeedsFor, DistinctHits, Cut, HybridAnswer, VectorSearch.Answers,
         TextSearch.TextAnswers;
    var found := VectorSearch.SearchVector(query, opts.vector, around, store.entries, embedded);
    if found.Err? {
      return Err(found.error);
    }
    ghost var vector := found.value;
    PhaseIsDistinct(query, opts, around, store, vector);
    var vectorResults := found.value;
    ghost var text: Option<seq<Hit>> := None;
    if opts.textSearch {
      var textResults := TextSearch.SearchText(index, opts.vector.(threshold := 0.0), around, store);
      if textResults.Ok? {
        text := Some(textResults.value);
        if |textResults.value| > 0 {
          vectorResults := Fusion.FuseByRRF(vectorResults, textResults.value, opts.RrfK());
        }
      }
      FusedSeeds(opts, vector, text, vectorResults);
      vectorResults := Cut(vectorResults, opts.vector.limit);
    } else {
      VectorSeeds(opts, vector, text);
    }
    assert TextPhase(index, opts, around, store, text);
    var allResults := Expansion.ExpandAll(store, vectorResults, EffectiveDepth(opts.expandDepth, 1),
                                          opts.expandDirection, opts.expandEdgeTypes);
    var results := Rank(store, opts, allResults);
    ghost var groups :|
      && Expansion.Waves(store, opts.expandDirection, opts.expandEdgeTypes, EffectiveDepth(opts.expandDepth, 1),
                         vectorResults, groups)
      && allResults == vectorResults + Expansion.Flatten(groups);
    Answered(store, opts, vector, text, vectorResults, groups, results);
    return Ok(results);
  }

  lemma PhaseIsDistinct(query: Similarity.Query, opts: HybridOptions, around: VectorSearch.Surroundings,
                        store: Store, vector: seq<Hit>)
    requires store.Valid() && VectorPhase(query, opts, around, store, vector)
    ensures DistinctHits(vector)
  {
    var kept :| VectorSearch.Answers(query, opts.vector, around, store.entries, kept, vector);
    VectorSearch.AnswersAreClean(query, opts.vector, around, store.entries, kept, vector);
  }

  lemma VectorSeeds(opts: HybridOptions, vector: seq<Hit>, text: Option<seq<Hit>>)
    requires !opts.textSearch && DistinctHits(vector)
    ensures SeedsFor(opts, vector, text, vector)
  {
  }

  lemma FusedSeeds(opts: HybridOptions, vector: seq<Hit>, text: Option<seq<Hit>>, fused: seq<Hit>)
    requires opts.textSearch && DistinctHits(vector)
    requires if text.None? || text.value == [] then fused == vector
             else Fusion.FusionOf(fused, vector, text.value, opts.RrfK())
    ensures SeedsFor(opts, vector, text, Cut(fused, opts.vector.limit))
    ensures DistinctHits(Cut(fused, opts.vector.limit))
  {
  }

  lemma Answered(store: Store, opts: HybridOptions, vector: seq<Hit>, text: Option<seq<Hit>>,
                 seeds: seq<Hit>, groups: seq<seq<Hit>>, results: seq<Hit>)
    requires SeedsFor(opts, vector, text, seeds) && DistinctHits(seeds)
    requires Expansion.Waves(store, opts.expandDirection, opts.expandEdgeTypes, EffectiveDepth(opts.expandDepth, 1),
                             seeds, groups)
    requires Ranked(store, opts, seeds + Expansion.Flatten(groups), results)
    ensures HybridAnswer(store, opts, vector, text, seeds, groups, results)
  {
    hide SeedsFor, Ranked, DistinctHits, Expansion.Flatten;
    Expansion.WavesAreDistinct(store, opts.expandDirection, opts.expandEdgeTypes, EffectiveDepth(opts.expandDepth, 1),
                               seeds, groups, |groups|);
    assert groups[..|groups|] == groups;
  }

  // What the ranking guarantees.

  /** The candidate as the ranking sees it. */
  function Judged(store: Store, opts: HybridOptions, c: Hit): Hit {
    if opts.includeSuperseded then Enriched(store, c) else Demoted(Enriched(store, c))
  }

  ghost predicate Judges(store: Store, opts: HybridOptions, candidates: seq<Hit>, full: seq<Hit>) {
    && Descending(full)
    && |full| == |candidates|
    && (forall h :: h in full ==> exists c :: c in candidates && h == Judged(store, opts, c))
    && (forall c :: c in candidates ==> Judged(store, opts, c) in full)
    && (DistinctHits(candidates) ==> DistinctHits(full))
  }

  lemma JudgedEntry(store: Store, opts: HybridOptions, c: Hit)
    ensures Judged(store, opts, c).entry == c.entry
  {
    EnrichedAndDemoted(store, c);
    EnrichedAndDemoted(store, Enriched(store, c));
  }

  lemma EnrichedAndDemoted(store: Store, h: Hit)
    ensures Enriched(store, h).entry == h.entry && Enriched(store, h).score == h.score
    ensures Demoted(h).entry == h.entry
  {
  }

  function JudgeAll(store: Store, opts: HybridOptions, hits: seq<Hit>): (r: seq<Hit>)
    ensures |r| == |hits|
  {
    seq(|hits|, i requires 0 <= i < |hits| => Judged(store, opts, hits[i]))
  }

  lemma EnrichDemoteIsJudge(store: Store, opts: HybridOptions, raw: seq<Hit>)
    ensures JudgeAll(store, opts, raw) ==
      if opts.includeSuperseded then EnrichAll(store, raw) else DemoteAll(EnrichAll(store, raw))
  {
    hide Enriched, Demoted;
  }

  lemma JudgingKeepsEntries(store: Store, opts: HybridOptions, hits: seq<Hit>)
    ensures forall i :: 0 <= i < |hits| ==> JudgeAll(store, opts, hits)[i].entry == hits[i].entry
    ensures DistinctHits(hits) ==> DistinctHits(JudgeAll(store, opts, hits))
    ensures opts.includeSuperseded && Descending(hits) ==> Descending(JudgeAll(store, opts, hits))
  {
    hide Enriched, Demoted;
    forall i | 0 <= i < |hits|
      ensures JudgeAll(store, opts, hits)[i].entry == hits[i].entry
      ensures opts.includeSuperseded ==> JudgeAll(store, opts, hits)[i].score == hits[i].score
    {
      EnrichedAndDemoted(store, hits[i]);
      EnrichedAndDemoted(store, Enriched(store, hits[i]));
    }
  }

  lemma JudgedMembers(store: Store, opts: HybridOptions, hits: seq<Hit>)
    ensures forall c :: c in hits ==> Judged(store, opts, c) in JudgeAll(store, opts, hits)
    ensures forall h :: h in JudgeAll(store, opts, hits) ==> exists c :: c in hits && h == Judged(store, opts, c)
  {
    hide Judged;
    forall c | c in hits
      ensures Judged(store, opts, c) in JudgeAll(store, opts, hits)
    {
      var i :| 0 <= i < |hits| && hits[i] == c;
      assert JudgeAll(store, opts, hits)[i] == Judged(store, opts, c);
    }
  }

  /** The ordered list before the cut holds every candidate's judged form, once. */
  lemma FullListJudges(store: Store, opts: HybridOptions, candidates: seq<Hit>, raw: seq<Hit>, full: seq<Hit>)
    requires StableSortOf(raw, candidates)
    requires FinalOrder(opts.includeSuperseded, EnrichAll(store, raw), full)
    ensures Judges(store, opts, candidates, full)
  {
    hide Judged, EnrichAll, DemoteAll, JudgeAll, SameTies, HasHit, DistinctHits, Descending;
    var judged := JudgeAll(store, opts, raw);
    EnrichDemoteIsJudge(store, opts, raw);
    JudgingKeepsEntries(store, opts, raw);
    JudgedMembers(store, opts, raw);
    StableSortIsPermutation(raw, candidates);
    PermutationKeepsHits(candidates, raw);
    Sorting.SameMembers(candidates, raw);
    if !opts.includeSuperseded {
      StableSortIsPermutation(full, judged);
    }
    PermutationKeepsHits(judged, full);
    Sorting.SameMembers(judged, full);
  }

  /** The results come best first, each candidate at most once, as many as allowed, and
      no candidate left out scores strictly more than one returned. */
  lemma BestAreReturned(store: Store, opts: HybridOptions, candidates: seq<Hit>, results: seq<Hit>)
    requires Ranked(store, opts, candidates, results) && DistinctHits(candidates)
    ensures Descending(results) && DistinctHits(results)
    ensures |results| == if 0 < opts.totalLimit < |candidates| then opts.totalLimit else |candidates|
    ensures forall h :: h in results ==> exists c :: c in candidates && h == Judged(store, opts, c)
    ensures forall c, h :: c in candidates && !HasHit(results, c.entry.id) && h in results ==>
      Judged(store, opts, c).score <= h.score
  {
    hide Judged, EnrichAll, StableSortOf, FinalOrder;
    var raw, full :| StableSortOf(raw, candidates)
      && FinalOrder(opts.includeSuperseded, EnrichAll(store, raw), full)
      && results == Cut(full, opts.totalLimit);
    FullListJudges(store, opts, candidates, raw, full);
    assert forall h :: h in results ==> h in full;
    forall c, h | c in candidates && !HasHit(results, c.entry.id) && h in results
      ensures Judged(store, opts, c).score <= h.score
    {
      var j := Judged(store, opts, c);
      JudgedEntry(store, opts, c);
      var p :| 0 <= p < |full| && full[p] == j;
      var q :| 0 <= q < |results| && results[q] == h;
      assert forall k :: 0 <= k < |results| ==> results[k] in results && results[k].entry.id != c.entry.id;
    }
  }

  lemma DemotedScores(store: Store, opts: HybridOptions, a: Hit, b: Hit)
    requires !opts.includeSuperseded && Enriched(store, a).isSuperseded && !Enriched(store, b).isSuperseded
    ensures Judged(store, opts, a).score == a.score * 0.1
    ensures Judged(store, opts, b).score == b.score
  {
  }

  /** The result for a candidate is its judged form. */
  lemma ResultIsJudged(store: Store, opts: HybridOptions, candidates: seq<Hit>, results: seq<Hit>, c: Hit, i: nat)
    requires Ranked(store, opts, candidates, results) && DistinctHits(candidates)
    requires c in candidates && i < |results| && results[i].entry.id == c.entry.id
    ensures results[i] == Judged(store, opts, c)
  {
    hide Judged, Ranked, HasHit;
    BestAreReturned(store, opts, candidates, results);
    assert results[i] in results;
    var c' :| c' in candidates && results[i] == Judged(store, opts, c');
    JudgedEntry(store, opts, c');
    assert c' == c;
  }

  lemma JudgedInOrder(store: Store, opts: HybridOptions, candidates: seq<Hit>, results: seq<Hit>,
                      p: nat, q: nat, i: nat, j: nat)
    requires Ranked(store, opts, candidates, results) && DistinctHits(candidates) && !opts.includeSuperseded
    requires p < |candidates| && q < |candidates| && p != q && i < |results| && j < |results|
    requires results[i] == Judged(store, opts, candidates[p]) && results[j] == Judged(store, opts, candidates[q])
    ensures i < j <==>
      || results[i].score > results[j].score
      || (results[i].score == results[j].score &&
           (candidates[p].score > candidates[q].score || (candidates[p].score == candidates[q].score && p < q)))
  {
    hide Judged, EnrichAll, DemoteAll, StableSortOf, DistinctHits, HasHit;
    var raw, full :| StableSortOf(raw, candidates)
      && FinalOrder(opts.includeSuperseded, EnrichAll(store, raw), full)
      && results == Cut(full, opts.totalLimit);
    var judged := JudgeAll(store, opts, raw);
    EnrichDemoteIsJudge(store, opts, raw);
    RawIsPermutation(raw, candidates);
    JudgingKeepsEntries(store, opts, raw);
    DistinctDoNotRepeat(candidates);
    DistinctDoNotRepeat(judged);
    assert candidates[p] in candidates && candidates[q] in candidates;
    var u :| 0 <= u < |raw| && raw[u] == candidates[p];
    var v :| 0 <= v < |raw| && raw[v] == candidates[q];
    StableOrder(raw, candidates, p, q, u, v);
    StableOrder(full, judged, u, v, i, j);
  }

  lemma RawIsPermutation(raw: seq<Hit>, candidates: seq<Hit>)
    requires StableSortOf(raw, candidates)
    ensures forall c :: c in candidates ==> c in raw
    ensures DistinctHits(candidates) ==> DistinctHits(raw)
  {
    hide SameTies;
    StableSortIsPermutation(raw, candidates);
    PermutationKeepsHits(candidates, raw);
    Sorting.SameMembers(candidates, raw);
  }

  lemma DistinctDoNotRepeat(hits: seq<Hit>)
    requires DistinctHits(hits)
    ensures Sorting.NoRepeats(hits)
  {
  }

  /** The raw score with which a superseded candidate comes before one that is not. */
  predicate Outranks(a: Hit, b: Hit, aIsEarlier: bool) {
    || a.score > 10.0 * b.score
    || (a.score == 10.0 * b.score && (b.score > 0.0 || (b.score == 0.0 && aIsEarlier)))
  }

  /** Demotion does not push a superseded entry below every other: it comes before one that was
      not superseded exactly when its raw score is more than ten times the other's, or just ten
      times a positive one, or both are zero and it was the earlier candidate. */
  lemma SupersededLeadsExactlyWhen(store: Store, opts: HybridOptions, candidates: seq<Hit>, results: seq<Hit>,
                                   p: nat, q: nat, i: nat, j: nat)
    requires Ranked(store, opts, candidates, results) && DistinctHits(candidates) && !opts.includeSuperseded
    requires p < |candidates| && q < |candidates| && i < |results| && j < |results|
    requires results[i].entry.id == candidates[p].entry.id && results[j].entry.id == candidates[q].entry.id
    requires Enriched(store, candidates[p]).isSuperseded && !Enriched(store, candidates[q]).isSuperseded
    ensures i < j <==> Outranks(candidates[p], candidates[q], p < q)
  {
    hide Judged, Ranked, Enriched, DistinctHits;
    ResultIsJudged(store, opts, candidates, results, candidates[p], i);
    ResultIsJudged(store, opts, candidates, results, candidates[q], j);
    DemotedScores(store, opts, candidates[p], candidates[q]);
    JudgedInOrder(store, opts, candidates, results, p, q, i, j);
  }

  /** For instance an entry that scores 1.0 comes before its own correction that scores 0.1. */
  lemma CorrectionIsOutranked(opts: HybridOptions, stale: Entry, correction: Entry)
      returns (store: Store, candidates: seq<Hit>, results: seq<Hit>)
    requires !opts.includeSuperseded && opts.totalLimit <= 0 && stale.id != correction.id
    ensures store.Valid() && store.edges == [Edge(1, correction.id, stale.id, SUPERSEDES, None)]
    ensures candidates == [Hit(correction, 0.1, Direct, 0, [], false, []), Hit(stale, 1.0, Direct, 0, [], false, [])]
    ensures Ranked(store, opts, candidates, results) && |results| == 2
    ensures results[0].entry == stale && results[1].entry == correction
  {
    hide Ranked, Judged;
    store := Store(map[stale.id := stale, correction.id := correction],
                   [Edge(1, correction.id, stale.id, SUPERSEDES, None)]);
    var a, b := Hit(stale, 1.0, Direct, 0, [], false, []), Hit(correction, 0.1, Direct, 0, [], false, []);
    candidates := [b, a];
    results := RankingExists(store, opts, candidates);
    BestAreReturned(store, opts, candidates, results);
    EnrichmentIsExact(store, a);
    EnrichmentIsExact(store, b);
    forall k | 0 <= k < 2
      ensures results[k] == Judged(store, opts, a) || results[k] == Judged(store, opts, b)
      ensures results[k].entry in {stale, correction}
    {
      assert results[k] in results;
      JudgedEntry(store, opts, a);
      JudgedEntry(store, opts, b);
    }
    if results[0].entry == correction {
      SupersededLeadsExactlyWhen(store, opts, candidates, results, 1, 0, 1, 0);
    }
  }

  lemma RankingExists(store: Store, opts: HybridOptions, candidates: seq<Hit>) returns (results: seq<Hit>)
    ensures Ranked(store, opts, candidates, results)
  {
    hide StableSortOf;
    var raw := StableSortExists(candidates);
    var enriched := EnrichAll(store, raw);
    var full := enriched;
    if !opts.includeSuperseded {
      full := StableSortExists(DemoteAll(enriched));
    }
    results := Cut(full, opts.totalLimit);
    assert FinalOrder(opts.includeSuperseded, enriched, full);
  }

  // From the query to the results.

  /** Freshness is a share. */
  ghost predicate SharesFreshness(around: VectorSearch.Surroundings) {
    forall e :: 0.0 <= around.freshness(e) <= 1.0
  }

  lemma VectorScoresAreShares(query: Similarity.Query, opts: HybridOptions, around: VectorSearch.Surroundings,
                              store: Store, vector: seq<Hit>, h: Hit)
    requires VectorPhase(query, opts, around, store, vector) && SharesFreshness(around) && h in vector
    ensures 0.0 <= h.score <= 1.0
  {
    var kept :| VectorSearch.Answers(query, opts.vector, around, store.entries, kept, vector);
    VectorSearch.ScoresAreShares(query, opts.vector, around, store.entries, kept, vector, h);
  }

  lemma SeedScoresAreNonNegative(query: Similarity.Query, opts: HybridOptions, around: VectorSearch.Surroundings,
                                 store: Store, vector: seq<Hit>, text: Option<seq<Hit>>, seeds: seq<Hit>, h: Hit)
    requires VectorPhase(query, opts, around, store, vector) && SharesFreshness(around)
    requires SeedsFor(opts, vector, text, seeds) && h in seeds
    ensures h.score >= 0.0
  {
    hide VectorPhase, Fusion.FusionOf;
    if opts.textSearch && text.Some? && text.value != [] {
      var fused :| Fusion.FusionOf(fused, vector, text.value, opts.RrfK()) && seeds == Cut(fused, opts.vector.limit);
      Fusion.FusedScorePositive(fused, vector, text.value, opts.RrfK(), h);
    } else {
      VectorScoresAreShares(query, opts, around, store, vector, h);
    }
  }

  /** Without a requested constant a fused seed has 1/61 for a first place, 1/62 for a second,
      and so on, for each list it is in. */
  lemma DefaultFusedScore(opts: HybridOptions, vector: seq<Hit>, text: seq<Hit>, seeds: seq<Hit>, h: Hit,
                          v: nat, t: nat)
    requires opts.textSearch && opts.rrfk <= 0 && text != [] && SeedsFor(opts, vector, Some(text), seeds) && h in seeds
    requires DistinctHits(vector) && DistinctHits(text)
    requires if v < |vector| then vector[v].entry.id == h.entry.id else !HasHit(vector, h.entry.id)
    requires if t < |text| then text[t].entry.id == h.entry.id else !HasHit(text, h.entry.id)
    ensures h.score == (if v < |vector| then 1.0 / (61 + v) as real else 0.0) +
                       (if t < |text| then 1.0 / (61 + t) as real else 0.0)
  {
    hide Fusion.FusionOf, DistinctHits, HasHit;
    var fused :| Fusion.FusionOf(fused, vector, text, 60) && seeds == Cut(fused, opts.vector.limit);
    Fusion.FusedScoreAtRanks(fused, vector, text, 60, h, v, t);
  }

  /** A candidate: a seed with a score that is not negative, or an entry some walks away from
      one, with at most 0.8 of its score per step. */
  ghost predicate Sourced(store: Store, opts: HybridOptions, seeds: seq<Hit>, c: Hit) {
    && c.score >= 0.0
    && (c in seeds || exists seed ::
          && seed in seeds
          && Expansion.FromSeed(store, opts.expandDirection, opts.expandEdgeTypes,
                                EffectiveDepth(opts.expandDepth, 1), seed, c)
          && c.score <= Pow(0.8, c.depth) * seed.score)
  }

  /** From a query to its results, with weights and freshness between 0 and 1: the entries are
      distinct and the best come first, as many as allowed, and each is the judged form of a
      seed or of an entry that a seed leads to, which has at most 0.8 of its score per step. */
  lemma HybridIsSound(store: Store, query: Similarity.Query, opts: HybridOptions, around: VectorSearch.Surroundings,
                      vector: seq<Hit>, text: Option<seq<Hit>>, seeds: seq<Hit>, groups: seq<seq<Hit>>,
                      results: seq<Hit>)
    requires store.Valid() && UnitWeightsOf(store) && SharesFreshness(around)
    requires VectorPhase(query, opts, around, store, vector)
    requires HybridAnswer(store, opts, vector, text, seeds, groups, results)
    ensures DistinctHits(results) && Descending(results)
    ensures opts.totalLimit > 0 ==> |results| <= opts.totalLimit
    ensures forall r :: r in results ==> exists c :: r == Judged(store, opts, c) && Sourced(store, opts, seeds, c)
  {
    hide VectorPhase, SeedsFor, Ranked, Judged, DistinctHits, Expansion.Flatten, Expansion.FromSeed, Pow;
    var candidates := seeds + Expansion.Flatten(groups);
    BestAreReturned(store, opts, candidates, results);
    forall r | r in results
      ensures exists c :: r == Judged(store, opts, c) && Sourced(store, opts, seeds, c)
    {
      var c :| c in candidates && r == Judged(store, opts, c);
      CandidateIsSourced(store, query, opts, around, vector, text, seeds, groups, c);
    }
  }

  ghost predicate UnitWeightsOf(store: Store) {
    Expansion.UnitWeights(store.edges)
  }

  lemma CandidateIsSourced(store: Store, query: Similarity.Query, opts: HybridOptions,
                           around: VectorSearch.Surroundings, vector: seq<Hit>, text: Option<seq<Hit>>,
                           seeds: seq<Hit>, groups: seq<seq<Hit>>, c: Hit)
    requires UnitWeightsOf(store) && SharesFreshness(around) && VectorPhase(query, opts, around, store, vector)
    requires SeedsFor(opts, vector, text, seeds)
    requires Expansion.Waves(store, opts.expandDirection, opts.expandEdgeTypes, EffectiveDepth(opts.expandDepth, 1),
                             seeds, groups)
    requires c in seeds + Expansion.Flatten(groups)
    ensures Sourced(store, opts, seeds, c)
  {
    hide VectorPhase, SeedsFor, Pow, UnitWeightsOf, Sourced, SharesFreshness, Expansion.Wave, Expansion.FromSeed;
    if c in seeds {
      SeedScoresAreNonNegative(query, opts, around, store, vector, text, seeds, c);
      SeedIsSourced(store, opts, seeds, c);
    } else {
      var depth := EffectiveDepth(opts.expandDepth, 1);
      var i := Expansion.FlattenFinds(groups, c);
      var seed := seeds[i];
      SeedScoresAreNonNegative(query, opts, around, store, vector, text, seeds, seed);
      Expansion.WaveIsFromSeed(store, opts.expandDirection, opts.expandEdgeTypes, depth, seed,
                               Expansion.Taken(seeds, groups, i), groups[i], c);
      ExpandedIsSourced(store, opts, seeds, seed, c);
    }
  }

  lemma SeedIsSourced(store: Store, opts: HybridOptions, seeds: seq<Hit>, c: Hit)
    requires c in seeds && c.score >= 0.0
    ensures Sourced(store, opts, seeds, c)
  {
  }

  lemma ExpandedIsSourced(store: Store, opts: HybridOptions, seeds: seq<Hit>, seed: Hit, c: Hit)
    requires UnitWeightsOf(store) && seed in seeds && seed.score >= 0.0
    requires Expansion.FromSeed(store, opts.expandDirection, opts.expandEdgeTypes,
                                EffectiveDepth(opts.expandDepth, 1), seed, c)
    ensures Sourced(store, opts, seeds, c)
  {
    hide Expansion.FromSeed, Pow, Expansion.UnitWeights;
    Expansion.ExpansionDecays(store, opts.expandDirection, opts.expandEdgeTypes,
                              EffectiveDepth(opts.expandDepth, 1), seed, c);
  }
}
