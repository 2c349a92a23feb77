/** Full-text search (`storage/sqlite/entry.go`, `query/text.go`). What the full-text index answers
    is a parameter: which entries match the text, and with what rank, where lower is better. */
module TextSearch {
  import opened Enrichment
  import opened Model
  import opened Similarity
  import opened Sorting
  import opened TopK
  import opened VectorSearch
  import EntryStore
  import Like
  import StableSort
  import V = Vectors

  datatype TextQuery = TextQuery(scope: string, now: int, ranks: map<ID, real>) {

    /** The join and the `WHERE` clause. */
    predicate Finds(id: ID, entry: Entry): (found: bool)
      ensures found ==> id in ranks
    {
      id in ranks && !EntryStore.Expired(entry, now) && InScope(scope, entry.scope)
    }

    ghost function Candidates(table: Table): set<Candidate> {
      CandidatesBut(table, {})
    }

    ghost function CandidatesBut(table: Table, left: set<ID>): set<Candidate> {
      set id | id in table && id !in left && Finds(id, table[id]) :: Candidate(id, ranks[id])
    }

    ghost function Matches(table: Table): set<Match> {
      set id | id in table && Finds(id, table[id]) :: Match(table[id], ranks[id])
    }
  }

  /** `ORDER BY rank, id`. */
  function FirstByRank(): (Candidate, Candidate) -> bool {
    (a: Candidate, b: Candidate) => a.distance < b.distance || (a.distance == b.distance && a.id < b.id)
  }

  function ByRank(): (Match, Match) -> bool {
    (a: Match, b: Match) => a.distance < b.distance || (a.distance == b.distance && a.entry.id < b.entry.id)
  }

  /** The first pass: IDs and ranks of the best matches, best first. */
  method Rank(query: TextQuery, table: Table, limit: nat) returns (ranked: seq<Candidate>)
    requires KeyedById(table)
    ensures NoRepeats(ranked) && IsTop(query.Candidates(table), limit, FirstByRank(), Members(ranked))
    ensures DistinctIds(Members(ranked))
  {
    hide IsTop, InOrder, NoRepeats, Members, TextQuery.Finds, TextQuery.CandidatesBut;
    var candidates: seq<Candidate> := [];
    var ids := table.Keys;
    NoneYet(query, table);
    while ids != {}
      invariant ids <= table.Keys
      invariant NoRepeats(candidates) && Members(candidates) == query.CandidatesBut(table, ids)
      decreases ids
    {
      var id :| id in ids;
      NextRow(query, table, ids, id);
      ids := ids - {id};
      if query.Finds(id, table[id]) {
        MembersSnoc(candidates, Candidate(id, query.ranks[id]));
        candidates := candidates + [Candidate(id, query.ranks[id])];
      }
    }
    assert Members(candidates) == query.Candidates(table);
    var sorted := SortSlice(candidates, FirstByRank());
    Permuted(candidates, sorted);
    FrontIsTop(sorted, limit, FirstByRank());
    ranked := sorted[..Min(limit, |sorted|)];
    FrontHasNoRepeats(sorted, Min(limit, |sorted|));
    RankedIdsAreDistinct(query, table, limit, Members(ranked));
  }

  lemma NoneYet(query: TextQuery, table: Table)
    ensures NoRepeats<Candidate>([]) && Members<Candidate>([]) == query.CandidatesBut(table, table.Keys)
  {
  }

  lemma NextRow(query: TextQuery, table: Table, left: set<ID>, id: ID)
    requires KeyedById(table) && left <= table.Keys && id in left
    ensures query.CandidatesBut(table, left - {id}) ==
      if query.Finds(id, table[id])
      then query.CandidatesBut(table, left) + {Candidate(id, query.ranks[id])}
      else query.CandidatesBut(table, left)
    ensures forall d :: Candidate(id, d) !in query.CandidatesBut(table, left)
  {
    hide TextQuery.Finds;
  }

  lemma RankedIdsAreDistinct(query: TextQuery, table: Table, limit: nat, winners: set<Candidate>)
    requires IsTop(query.Candidates(table), limit, FirstByRank(), winners)
    ensures DistinctIds(winners)
  {
    hide TextQuery.Finds;
  }

  /** Two reads, as in the search by similarity. When nothing was written in between, the answer
      is the best of all live matches in scope, best first. */
  method SearchIndex(query: TextQuery, scanned: Table, fetched: Table, limit: int) returns (results: seq<Match>)
    requires KeyedById(scanned) && KeyedById(fetched)
    ensures NoRepeats(results) && InOrder(results, ByRank())
    ensures forall i, j :: 0 <= i < j < |results| ==> results[i].distance <= results[j].distance
    ensures exists winners ::
      && IsTop(query.Candidates(scanned), Limit(limit), FirstByRank(), winners)
      && Members(results) == Fetched(winners, fetched)
    ensures fetched == scanned ==> IsTop(query.Matches(scanned), Limit(limit), ByRank(), Members(results))
  {
    hide IsTop, InOrder, TextQuery.Matches, TextQuery.Candidates;
    var ranked := Rank(query, scanned, Limit(limit));
    if fetched == scanned {
      RankedAreBest(query, scanned, Limit(limit), Members(ranked));
    }
    var rows := Fetch(ranked, fetched);
    results := SortSlice(rows, ByRank());
    SameMembers(results, rows);
    PermutationKeepsNoRepeats(rows, results);
    assert Members(results) == Members(rows);
    BestFirst(results);
  }

  lemma BestFirst(results: seq<Match>)
    requires InOrder(results, ByRank())
    ensures forall i, j :: 0 <= i < j < |results| ==> results[i].distance <= results[j].distance
  {
    forall i, j | 0 <= i < j < |results|
      ensures results[i].distance <= results[j].distance
    {
      assert !ByRank()(results[j], results[i]);
    }
  }

  lemma RankedAreBest(query: TextQuery, table: Table, limit: nat, winners: set<Candidate>)
    requires KeyedById(table) && IsTop(query.Candidates(table), limit, FirstByRank(), winners)
    ensures IsTop(query.Matches(table), limit, ByRank(), Fetched(winners, table))
  {
    hide TextQuery.Finds;
    var row := (c: Candidate) => if c.id in table then Match(table[c.id], c.distance) else Match(EMPTY_ENTRY, 0.0);
    var all := query.Candidates(table);
    ImageIsTop(all, limit, FirstByRank(), winners, row, ByRank());
    assert Image(winners, row) == Fetched(winners, table);
    assert Image(all, row) == query.Matches(table) by {
      forall m | m in query.Matches(table)
        ensures m in Image(all, row)
      {
        var id :| id in table && query.Finds(id, table[id]) && m == Match(table[id], query.ranks[id]);
        assert row(Candidate(id, query.ranks[id])) == m;
      }
    }
  }

  lemma MatchesMean(query: TextQuery, table: Table)
    requires KeyedById(table)
    ensures forall m :: m in query.Matches(table) ==>
      && m.entry.id in table && m.entry == table[m.entry.id]
      && query.Finds(m.entry.id, m.entry) && m.distance == query.ranks[m.entry.id]
    ensures forall id :: id in table && query.Finds(id, table[id]) ==>
      Match(table[id], query.ranks[id]) in query.Matches(table)
  {
  }

  /** The best matches in plain words: live entries in scope that the index matches, with their
      ranks, and when some are left out, as many as asked for and none of them behind one left
      out by rank and ID. */
  lemma BestMeans(query: TextQuery, table: Table, limit: int, found: set<Match>)
    requires KeyedById(table) && IsTop(query.Matches(table), Limit(limit), ByRank(), found)
    ensures forall m :: m in found ==>
      && m.entry.id in table && m.entry == table[m.entry.id]
      && m.entry.id in query.ranks && m.distance == query.ranks[m.entry.id]
      && (m.entry.expiresAt.Some? ==> m.entry.expiresAt.value > query.now)
      && (query.scope == "" || m.entry.scope == query.scope ||
            Like.Matches(query.scope + ".%", m.entry.scope))
    ensures forall id :: id in table && id in query.ranks ==>
      var e := table[id];
      && (e.expiresAt.Some? ==> e.expiresAt.value > query.now)
      && (query.scope == "" || e.scope == query.scope || Like.Matches(query.scope + ".%", e.scope))
      && (forall m :: m in found ==> m.entry.id != id) ==>
        && |found| == (if limit > 0 then limit else 10)
        && forall m :: m in found ==>
             m.distance < query.ranks[id] || (m.distance == query.ranks[id] && m.entry.id < id)
    ensures |found| <= if limit > 0 then limit else 10
  {
    hide Like.Matches, IsTop, TextQuery.Matches;
    MatchesMean(query, table);
    TopIsOf(query.Matches(table), Limit(limit), found);
    forall id | id in table && query.Finds(id, table[id]) && forall m :: m in found ==> m.entry.id != id
      ensures |found| == Limit(limit)
      ensures forall m :: m in found ==>
        m.distance < query.ranks[id] || (m.distance == query.ranks[id] && m.entry.id < id)
    {
      LeftOut(query.Matches(table), Limit(limit), found, Match(table[id], query.ranks[id]));
    }
  }

  lemma TopIsOf(all: set<Match>, k: nat, top: set<Match>)
    requires IsTop(all, k, ByRank(), top)
    ensures top <= all && |top| <= k
  {
  }

  lemma LeftOut(all: set<Match>, k: nat, top: set<Match>, left: Match)
    requires IsTop(all, k, ByRank(), top) && left in all && forall m :: m in top ==> m.entry.id != left.entry.id
    ensures |top| == k
    ensures forall m :: m in top ==>
      m.distance < left.distance || (m.distance == left.distance && m.entry.id < left.entry.id)
  {
    SubsetSize(top, all);
    forall m | m in top
      ensures m.distance < left.distance || (m.distance == left.distance && m.entry.id < left.entry.id)
    {
      assert !ByRank()(left, m);
    }
  }

  // Scores.

  /** `bm25ToScore`. */
  function TextScore(rank: real): real {
    if rank >= 0.0 then 0.0 else 1.0 / (1.0 - rank)
  }

  function TextScoreOf(m: Match, opts: VectorOptions, around: Surroundings): real {
    if opts.recencyWeight > 0.0
    then BlendScore(TextScore(m.distance), around.freshness(m.entry), opts.recencyWeight)
    else TextScore(m.distance)
  }

  function TextScored(opts: VectorOptions, around: Surroundings): Match -> Hit {
    (m: Match) => Hit(m.entry, TextScoreOf(m, opts, around), Text, 0, [], false, [])
  }

  function TextPasses(opts: VectorOptions, around: Surroundings): Match -> bool {
    (m: Match) => opts.threshold <= 0.0 || TextScoreOf(m, opts, around) >= opts.threshold
  }

  ghost predicate TextAnswers(query: TextQuery, opts: VectorOptions, around: Surroundings, table: Table,
                              kept: seq<Match>, hits: seq<Hit>) {
    && NoRepeats(kept) && InOrder(kept, ByRank())
    && FromIndex(query, opts, around, table, Members(kept))
    && Delivered(opts, ScoreAll(kept, TextScored(opts, around)), hits)
  }

  ghost predicate FromIndex(query: TextQuery, opts: VectorOptions, around: Surroundings, table: Table,
                            kept: set<Match>) {
    exists fetched ::
      && IsTop(query.Matches(table), opts.FetchLimit(), ByRank(), fetched)
      && kept == Kept(fetched, VectorSearch.Both(NotExcluded(opts, around), TextPasses(opts, around)))
  }

  /** `index` is the full-text index, if the backend has one. */
  method SearchText(index: Option<TextQuery>, opts: VectorOptions, around: Surroundings, store: Store)
    returns (r: Outcome<seq<Hit>>)
    requires store.Valid() && (index.Some? ==> index.value.scope == opts.scope)
    ensures r.Ok? <==> opts.text != "" && opts.scope != "" && index.Some?
    ensures r.Ok? ==> exists kept, hits ::
      && TextAnswers(index.value, opts, around, store.entries, kept, hits)
      && r.value == EnrichAll(store, hits)
  {
    if opts.text == "" || opts.scope == "" || index.None? {
      return Err(EmptyQuery);
    }
    hide IsTop, InOrder, NoRepeats, Members, Kept, TextQuery.Matches, ShouldExclude, Delivered;
    var found := SearchIndex(index.value, store.entries, store.entries, opts.FetchLimit());
    var results, kept := Screen(found, TextScored(opts, around), NotExcluded(opts, around), TextPasses(opts, around),
                                ByRank());
    ghost var fetched := Members(found);
    assert FromIndex(index.value, opts, around, store.entries, Members(kept)) by {
      assert opts.FetchLimit() == Limit(opts.FetchLimit());
      assert IsTop(index.value.Matches(store.entries), opts.FetchLimit(), ByRank(), fetched);
    }
    var hits := Deliver(opts, results);
    var enriched := new Hit[|hits|](i requires 0 <= i < |hits| => hits[i]);
    assert enriched[..] == hits;
    EnrichSuperseded(store, enriched);
    assert TextAnswers(index.value, opts, around, store.entries, kept, hits);
    return Ok(enriched[..]);
  }

  // What the answer is worth.

  lemma ByRankIsTotal(query: TextQuery, table: Table)
    requires KeyedById(table)
    ensures TotalOn(query.Matches(table), ByRank())
  {
    hide TextQuery.Finds;
  }

  /** Unlike the search by similarity it leaves nothing open: rank and ID order the matches
      completely, so the same tables give the same answer. */
  lemma TextIsDetermined(query: TextQuery, opts: VectorOptions, around: Surroundings, table: Table,
                         kept: seq<Match>, hits: seq<Hit>, kept': seq<Match>, hits': seq<Hit>)
    requires KeyedById(table)
    requires TextAnswers(query, opts, around, table, kept, hits)
    requires TextAnswers(query, opts, around, table, kept', hits')
    ensures hits == hits'
  {
    hide TextQuery.Matches, IsTop, Kept, NoRepeats, InOrder, StableSort.StableSortOf, TotalOn, TextScoreOf;
    var keep := VectorSearch.Both(NotExcluded(opts, around), TextPasses(opts, around));
    var all, limit := query.Matches(table), opts.FetchLimit();
    var fetched :| IsTop(all, limit, ByRank(), fetched) && Members(kept) == Kept(fetched, keep);
    var fetched' :| IsTop(all, limit, ByRank(), fetched') && Members(kept') == Kept(fetched', keep);
    ByRankIsTotal(query, table);
    TopIsUnique(all, limit, ByRank(), fetched, fetched');
    KeptOfTop(all, limit, fetched, keep);
    ListIsUnique(all, kept, kept', ByRank());
    var scored := ScoreAll(kept, TextScored(opts, around));
    var full :| (if opts.recencyWeight > 0.0 then StableSort.StableSortOf(full, scored) else full == scored)
      && hits == full[..Min(opts.Limit(), |full|)];
    var full' :| (if opts.recencyWeight > 0.0 then StableSort.StableSortOf(full', scored) else full' == scored)
      && hits' == full'[..Min(opts.Limit(), |full'|)];
    if opts.recencyWeight > 0.0 {
      SameStableSort(scored, full, full');
    }
  }

  lemma KeptOfTop(all: set<Match>, k: nat, top: set<Match>, keep: Match -> bool)
    requires IsTop(all, k, ByRank(), top)
    ensures Kept(top, keep) <= all
  {
  }

  lemma SameStableSort(hits: seq<Hit>, s: seq<Hit>, t: seq<Hit>)
    requires StableSort.StableSortOf(s, hits) && StableSort.StableSortOf(t, hits)
    ensures s == t
  {
    assert StableSort.SameTies(s, t);
    StableSort.StableSortIsUnique(s, t);
  }

  /** Each entry at most once, and no more than asked for; so the fusion meets no repeated ID. */
  lemma TextAnswersAreClean(query: TextQuery, opts: VectorOptions, around: Surroundings, store: Store,
                            kept: seq<Match>, hits: seq<Hit>)
    requires store.Valid() && TextAnswers(query, opts, around, store.entries, kept, hits)
    ensures DistinctHits(EnrichAll(store, hits)) && |hits| == Min(if opts.limit > 0 then opts.limit else 10, |kept|)
    ensures forall h :: h in hits ==>
      && h.entry.id in store.entries && h.entry == store.entries[h.entry.id]
      && !ShouldExclude(h.entry.content, opts.excludeContent, around.lower)
      && (opts.threshold > 0.0 ==> h.score >= opts.threshold)
  {
    hide TextScoreOf, TextQuery.Finds, IsTop, FromIndex, Enriched, Delivered, ShouldExclude, InOrder, NoRepeats,
         DistinctHits;
    var scored := ScoreAll(kept, TextScored(opts, around));
    ScoredAreDistinct(query, opts, around, store.entries, kept);
    DeliveredAreScored(opts, scored, hits);
    forall h | h in hits
      ensures exists m :: m in Members(kept) && h == TextScored(opts, around)(m)
    {
      var i :| 0 <= i < |scored| && scored[i] == h;
      assert kept[i] in Members(kept);
    }
    EnrichingKeepsEntries(store, hits);
  }

  lemma ScoredAreDistinct(query: TextQuery, opts: VectorOptions, around: Surroundings, table: Table, kept: seq<Match>)
    requires KeyedById(table) && NoRepeats(kept) && FromIndex(query, opts, around, table, Members(kept))
    ensures DistinctHits(ScoreAll(kept, TextScored(opts, around)))
    ensures forall m :: m in Members(kept) ==>
      && m in query.Matches(table)
      && VectorSearch.Both(NotExcluded(opts, around), TextPasses(opts, around))(m)
      && m.entry.id in table && m.entry == table[m.entry.id]
  {
    hide TextScoreOf, TextQuery.Finds, ShouldExclude;
    var hits := ScoreAll(kept, TextScored(opts, around));
    forall i, j | 0 <= i < j < |hits|
      ensures hits[i].entry.id != hits[j].entry.id
    {
      assert kept[i] in Members(kept) && kept[j] in Members(kept);
    }
  }

  lemma Reciprocals(x: real, y: real)
    requires x > 0.0 && y > 0.0
    ensures x < y ==> 1.0 / x > 1.0 / y
  {
    if x < y {
      var p, q := 1.0 / x, 1.0 / y;
      assert p * x == 1.0 && q * y == 1.0;
      V.Sign(p, x);
      V.Sign(y - x, p);
      assert (y - x) * p == y * p - 1.0;
      assert y * p - q * y == (p - q) * y;
      V.Sign(p - q, y);
    }
  }

  /** The score is upside down: a better rank scores less. */
  lemma TextScoreIsInverted(a: real, b: real)
    requires a < 0.0 && b < 0.0
    ensures TextScore(a) < TextScore(b) <==> a < b
  {
    Reciprocals(1.0 - a, 1.0 - b);
    Reciprocals(1.0 - b, 1.0 - a);
  }

  /** So a threshold keeps exactly the matches that are weak enough. */
  lemma ThresholdKeepsTheWeak(m: Match, opts: VectorOptions, around: Surroundings)
    requires opts.recencyWeight <= 0.0 && opts.threshold > 0.0
    ensures TextPasses(opts, around)(m) <==> 1.0 - 1.0 / opts.threshold <= m.distance < 0.0
  {
    var t, x := opts.threshold, 1.0 - m.distance;
    var q := 1.0 / t;
    assert q * t == 1.0;
    if m.distance < 0.0 {
      var p := 1.0 / x;
      assert p * x == 1.0;
      assert (p - t) * x == (q - x) * t;
      V.Sign(p - t, x);
      V.Sign(q - x, t);
    }
  }

  /** And recency weighting turns the order of equally fresh matches around: the weaker of them
      comes first. */
  lemma RecencyTurnsAround(query: TextQuery, opts: VectorOptions, around: Surroundings, table: Table,
                           kept: seq<Match>, hits: seq<Hit>, i: nat, j: nat)
    requires TextAnswers(query, opts, around, table, kept, hits) && 0.0 < opts.recencyWeight < 1.0
    requires i < j < |hits| && around.freshness(hits[i].entry) == around.freshness(hits[j].entry)
    requires forall id :: id in query.ranks ==> query.ranks[id] < 0.0
    requires KeyedById(table)
    ensures hits[i].entry.id in query.ranks && hits[j].entry.id in query.ranks
    ensures query.ranks[hits[i].entry.id] >= query.ranks[hits[j].entry.id]
  {
    hide TextAnswers, TextScore, BlendScore;
    var u := MadeOfMatch(query, opts, around, table, kept, hits, i);
    var v := MadeOfMatch(query, opts, around, table, kept, hits, j);
    BlendOrders(TextScore(u.distance), TextScore(v.distance), around.freshness(hits[i].entry), opts.recencyWeight);
    TextScoreIsInverted(u.distance, v.distance);
  }

  lemma MadeOfMatch(query: TextQuery, opts: VectorOptions, around: Surroundings, table: Table,
                    kept: seq<Match>, hits: seq<Hit>, i: nat) returns (m: Match)
    requires TextAnswers(query, opts, around, table, kept, hits) && i < |hits|
    requires KeyedById(table)
    ensures hits[i] == TextScored(opts, around)(m)
    ensures m.entry.id in query.ranks && m.distance == query.ranks[m.entry.id]
    ensures opts.recencyWeight > 0.0 ==> StableSort.Descending(hits)
  {
    hide NoRepeats, InOrder, TextScoreOf, IsTop, Delivered, ShouldExclude, TextPasses;
    var scored := ScoreAll(kept, TextScored(opts, around));
    DeliveredAreScored(opts, scored, hits);
    assert hits[i] in hits;
    var u :| 0 <= u < |kept| && scored[u] == hits[i];
    m := kept[u];
    assert m in Members(kept);
    var fetched :| IsTop(query.Matches(table), opts.FetchLimit(), ByRank(), fetched) &&
      Members(kept) == Kept(fetched, VectorSearch.Both(NotExcluded(opts, around), TextPasses(opts, around)));
    TopIsOf(query.Matches(table), opts.FetchLimit(), fetched);
  }

  /** A match scores one over one more than how far its rank is below zero, and nothing if it is
      not, blended with its freshness. */
  lemma TextScores(query: TextQuery, opts: VectorOptions, around: Surroundings, table: Table,
                   kept: seq<Match>, hits: seq<Hit>, i: nat)
    requires TextAnswers(query, opts, around, table, kept, hits) && KeyedById(table) && i < |hits|
    ensures hits[i].entry.id in query.ranks
    ensures var rank := query.ranks[hits[i].entry.id];
      var score := Blend(if rank < 0.0 then 1.0 / (1.0 - rank) else 0.0, around.freshness(hits[i].entry),
                         opts.recencyWeight);
      hits[i] == Hit(hits[i].entry, score, Text, 0, [], false, [])
  {
    hide TextAnswers, Blend, BlendScore;
    var m := MadeOfMatch(query, opts, around, table, kept, hits, i);
    if opts.recencyWeight > 0.0 {
      BlendIs(TextScore(m.distance), around.freshness(m.entry), opts.recencyWeight);
    } else {
      NoBlend(TextScore(m.distance), around.freshness(m.entry), opts.recencyWeight);
    }
  }

  /** What is kept of the best matches: those that are not excluded and pass the threshold. */
  lemma KeptMeans(query: TextQuery, opts: VectorOptions, around: Surroundings, table: Table,
                  kept: seq<Match>, hits: seq<Hit>) returns (fetched: set<Match>)
    requires TextAnswers(query, opts, around, table, kept, hits)
    ensures var limit := if opts.limit > 0 then opts.limit else 10;
      IsTop(query.Matches(table), if opts.excludeContent == [] then limit else if limit < 10 then 30 else 3 * limit,
            ByRank(), fetched)
    ensures forall m :: m in kept <==>
      && m in fetched && !ShouldExclude(m.entry.content, opts.excludeContent, around.lower)
      && (opts.threshold > 0.0 ==> TextScoreOf(m, opts, around) >= opts.threshold)
  {
    hide ShouldExclude, TextScoreOf, IsTop, TextQuery.Matches, NoRepeats, InOrder, Delivered;
    fetched :| IsTop(query.Matches(table), opts.FetchLimit(), ByRank(), fetched) &&
      Members(kept) == Kept(fetched, VectorSearch.Both(NotExcluded(opts, around), TextPasses(opts, around)));
    forall m
      ensures m in kept <==> m in Kept(fetched, VectorSearch.Both(NotExcluded(opts, around), TextPasses(opts, around)))
    {
      assert m in kept <==> m in Members(kept);
    }
  }
}
