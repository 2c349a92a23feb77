/** Vector search with exclusions, recency weighting and a threshold (`query/vector.go`). */
module VectorSearch {
  import opened Model
  import opened Sorting
  import opened TopK
  import opened Similarity
  import StableSort
  import V = Vectors

  datatype VectorOptions = VectorOptions(
    text: string,
    scope: string,
    limit: int,
    threshold: real,
    excludeContent: seq<string>,
    recencyWeight: real)
  {
    function Limit(): nat {
      if limit <= 0 then 10 else limit
    }

    /** More than wanted when some of it may be excluded. */
    function FetchLimit(): nat {
      if excludeContent == [] then Limit()
      else if Limit() * 3 < 30 then 30
      else Limit() * 3
    }
  }

  /** What the search asks of its surroundings: case folding, and how fresh an entry is. */
  datatype Surroundings = Surroundings(lower: string -> string, freshness: Entry -> real)

  predicate Contains(s: string, part: string) {
    exists i :: 0 <= i <= |s| && part <= s[i..]
  }

  predicate ShouldExclude(content: string, excludes: seq<string>, lower: string -> string) {
    exists i :: 0 <= i < |excludes| && Contains(lower(content), lower(excludes[i]))
  }

  /** `distanceToScore`; a division by zero is positive infinity, which clamps to 1. */
  function DistanceToScore(distance: real, metric: V.Metric): real {
    match metric
    case Cosine => V.Clamp(1.0 - distance / 2.0)
    case L2 => InverseScore(distance)
    case InnerProduct => InverseScore(distance)
  }

  function InverseScore(distance: real): real {
    if 1.0 + distance == 0.0 then 1.0 else V.Clamp(1.0 / (1.0 + distance))
  }

  function BlendScore(similarity: real, freshness: real, recencyWeight: real): real {
    var w := V.Clamp(recencyWeight);
    (1.0 - w) * similarity + w * freshness
  }

  function ScoreOf(m: Match, metric: V.Metric, opts: VectorOptions, around: Surroundings): real {
    var similarity := DistanceToScore(m.distance, metric);
    if opts.recencyWeight > 0.0 then BlendScore(similarity, around.freshness(m.entry), opts.recencyWeight)
    else similarity
  }

  function Scored(metric: V.Metric, opts: VectorOptions, around: Surroundings): Match -> Hit {
    (m: Match) => Hit(m.entry, ScoreOf(m, metric, opts, around), Direct, 0, [], false, [])
  }

  function NotExcluded(opts: VectorOptions, around: Surroundings): Match -> bool {
    (m: Match) => !ShouldExclude(m.entry.content, opts.excludeContent, around.lower)
  }

  function Passes(metric: V.Metric, opts: VectorOptions, around: Surroundings): Match -> bool {
    (m: Match) => opts.threshold <= 0.0 || ScoreOf(m, metric, opts, around) >= opts.threshold
  }

  function Both(keep: Match -> bool, pass: Match -> bool): Match -> bool {
    (m: Match) => keep(m) && pass(m)
  }

  function ScoreAll(matches: seq<Match>, score: Match -> Hit): (hits: seq<Hit>)
    ensures |hits| == |matches| && forall i :: 0 <= i < |matches| ==> hits[i] == score(matches[i])
  {
    seq(|matches|, i requires 0 <= i < |matches| => score(matches[i]))
  }

  /** Put in order of score when recency counts, and cut to the limit. */
  ghost predicate Delivered(opts: VectorOptions, scored: seq<Hit>, hits: seq<Hit>) {
    exists full ::
      && (if opts.recencyWeight > 0.0 then StableSort.StableSortOf(full, scored) else full == scored)
      && hits == full[..Min(opts.Limit(), |full|)]
  }

  /** The answer comes from a legal fetch: what is kept of it, nearest first, as it is delivered. */
  ghost predicate Answers(query: Query, opts: VectorOptions, around: Surroundings, table: Table,
                          kept: seq<Match>, hits: seq<Hit>) {
    && NoRepeats(kept) && InOrder(kept, Nearer())
    && FromFetch(query, opts, around, table, Members(kept))
    && Delivered(opts, ScoreAll(kept, Scored(query.metric, opts, around)), hits)
  }

  ghost predicate FromFetch(query: Query, opts: VectorOptions, around: Surroundings, table: Table, kept: set<Match>) {
    exists fetched ::
      && IsTop(query.Matches(table), opts.FetchLimit(), Nearer(), fetched)
      && kept == Kept(fetched, Both(NotExcluded(opts, around), Passes(query.metric, opts, around)))
  }

  /** Drops what is excluded or below the threshold, and scores the rest. */
  method Screen(found: seq<Match>, score: Match -> Hit, keep: Match -> bool, pass: Match -> bool,
                ghost less: (Match, Match) -> bool)
    returns (results: seq<Hit>, ghost kept: seq<Match>)
    requires NoRepeats(found) && InOrder(found, less)
    ensures NoRepeats(kept) && InOrder(kept, less) && Members(kept) == Kept(Members(found), Both(keep, pass))
    ensures results == ScoreAll(kept, score)
  {
    hide InOrder, NoRepeats, Members, Kept;
    results, kept := [], [];
    NothingKept(found, Both(keep, pass), less);
    for i := 0 to |found|
      invariant NoRepeats(kept) && InOrder(kept, less)
      invariant Members(kept) == Kept(Members(found[..i]), Both(keep, pass))
      invariant results == ScoreAll(kept, score)
    {
      var m := found[i];
      KeepNext(found, i, kept, Both(keep, pass), less);
      if !keep(m) {
        continue;
      }
      if !pass(m) {
        continue;
      }
      results := results + [score(m)];
      kept := kept + [m];
    }
    assert found[..|found|] == found;
  }

  /** Sorts the results if recency counts, and cuts them. */
  method Deliver(opts: VectorOptions, scored: seq<Hit>) returns (hits: seq<Hit>)
    ensures Delivered(opts, scored, hits)
  {
    var results := scored;
    if opts.recencyWeight > 0.0 {
      results := StableSort.Sorted(results);
    }
    hits := results[..Min(opts.Limit(), |results|)];
  }

  /** `embedded` is the embedding of the query text, if there is an embedder and it works. */
  method SearchVector(query: Query, opts: VectorOptions, around: Surroundings, table: Table, embedded: bool)
    returns (r: Outcome<seq<Hit>>)
    requires KeyedById(table) && query.scope == opts.scope
    ensures r.Ok? <==> opts.text != "" && opts.scope != "" && embedded && query.vector != []
    ensures r.Ok? ==> exists kept :: Answers(query, opts, around, table, kept, r.value)
  {
    if opts.text == "" || opts.scope == "" || !embedded {
      return Err(EmptyQuery);
    }
    var found := SearchSimilar(query, table, table, opts.FetchLimit());
    if found.Err? {
      return Err(found.error);
    }
    hide IsTop, InOrder, NoRepeats, Members, Kept, Query.Matches, ShouldExclude, Delivered;
    var results, kept := Screen(found.value, Scored(query.metric, opts, around), NotExcluded(opts, around),
                                Passes(query.metric, opts, around), Nearer());
    ghost var fetched := Members(found.value);
    assert FromFetch(query, opts, around, table, Members(kept)) by {
      assert opts.FetchLimit() == Limit(opts.FetchLimit());
      assert IsTop(query.Matches(table), opts.FetchLimit(), Nearer(), fetched);
    }
    var hits := Deliver(opts, results);
    assert Answers(query, opts, around, table, kept, hits);
    return Ok(hits);
  }

  lemma NothingKept(found: seq<Match>, keep: Match -> bool, less: (Match, Match) -> bool)
    ensures NoRepeats<Match>([]) && InOrder([], less)
    ensures Members<Match>([]) == Kept(Members(found[..0]), keep)
  {
  }

  lemma KeepNext(found: seq<Match>, i: nat, kept: seq<Match>, keep: Match -> bool, less: (Match, Match) -> bool)
    requires NoRepeats(found) && InOrder(found, less) && i < |found|
    requires NoRepeats(kept) && InOrder(kept, less) && Members(kept) == Kept(Members(found[..i]), keep)
    ensures Members(if keep(found[i]) then kept + [found[i]] else kept) == Kept(Members(found[..i + 1]), keep)
    ensures NoRepeats(kept + [found[i]]) && InOrder(kept + [found[i]], less)
  {
    assert found[..i + 1] == found[..i] + [found[i]];
    MembersSnoc(found[..i], found[i]);
    MembersSnoc(kept, found[i]);
    forall k | 0 <= k < |kept|
      ensures kept[k] != found[i] && !less(found[i], kept[k])
    {
      assert kept[k] in Members(kept);
      var j :| 0 <= j < i && found[j] == kept[k];
    }
  }

  // What the answer is worth.

  lemma DeliveredAreScored(opts: VectorOptions, scored: seq<Hit>, hits: seq<Hit>)
    requires Delivered(opts, scored, hits)
    ensures |hits| == Min(if opts.limit > 0 then opts.limit else 10, |scored|) && forall h :: h in hits ==> h in scored
    ensures opts.recencyWeight > 0.0 ==> StableSort.Descending(hits)
    ensures DistinctHits(scored) ==> DistinctHits(hits)
  {
    hide StableSort.SameTies, HasHit;
    var full :| (if opts.recencyWeight > 0.0 then StableSort.StableSortOf(full, scored) else full == scored)
      && hits == full[..Min(opts.Limit(), |full|)];
    if opts.recencyWeight > 0.0 {
      StableSort.StableSortIsPermutation(full, scored);
      StableSort.PermutationKeepsHits(scored, full);
      SameMembers(full, scored);
    }
    forall h | h in hits
      ensures h in full
    {
    }
  }

  /** Content is excluded exactly when, case aside, one of the patterns stands somewhere in it. */
  lemma ExcludedMeans(content: string, excludes: seq<string>, lower: string -> string)
    ensures ShouldExclude(content, excludes, lower) <==>
      exists x, front, back :: x in excludes && lower(content) == front + lower(x) + back
  {
    if ShouldExclude(content, excludes, lower) {
      var i :| 0 <= i < |excludes| && Contains(lower(content), lower(excludes[i]));
      var front, back := ContainsMeans(lower(content), lower(excludes[i]));
      assert excludes[i] in excludes;
    }
    if x, front, back :| x in excludes && lower(content) == front + lower(x) + back {
      var i :| 0 <= i < |excludes| && excludes[i] == x;
      StandsIn(front, lower(x), back);
    }
  }

  lemma ContainsMeans(s: string, part: string) returns (front: string, back: string)
    requires Contains(s, part)
    ensures s == front + part + back
  {
    var at :| 0 <= at <= |s| && part <= s[at..];
    front, back := s[..at], s[at + |part|..];
  }

  lemma StandsIn(front: string, part: string, back: string)
    ensures Contains(front + part + back, part)
  {
    assert (front + part + back)[|front|..] == part + back;
  }

  /** What is fetched beyond the limit: nothing, or twice the limit but at least up to 30. */
  lemma RoomIs(opts: VectorOptions, n: nat)
    requires opts.limit > 0
    ensures n + opts.Limit() <= opts.FetchLimit() <==>
      n <= if opts.excludeContent == [] then 0 else if opts.limit < 10 then 30 - opts.limit else 2 * opts.limit
  {
  }

  /** Each entry at most once, no more than asked for, none excluded, none below the threshold. */
  lemma AnswersAreClean(query: Query, opts: VectorOptions, around: Surroundings, table: Table,
                        kept: seq<Match>, hits: seq<Hit>)
    requires KeyedById(table) && Answers(query, opts, around, table, kept, hits)
    ensures DistinctHits(hits) && |hits| == Min(if opts.limit > 0 then opts.limit else 10, |kept|)
    ensures opts.recencyWeight > 0.0 ==> StableSort.Descending(hits)
    ensures forall h :: h in hits ==>
      && h.entry.id in table && h.entry == table[h.entry.id]
      && !ShouldExclude(h.entry.content, opts.excludeContent, around.lower)
      && (opts.threshold > 0.0 ==> h.score >= opts.threshold)
      && h == Hit(h.entry, h.score, Direct, 0, [], false, [])
  {
    hide ShouldExclude, ScoreOf, Query.Matches, IsTop, FromFetch, HasHit, Delivered, InOrder, NoRepeats, DistinctHits,
         StableSort.Descending;
    var score := Scored(query.metric, opts, around);
    var scored := ScoreAll(kept, score);
    KeptAreDistinct(query, opts, around, table, kept);
    DeliveredAreScored(opts, scored, hits);
    forall h | h in hits
      ensures exists m :: m in Members(kept) && h == score(m)
    {
      var i :| 0 <= i < |scored| && scored[i] == h;
      assert kept[i] in Members(kept);
    }
  }

  /** What is kept of a fetch: what is not excluded and passes the threshold. */
  lemma KeptMeans(query: Query, opts: VectorOptions, around: Surroundings, table: Table,
                  kept: seq<Match>, hits: seq<Hit>) returns (fetched: set<Match>)
    requires Answers(query, opts, around, table, kept, hits)
    ensures var limit := if opts.limit > 0 then opts.limit else 10;
      IsTop(query.Matches(table), if opts.excludeContent == [] then limit else if limit < 10 then 30 else 3 * limit,
            Nearer(), fetched)
    ensures forall m :: m in kept <==>
      && m in fetched && !ShouldExclude(m.entry.content, opts.excludeContent, around.lower)
      && (opts.threshold > 0.0 ==> ScoreOf(m, query.metric, opts, around) >= opts.threshold)
  {
    hide ShouldExclude, ScoreOf, IsTop, Query.Matches, NoRepeats, InOrder, Delivered;
    var keep := Both(NotExcluded(opts, around), Passes(query.metric, opts, around));
    fetched :| IsTop(query.Matches(table), opts.FetchLimit(), Nearer(), fetched) &&
      Members(kept) == Kept(fetched, keep);
    forall m
      ensures m in kept <==> m in Kept(fetched, keep)
    {
      assert m in kept <==> m in Members(kept);
    }
  }

  lemma KeptAreDistinct(query: Query, opts: VectorOptions, around: Surroundings, table: Table, kept: seq<Match>)
    requires KeyedById(table) && NoRepeats(kept) && FromFetch(query, opts, around, table, Members(kept))
    ensures DistinctHits(ScoreAll(kept, Scored(query.metric, opts, around)))
    ensures forall m :: m in Members(kept) ==>
      && m in query.Matches(table)
      && Both(NotExcluded(opts, around), Passes(query.metric, opts, around))(m)
      && m.entry.id in table && m.entry == table[m.entry.id]
  {
    hide ShouldExclude, Query.IsCandidate, Query.DistanceTo;
    var hits := ScoreAll(kept, Scored(query.metric, opts, around));
    forall i, j | 0 <= i < j < |hits|
      ensures hits[i].entry.id != hits[j].entry.id
    {
      assert kept[i] in Members(kept) && kept[j] in Members(kept);
    }
  }

  /** With freshness between 0 and 1 a score is, too. */
  lemma ScoresAreShares(query: Query, opts: VectorOptions, around: Surroundings, table: Table,
                        kept: seq<Match>, hits: seq<Hit>, h: Hit)
    requires Answers(query, opts, around, table, kept, hits) && h in hits
    requires forall e :: 0.0 <= around.freshness(e) <= 1.0
    ensures 0.0 <= h.score <= 1.0
  {
    hide FromFetch, ScoreOf, Delivered;
    var scored := ScoreAll(kept, Scored(query.metric, opts, around));
    DeliveredAreScored(opts, scored, hits);
    var i :| 0 <= i < |scored| && scored[i] == h;
    ScoreIsShare(kept[i], query.metric, opts, around);
  }

  lemma ScoreIsShare(m: Match, metric: V.Metric, opts: VectorOptions, around: Surroundings)
    requires 0.0 <= around.freshness(m.entry) <= 1.0
    ensures 0.0 <= ScoreOf(m, metric, opts, around)
    ensures ScoreOf(m, metric, opts, around) <= 1.0
  {
    hide BlendScore;
    Blended(DistanceToScore(m.distance, metric), around.freshness(m.entry), opts.recencyWeight);
  }

  lemma Blended(x: real, y: real, weight: real)
    requires 0.0 <= x <= 1.0 && 0.0 <= y <= 1.0
    ensures 0.0 <= BlendScore(x, y, weight)
    ensures BlendScore(x, y, weight) <= 1.0
  {
    var w := V.Clamp(weight);
    V.NonNegative(1.0 - w, x);
    V.NonNegative(w, y);
    V.NonNegative(1.0 - w, 1.0 - x);
    V.NonNegative(w, 1.0 - y);
  }

  /** Candidates the exclusion patterns strike out. */
  ghost function Struck(query: Query, opts: VectorOptions, around: Surroundings, table: Table): set<Match> {
    query.Matches(table) - Kept(query.Matches(table), NotExcluded(opts, around))
  }

  /** Without recency weighting, and by cosine or Euclidean distance: the answer is made of
      the nearest entries of the whole store that are not excluded and pass the threshold, best
      first, as long as the fetch has room for those that are excluded. */
  lemma NearestAreAnswered(query: Query, opts: VectorOptions, around: Surroundings, table: Table,
                           kept: seq<Match>, hits: seq<Hit>)
    requires KeyedById(table) && Answers(query, opts, around, table, kept, hits)
    requires V.IsSqrt(query.sqrt) && query.metric != V.InnerProduct && opts.recencyWeight <= 0.0
    requires |Struck(query, opts, around, table)| + opts.Limit() <= opts.FetchLimit()
    ensures hits == ScoreAll(kept[..Min(opts.Limit(), |kept|)], Scored(query.metric, opts, around))
    ensures IsTop(Kept(query.Matches(table), Both(NotExcluded(opts, around), Passes(query.metric, opts, around))),
                  opts.Limit(), Nearer(), Members(kept[..Min(opts.Limit(), |kept|)]))
    ensures StableSort.Descending(hits)
  {
    hide ShouldExclude, Query.Matches, ScoreOf, IsTop, V.IsSqrt;
    var keep, pass := NotExcluded(opts, around), Passes(query.metric, opts, around);
    var all := query.Matches(table);
    var fetched :| IsTop(all, opts.FetchLimit(), Nearer(), fetched) && Members(kept) == Kept(fetched, Both(keep, pass));
    FrontIsTop(kept, opts.Limit(), Nearer());
    forall a, b | a in all && b in all && pass(b) && !Nearer()(b, a)
      ensures pass(a)
    {
      NearerScoresMore(query, opts, around, table, a, b);
    }
    var n := Min(opts.Limit(), |kept|);
    ThresholdedIsTop(all, opts.FetchLimit(), opts.Limit(), Nearer(), keep, pass, Both(keep, pass), fetched,
                     Members(kept[..n]));
    forall i, j | 0 <= i < j < |hits|
      ensures hits[i].score >= hits[j].score
    {
      assert !Nearer()(kept[j], kept[i]);
      assert kept[i] in Members(kept) && kept[j] in Members(kept);
      KeptAreDistinct(query, opts, around, table, kept);
      NearerScoresMore(query, opts, around, table, kept[i], kept[j]);
    }
  }

  /** What may be returned. */
  ghost function Admissible(query: Query, opts: VectorOptions, around: Surroundings, table: Table): set<Match> {
    Kept(query.Matches(table), Both(NotExcluded(opts, around), Passes(query.metric, opts, around)))
  }

  /** Without recency weighting every answer is made of nearest admissible entries of the whole
      store exactly when the fetch has room for those and, for each of them, for all that is no
      further away and may not be returned. */
  lemma NearestExactlyWhen(query: Query, opts: VectorOptions, around: Surroundings, table: Table, best: set<Match>)
    requires opts.recencyWeight <= 0.0
    requires IsTop(Admissible(query, opts, around, table), opts.Limit(), Nearer(), best)
    ensures (forall kept, hits :: Answers(query, opts, around, table, kept, hits) ==>
          IsTop(Admissible(query, opts, around, table), opts.Limit(), Nearer(),
                Members(kept[..Min(opts.Limit(), |kept|)])))
      <==> (forall e :: e in best ==>
          |best| + |Rivals(query.Matches(table), Both(NotExcluded(opts, around), Passes(query.metric, opts, around)),
                           e, Nearer())| <= opts.FetchLimit())
  {
    hide IsTop, NoRepeats, InOrder, Members, Kept, Rivals, Query.Matches, Both, Ordering;
    var all, keep := query.Matches(table), Both(NotExcluded(opts, around), Passes(query.metric, opts, around));
    var m, k := opts.FetchLimit(), opts.Limit();
    NearerIsOrdering();
    if forall e :: e in best ==> |best| + |Rivals(all, keep, e, Nearer())| <= m {
      forall kept, hits | Answers(query, opts, around, table, kept, hits)
        ensures IsTop(Kept(all, keep), k, Nearer(), Members(kept[..Min(k, |kept|)]))
      {
        var fetched :| IsTop(all, m, Nearer(), fetched) && Members(kept) == Kept(fetched, keep);
        FrontIsTop(kept, k, Nearer());
        RoomyFetchIsTop(all, m, k, Nearer(), keep, best, fetched, Members(kept[..Min(k, |kept|)]));
      }
    } else {
      var e :| e in best && |best| + |Rivals(all, keep, e, Nearer())| > m;
      var fetched := CrowdedFetch(all, m, k, Nearer(), keep, best, e);
      var kept := ListExists(Kept(fetched, keep), Nearer());
      var full := ScoreAll(kept, Scored(query.metric, opts, around));
      assert Answers(query, opts, around, table, kept, full[..Min(k, |full|)]);
      TooFew(Kept(all, keep), k, Nearer(), best, kept);
    }
  }

  /** Higher scores first. */
  function Better(query: Query, opts: VectorOptions, around: Surroundings): (Match, Match) -> bool {
    (a: Match, b: Match) => ScoreOf(a, query.metric, opts, around) > ScoreOf(b, query.metric, opts, around)
  }

  /** Which of the matches that were kept are answered. */
  ghost function Chosen(query: Query, opts: VectorOptions, around: Surroundings, kept: seq<Match>,
                        hits: seq<Hit>): set<Match> {
    set m | m in kept && Scored(query.metric, opts, around)(m) in hits
  }

  /** With recency weighting every answer is made of matches that score best among all admissible
      ones of the whole store exactly when the fetch, which goes by distance alone, has room for
      each that scores higher than one of the best, and for as many as are wanted of those that
      score no less. */
  lemma BestExactlyWhen(query: Query, opts: VectorOptions, around: Surroundings, table: Table,
                        best: set<Match>, nearest: set<Match>)
    requires KeyedById(table) && opts.recencyWeight > 0.0
    requires IsTop(Admissible(query, opts, around, table), opts.Limit(), Better(query, opts, around), best)
    requires
      var keep := Both(NotExcluded(opts, around), Passes(query.metric, opts, around));
      IsTop(AsGood(query.Matches(table), keep, Better(query, opts, around), best), |best|, Nearer(), nearest)
    ensures (forall kept, hits :: Answers(query, opts, around, table, kept, hits) ==>
          IsTop(Admissible(query, opts, around, table), opts.Limit(), Better(query, opts, around),
                Chosen(query, opts, around, kept, hits)))
      <==> HasRoomFor(query.Matches(table), opts.FetchLimit(), Nearer(),
                      Both(NotExcluded(opts, around), Passes(query.metric, opts, around)),
                      Better(query, opts, around), best, nearest)
  {
    hide IsTop, NoRepeats, InOrder, Members, Kept, HasRoomFor, AsGood, Query.Matches, Both, Ordering, KeyedById,
         ScoreAll, Chosen, Better, Answers;
    var all, keep := query.Matches(table), Both(NotExcluded(opts, around), Passes(query.metric, opts, around));
    var m, k, better := opts.FetchLimit(), opts.Limit(), Better(query, opts, around);
    NearerIsOrdering();
    BetterIsOrdering(query, opts, around);
    if HasRoomFor(all, m, Nearer(), keep, better, best, nearest) {
      forall kept, hits | Answers(query, opts, around, table, kept, hits)
        ensures IsTop(Kept(all, keep), k, better, Chosen(query, opts, around, kept, hits))
      {
        var fetched := ChosenAreTop(query, opts, around, table, kept, hits);
        RoomyFetchHasBest(all, m, k, Nearer(), keep, better, best, nearest, fetched,
                          Chosen(query, opts, around, kept, hits));
      }
    } else {
      var fetched := PoorFetch(all, m, k, Nearer(), keep, better, best, nearest);
      var kept, hits := AnswerExists(query, opts, around, table, fetched);
      var fetched' := ChosenAreTop(query, opts, around, table, kept, hits);
      assert Kept(fetched', keep) == Kept(fetched, keep);
    }
  }

  lemma BetterIsOrdering(query: Query, opts: VectorOptions, around: Surroundings)
    ensures Ordering(Better(query, opts, around))
  {
    hide ScoreOf;
  }

  /** The answer is a top by score of what was kept of the fetch. */
  lemma ChosenAreTop(query: Query, opts: VectorOptions, around: Surroundings, table: Table,
                     kept: seq<Match>, hits: seq<Hit>) returns (fetched: set<Match>)
    requires KeyedById(table) && opts.recencyWeight > 0.0 && Answers(query, opts, around, table, kept, hits)
    ensures var keep := Both(NotExcluded(opts, around), Passes(query.metric, opts, around));
      && IsTop(query.Matches(table), opts.FetchLimit(), Nearer(), fetched) && Members(kept) == Kept(fetched, keep)
      && IsTop(Kept(fetched, keep), opts.Limit(), Better(query, opts, around), Chosen(query, opts, around, kept, hits))
  {
    hide Query.Matches, IsTop, ScoreOf, Kept, Both, InOrder, StableSort.SameTies;
    var score := Scored(query.metric, opts, around);
    fetched :| IsTop(query.Matches(table), opts.FetchLimit(), Nearer(), fetched) &&
      Members(kept) == Kept(fetched, Both(NotExcluded(opts, around), Passes(query.metric, opts, around)));
    var full :| StableSort.StableSortOf(full, ScoreAll(kept, score)) && hits == full[..Min(opts.Limit(), |full|)];
    KeptAreDistinct(query, opts, around, table, kept);
    StableSort.StableSortIsPermutation(full, ScoreAll(kept, score));
    StableSort.PermutationKeepsHits(ScoreAll(kept, score), full);
    SameMembers(full, ScoreAll(kept, score));
    CutIsTop(query, opts, around, kept, full, opts.Limit());
  }

  lemma CutIsTop(query: Query, opts: VectorOptions, around: Surroundings, kept: seq<Match>, full: seq<Hit>, k: nat)
    requires NoRepeats(kept) && StableSort.Descending(full) && DistinctHits(full) && |full| == |kept|
    requires var scored := ScoreAll(kept, Scored(query.metric, opts, around));
      DistinctHits(scored) && forall h :: h in full <==> h in scored
    ensures IsTop(Members(kept), k, Better(query, opts, around),
                  Chosen(query, opts, around, kept, full[..Min(k, |full|)]))
  {
    hide ScoreOf;
    var score, n := Scored(query.metric, opts, around), Min(k, |full|);
    var hits, scored := full[..n], ScoreAll(kept, score);
    var chosen := Chosen(query, opts, around, kept, hits);
    MembersCount(kept);
    forall l | 0 <= l < n
      ensures full[l] in hits
    {
      assert hits[l] == full[l];
    }
    forall a, b | a in chosen && b in Members(kept) - chosen
      ensures !Better(query, opts, around)(b, a)
    {
      var i :| 0 <= i < n && full[i] == score(a);
      HitOf(kept, scored, score, b);
      var j :| 0 <= j < |full| && full[j] == score(b);
      assert score(b) !in hits;
    }
    ChosenCount(query, opts, around, kept, full, n);
  }

  lemma HitOf(kept: seq<Match>, scored: seq<Hit>, score: Match -> Hit, m: Match)
    requires m in kept && scored == ScoreAll(kept, score)
    ensures score(m) in scored
  {
    var i :| 0 <= i < |kept| && kept[i] == m;
    assert scored[i] == score(m);
  }

  lemma ChosenCount(query: Query, opts: VectorOptions, around: Surroundings, kept: seq<Match>, full: seq<Hit>, n: nat)
    requires n <= |full| && DistinctHits(full)
    requires var scored := ScoreAll(kept, Scored(query.metric, opts, around));
      DistinctHits(scored) && forall h :: h in full <==> h in scored
    ensures |Chosen(query, opts, around, kept, full[..n])| == n
  {
    hide ScoreOf;
    var score, hits := Scored(query.metric, opts, around), full[..n];
    var chosen, scored := Chosen(query, opts, around, kept, hits), ScoreAll(kept, score);
    forall a, b | a in chosen && b in chosen && score(a) == score(b)
      ensures a == b
    {
      var i :| 0 <= i < |kept| && kept[i] == a;
      var j :| 0 <= j < |kept| && kept[j] == b;
      assert scored[i].entry.id == scored[j].entry.id;
    }
    ImageSize(chosen, score);
    MembersCount(hits);
    assert Image(chosen, score) == Members(hits) by {
      forall h | h in hits
        ensures h in Image(chosen, score)
      {
        assert h in full;
        var i :| 0 <= i < |scored| && scored[i] == h;
        assert kept[i] in chosen;
      }
    }
  }

  lemma AnswerExists(query: Query, opts: VectorOptions, around: Surroundings, table: Table, fetched: set<Match>)
      returns (kept: seq<Match>, hits: seq<Hit>)
    requires IsTop(query.Matches(table), opts.FetchLimit(), Nearer(), fetched)
    ensures Answers(query, opts, around, table, kept, hits)
    ensures Members(kept) == Kept(fetched, Both(NotExcluded(opts, around), Passes(query.metric, opts, around)))
  {
    hide Query.Matches, IsTop, Kept, Both, Members, InOrder, NoRepeats, StableSort.StableSortOf, ScoreOf;
    var keep := Both(NotExcluded(opts, around), Passes(query.metric, opts, around));
    NearerIsOrdering();
    kept := ListExists(Kept(fetched, keep), Nearer());
    var full := ScoreAll(kept, Scored(query.metric, opts, around));
    if opts.recencyWeight > 0.0 {
      full := StableSort.StableSortExists(full);
    }
    hits := full[..Min(opts.Limit(), |full|)];
    assert FromFetch(query, opts, around, table, Members(kept));
  }

  lemma NearerIsOrdering()
    ensures Ordering(Nearer())
  {
  }

  lemma TooFew(all: set<Match>, k: nat, less: (Match, Match) -> bool, best: set<Match>, kept: seq<Match>)
    requires IsTop(all, k, less, best) && NoRepeats(kept) && |Members(kept)| < |best|
    ensures !IsTop(all, k, less, Members(kept[..Min(k, |kept|)]))
  {
    MembersCount(kept);
    MembersCount(kept[..Min(k, |kept|)]);
  }

  lemma NearerScoresMore(query: Query, opts: VectorOptions, around: Surroundings, table: Table, a: Match, b: Match)
    requires V.IsSqrt(query.sqrt) && query.metric != V.InnerProduct && opts.recencyWeight <= 0.0
    requires a in query.Matches(table) && b in query.Matches(table) && a.distance <= b.distance
    ensures ScoreOf(a, query.metric, opts, around) >= ScoreOf(b, query.metric, opts, around)
  {
    if query.metric == V.L2 {
      var id :| id in table && query.IsCandidate(table[id]) && a == Match(table[id], query.DistanceTo(table[id]));
      DistanceIsNonNegative(query, table[id]);
      InverseFalls(a.distance, b.distance);
    }
  }

  lemma DistanceIsNonNegative(query: Query, entry: Entry)
    requires V.IsSqrt(query.sqrt) && query.metric == V.L2 && query.IsCandidate(entry)
    ensures query.DistanceTo(entry) >= 0.0
  {
    V.EuclideanIsMetric(query.vector, entry.embedding, entry.embedding, query.sqrt);
  }

  lemma InverseFalls(x: real, y: real)
    requires 0.0 <= x <= y
    ensures InverseScore(x) >= InverseScore(y)
  {
    Reciprocal(1.0 + x);
    Reciprocal(1.0 + y);
    ReciprocalFalls(1.0 + x, 1.0 + y);
  }

  lemma Reciprocal(x: real)
    requires x >= 1.0
    ensures 0.0 < 1.0 / x
    ensures 1.0 / x <= 1.0
  {
    var q := 1.0 / x;
    assert q * x == 1.0;
    V.Sign(q, x);
    assert (1.0 - q) * x == x - 1.0;
    V.Sign(1.0 - q, x);
  }

  lemma ReciprocalFalls(x: real, y: real)
    requires 1.0 <= x <= y
    ensures 1.0 / x >= 1.0 / y
  {
    var p, q := 1.0 / x, 1.0 / y;
    assert p * x == 1.0 && q * y == 1.0;
    Reciprocal(x);
    V.NonNegative(y - x, p);
    assert (p - q) * y == p * y - 1.0;
    assert p * y - 1.0 == (y - x) * p;
    V.Sign(p - q, y);
  }

  /** When nothing is excluded the fetch is no larger than the answer, so recency cannot bring
      anything in: it reorders the nearest entries, or what passes the threshold of them. */
  lemma RecencyOnlyReorders(query: Query, opts: VectorOptions, around: Surroundings, table: Table,
                            kept: seq<Match>, hits: seq<Hit>)
    requires KeyedById(table) && Answers(query, opts, around, table, kept, hits) && opts.excludeContent == []
    ensures exists fetched ::
      && IsTop(query.Matches(table), opts.Limit(), Nearer(), fetched)
      && Members(kept) == Kept(fetched, Passes(query.metric, opts, around))
      && multiset(hits) == multiset(ScoreAll(kept, Scored(query.metric, opts, around)))
  {
    hide Query.Matches, ScoreOf, Passes, InOrder, NoRepeats, StableSort.SameTies;
    var scored := ScoreAll(kept, Scored(query.metric, opts, around));
    var fetched :| IsTop(query.Matches(table), opts.FetchLimit(), Nearer(), fetched) &&
      Members(kept) == Kept(fetched, Both(NotExcluded(opts, around), Passes(query.metric, opts, around)));
    assert Members(kept) == Kept(fetched, Passes(query.metric, opts, around));
    var full :| (if opts.recencyWeight > 0.0 then StableSort.StableSortOf(full, scored) else full == scored)
      && hits == full[..Min(opts.Limit(), |full|)];
    if opts.recencyWeight > 0.0 {
      StableSort.StableSortIsPermutation(full, scored);
      SameMembers(full, scored);
    }
    FitsLimit(kept, fetched, opts.Limit());
    assert hits == full;
  }

  lemma FitsLimit(kept: seq<Match>, fetched: set<Match>, limit: nat)
    requires NoRepeats(kept) && Members(kept) <= fetched && |fetched| <= limit
    ensures |kept| <= limit
  {
    MembersCount(kept);
    SubsetSize(Members(kept), fetched);
  }

  // What a score is, in numbers.

  lemma TopIsOfAll(all: set<Match>, k: nat, top: set<Match>)
    requires IsTop(all, k, Nearer(), top)
    ensures top <= all
  {
  }

  /** A match that was kept is measured, live and in scope. */
  lemma MatchIsMeasured(query: Query, opts: VectorOptions, around: Surroundings, table: Table,
                        kept: seq<Match>, m: Match)
    requires KeyedById(table) && FromFetch(query, opts, around, table, Members(kept)) && m in kept
    ensures |m.entry.embedding| == |query.vector|
    ensures m.distance == V.DistanceOf(query.metric, query.vector, m.entry.embedding, query.sqrt)
    ensures NotExcluded(opts, around)(m)
    ensures opts.threshold > 0.0 ==> ScoreOf(m, query.metric, opts, around) >= opts.threshold
  {
    hide ShouldExclude, ScoreOf, IsTop, Query.Selects;
    assert m in Members(kept);
    var fetched :| IsTop(query.Matches(table), opts.FetchLimit(), Nearer(), fetched) &&
      Members(kept) == Kept(fetched, Both(NotExcluded(opts, around), Passes(query.metric, opts, around)));
    TopIsOfAll(query.Matches(table), opts.FetchLimit(), fetched);
    var id :| id in table && query.IsCandidate(table[id]) && m == Match(table[id], query.DistanceTo(table[id]));
  }

  /** The match a result was made of. */
  lemma MadeOf(query: Query, opts: VectorOptions, around: Surroundings, table: Table,
               kept: seq<Match>, hits: seq<Hit>, i: nat) returns (u: nat)
    requires KeyedById(table) && Answers(query, opts, around, table, kept, hits)
    requires i < |hits|
    ensures u < |kept| && hits[i] == Scored(query.metric, opts, around)(kept[u])
    ensures |hits[i].entry.embedding| == |query.vector|
    ensures kept[u].distance == V.DistanceOf(query.metric, query.vector, hits[i].entry.embedding, query.sqrt)
    ensures NotExcluded(opts, around)(kept[u])
    ensures opts.threshold > 0.0 ==> hits[i].score >= opts.threshold
    ensures opts.recencyWeight <= 0.0 ==> u == i
    ensures opts.recencyWeight > 0.0 ==> StableSort.Descending(hits)
  {
    hide FromFetch, ScoreOf, StableSort.SameTies, InOrder, NoRepeats, ShouldExclude;
    var score := Scored(query.metric, opts, around);
    var full :| (if opts.recencyWeight > 0.0
                 then StableSort.StableSortOf(full, ScoreAll(kept, score)) else full == ScoreAll(kept, score))
      && hits == full[..Min(opts.Limit(), |full|)];
    u := i;
    if opts.recencyWeight > 0.0 {
      StableSort.StableSortIsPermutation(full, ScoreAll(kept, score));
      SameMembers(full, ScoreAll(kept, score));
      assert full[i] in full;
      u :| 0 <= u < |kept| && ScoreAll(kept, score)[u] == full[i];
    }
    MatchIsMeasured(query, opts, around, table, kept, kept[u]);
  }

  /** What recency makes of a similarity. */
  function Blend(similarity: real, freshness: real, weight: real): real {
    if weight <= 0.0 then similarity
    else if weight >= 1.0 then freshness
    else (1.0 - weight) * similarity + weight * freshness
  }

  lemma BlendIs(similarity: real, freshness: real, weight: real)
    requires weight > 0.0
    ensures BlendScore(similarity, freshness, weight) == Blend(similarity, freshness, weight)
  {
  }

  /** By cosine distance the similarity is one minus half the distance. */
  lemma CosineScores(query: Query, opts: VectorOptions, around: Surroundings, table: Table,
                     kept: seq<Match>, hits: seq<Hit>, i: nat)
    requires KeyedById(table) && Answers(query, opts, around, table, kept, hits)
    requires V.IsSqrt(query.sqrt) && query.metric == V.Cosine && i < |hits|
    ensures |hits[i].entry.embedding| == |query.vector|
    ensures hits[i].score == Blend(1.0 - V.CosineOf(query.vector, hits[i].entry.embedding, query.sqrt) / 2.0,
                                   around.freshness(hits[i].entry), opts.recencyWeight)
  {
    hide Answers, Blend, BlendScore, V.CosineOf, V.IsSqrt;
    var u := MadeOf(query, opts, around, table, kept, hits, i);
    var e := hits[i].entry;
    V.CosineScoreIsExact(query.vector, e.embedding, e.embedding, query.sqrt);
    if opts.recencyWeight > 0.0 {
      BlendIs(1.0 - V.CosineOf(query.vector, e.embedding, query.sqrt) / 2.0, around.freshness(e), opts.recencyWeight);
    } else {
      NoBlend(1.0 - V.CosineOf(query.vector, e.embedding, query.sqrt) / 2.0, around.freshness(e), opts.recencyWeight);
    }
  }

  /** By Euclidean distance it is the inverse of one more than the distance. */
  lemma EuclideanScores(query: Query, opts: VectorOptions, around: Surroundings, table: Table,
                        kept: seq<Match>, hits: seq<Hit>, i: nat)
    requires KeyedById(table) && Answers(query, opts, around, table, kept, hits)
    requires V.IsSqrt(query.sqrt) && query.metric == V.L2 && i < |hits|
    ensures |hits[i].entry.embedding| == |query.vector|
    ensures V.EuclideanOf(query.vector, hits[i].entry.embedding, query.sqrt) >= 0.0
    ensures hits[i].score == Blend(1.0 / (1.0 + V.EuclideanOf(query.vector, hits[i].entry.embedding, query.sqrt)),
                                   around.freshness(hits[i].entry), opts.recencyWeight)
  {
    hide Answers, Blend, BlendScore, V.EuclideanOf, V.IsSqrt, InverseScore;
    var u := MadeOf(query, opts, around, table, kept, hits, i);
    var e := hits[i].entry;
    V.EuclideanIsMetric(query.vector, e.embedding, e.embedding, query.sqrt);
    var distance := V.EuclideanOf(query.vector, e.embedding, query.sqrt);
    InverseIs(distance);
    if opts.recencyWeight > 0.0 {
      BlendIs(1.0 / (1.0 + distance), around.freshness(e), opts.recencyWeight);
    } else {
      NoBlend(1.0 / (1.0 + distance), around.freshness(e), opts.recencyWeight);
    }
  }

  lemma InverseIs(distance: real)
    requires distance >= 0.0
    ensures InverseScore(distance) == 1.0 / (1.0 + distance)
  {
    Reciprocal(1.0 + distance);
  }

  lemma NoBlend(similarity: real, freshness: real, weight: real)
    requires weight <= 0.0
    ensures Blend(similarity, freshness, weight) == similarity
  {
  }

  // Inner products.

  /** By inner product the score says little: every product between 0 and 1 counts as a
      perfect match, and the better ones above 1 count as none at all. */
  lemma InnerProductScores(dot: real)
    ensures DistanceToScore(-dot, V.InnerProduct) == 1.0 <==> 0.0 <= dot <= 1.0
    ensures DistanceToScore(-dot, V.InnerProduct) == 0.0 <==> dot > 1.0
  {
    if dot < 0.0 {
      var q := 1.0 / (1.0 - dot);
      assert q * (1.0 - dot) == 1.0;
      V.Sign(q, 1.0 - dot);
      assert (1.0 - q) * (1.0 - dot) == -dot;
      V.Sign(1.0 - q, 1.0 - dot);
    } else if dot < 1.0 {
      var q := 1.0 / (1.0 - dot);
      assert q * (1.0 - dot) == 1.0;
      assert (q - 1.0) * (1.0 - dot) == dot;
      V.Sign(q - 1.0, 1.0 - dot);
    } else if dot > 1.0 {
      var q := 1.0 / (1.0 - dot);
      assert (-q) * (dot - 1.0) == 1.0;
      V.Sign(-q, dot - 1.0);
    }
  }

  /** So a larger product never scores less than a smaller one exactly when the two are not on
      different sides of 1, and scores more exactly when the smaller one is negative and the
      larger one no more than 1. */
  lemma InnerProductOrder(x: real, y: real)
    requires x < y
    ensures DistanceToScore(-x, V.InnerProduct) <= DistanceToScore(-y, V.InnerProduct) <==> !(x <= 1.0 < y)
    ensures DistanceToScore(-x, V.InnerProduct) < DistanceToScore(-y, V.InnerProduct) <==> x < 0.0 && y <= 1.0
  {
    hide InverseScore;
    InnerProductScores(x);
    InnerProductScores(y);
    ScoreInUnit(-x);
    ScoreInUnit(-y);
    if y < 0.0 {
      NegativeProducts(x, y);
    }
  }

  lemma ScoreInUnit(distance: real)
    ensures 0.0 <= DistanceToScore(distance, V.InnerProduct)
    ensures DistanceToScore(distance, V.InnerProduct) <= 1.0
  {
  }

  lemma NegativeProducts(x: real, y: real)
    requires x < y < 0.0
    ensures InverseScore(-x) < InverseScore(-y)
  {
    var p, q := 1.0 / (1.0 - x), 1.0 / (1.0 - y);
    Reciprocal(1.0 - x);
    Reciprocal(1.0 - y);
    ReciprocalFalls(1.0 - y, 1.0 - x);
    assert p * (1.0 - x) == 1.0 && q * (1.0 - y) == 1.0;
    assert p != q;
  }

  function Product(query: Query, entry: Entry): real {
    if |entry.embedding| == |query.vector| then V.Dot(query.vector, entry.embedding) else 0.0
  }

  lemma ProductIs(query: Query, entry: Entry)
    requires |entry.embedding| == |query.vector| && query.metric == V.InnerProduct
    ensures V.DistanceOf(query.metric, query.vector, entry.embedding, query.sqrt) == -Product(query, entry)
  {
  }

  /** What ranks where by inner product: without recency weighting the largest product comes
      first, whatever it scores. With it, of two equally fresh entries one with a product above 1
      never comes before one without. */
  lemma InnerProductRanking(query: Query, opts: VectorOptions, around: Surroundings, table: Table,
                            kept: seq<Match>, hits: seq<Hit>, i: nat, j: nat)
    requires KeyedById(table) && Answers(query, opts, around, table, kept, hits)
    requires query.metric == V.InnerProduct && i < j < |hits|
    ensures opts.recencyWeight <= 0.0 ==> Product(query, hits[i].entry) >= Product(query, hits[j].entry)
    ensures 0.0 < opts.recencyWeight < 1.0 && around.freshness(hits[i].entry) == around.freshness(hits[j].entry) ==>
      !(Product(query, hits[j].entry) <= 1.0 < Product(query, hits[i].entry))
  {
    hide Answers, DistanceToScore, BlendScore, Product;
    var u := MadeOf(query, opts, around, table, kept, hits, i);
    var v := MadeOf(query, opts, around, table, kept, hits, j);
    if opts.recencyWeight <= 0.0 {
      KeptInOrder(query, opts, around, table, kept, hits, u, v);
      ProductIs(query, hits[i].entry);
      ProductIs(query, hits[j].entry);
    } else if opts.recencyWeight < 1.0 {
      ProductIs(query, hits[i].entry);
      ProductIs(query, hits[j].entry);
      var x, y := Product(query, hits[i].entry), Product(query, hits[j].entry);
      InnerProductScores(x);
      InnerProductScores(y);
      BlendOrders(DistanceToScore(-x, V.InnerProduct), DistanceToScore(-y, V.InnerProduct),
                  around.freshness(hits[i].entry), opts.recencyWeight);
      ScoreInUnit(-y);
    }
  }

  lemma KeptInOrder(query: Query, opts: VectorOptions, around: Surroundings, table: Table,
                    kept: seq<Match>, hits: seq<Hit>, u: nat, v: nat)
    requires Answers(query, opts, around, table, kept, hits) && u < v < |kept|
    ensures kept[u].distance <= kept[v].distance
  {
    hide FromFetch, NoRepeats;
    assert !Nearer()(kept[v], kept[u]);
  }

  /** And a threshold drops the products above 1 altogether unless recency counts. */
  lemma InnerProductThreshold(query: Query, opts: VectorOptions, around: Surroundings, table: Table,
                              kept: seq<Match>, hits: seq<Hit>, i: nat)
    requires KeyedById(table) && Answers(query, opts, around, table, kept, hits)
    requires query.metric == V.InnerProduct && opts.recencyWeight <= 0.0 && opts.threshold > 0.0 && i < |hits|
    ensures Product(query, hits[i].entry) <= 1.0
  {
    hide Answers, DistanceToScore, Product;
    var u := MadeOf(query, opts, around, table, kept, hits, i);
    ProductIs(query, hits[i].entry);
    InnerProductScores(Product(query, hits[i].entry));
  }

  /** Among equally fresh entries the blended scores are in the order of the similarities. */
  lemma BlendOrders(x: real, y: real, freshness: real, weight: real)
    requires 0.0 < weight < 1.0
    ensures BlendScore(x, freshness, weight) >= BlendScore(y, freshness, weight) <==> x >= y
  {
    hide BlendScore;
    if x >= y {
      BlendRises(y, x, freshness, weight);
    } else {
      BlendRises(x, y, freshness, weight);
    }
  }

  lemma BlendRises(x: real, y: real, freshness: real, weight: real)
    requires 0.0 < weight < 1.0 && x <= y
    ensures BlendScore(x, freshness, weight) <= BlendScore(y, freshness, weight)
    ensures x < y ==> BlendScore(x, freshness, weight) < BlendScore(y, freshness, weight)
  {
    assert V.Clamp(weight) < 1.0;
    hide V.Clamp;
    var w := V.Clamp(weight);
    Weighed(x, y, 1.0 - w);
  }

  lemma Weighed(x: real, y: real, w: real)
    requires w > 0.0 && x <= y
    ensures w * x <= w * y && (x < y ==> w * x < w * y)
  {
    V.Sign(y - x, w);
    assert (y - x) * w == w * y - w * x;
  }
}
