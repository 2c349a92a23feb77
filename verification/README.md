# Verification model of `known`

`known` is a knowledge graph with a search engine on top: entries with embeddings, typed and
weighted edges between them, a hierarchy of dotted scopes, and recorded sessions that reinforce
edge weights. This project models its algorithms and its store, and proves what they promise.

| file | what it models |
|---|---|
| `Model`, `Walks` | entries, edges, results, the read side of the store; walks and distance |
| `BreadthFirst`, `GraphSearch`, `Mesh` | traversal, shortest paths and path reconstruction, the induced neighbourhood graph |
| `Expansion`, `ExpansionLimits`, `Fusion`, `StableSort`, `Enrichment`, `HybridSearch` | multi-seed expansion and what it can miss, reciprocal rank fusion, the in-place insertion sort, the ranking pipeline |
| `Vectors`, `TopK`, `Similarity`, `VectorSearch`, `TextSearch`, `Suggest` | distances and scores, the two-pass nearest neighbour search, full-text search, what is built on them |
| `WeightDynamics`, `Reinforcement`, `SessionDatabase`, `ReinforceRuns` | the weight recurrence, session timelines, the transactional state machine, any number of its clients |
| `EntryStore`, `EntryHistory` | the entry, label and scope tables as an object, and all interleavings of its statements |
| `ScopePath`, `Like`, `Hierarchy` | path algebra, SQL patterns, the prefix-closed set of scopes |
| `EmbeddingCache` | the cache's critical sections under any interleaving |
| `EditDistance`, `RankingMetrics` | flag suggestions, graded ranking metrics |
| `RealPower`, `Sorting` | powers of reals; what the library sorts promise |

How the model reads the program:

- Floating-point numbers are reals. The square root is any function that is one; the logarithmic
  rank discount is any positive, strictly falling function.
- A ULID is the number it encodes, zero being the zero value. Go characters are Dafny characters;
  where the program takes lengths in bytes, so does the model.
- `sort.Slice` and map iteration are as loose as Go leaves them: any permutation in order, any
  order of visits.
- A storage call may fail wherever the reinforcement and the entry store make one; a count of such
  faults lets the contracts say what must happen without one. The search modules read a store that
  answers. What a search obtains from another service (the embedding of the query, which entries the
  full-text index matches and with what rank, freshness, case folding) is a parameter.
- The digest behind content hashes and cache keys is a parameter.

Where the code and its comments disagree, the model follows the code:

- Boosted edges do not rise above 0.5 (`model/edge.go:99`): one half is a barrier
  (`WeightDynamics.BoostedAboveNeutral`).
- Link suggestions are not the same on every call and backend (`query/suggest.go:39-44`) when
  matches tie at the end of the fetch (`Suggest.DeterminedExactlyWhen`), and on the text path the
  weaker match comes first (`Suggest.TextScoreIsInverted`).
- Inner-product distances are not non-negative (`query/query.go:219`): good matches all score 1 and
  the best ones 0 (`VectorSearch.InnerProductScores`, exactly when a better match scores less in
  `VectorSearch.InnerProductOrder`, and what that does to results in `VectorSearch.InnerProductRanking`).
- Recency weighting does not reorder before truncating (`query/vector.go:54-55`) unless something is
  excluded: no more is fetched than returned (`VectorSearch.RecencyOnlyReorders`, and exactly when the
  best are returned in `VectorSearch.BestExactlyWhen`).
- Text scores are not similarities (`query/query.go:227-229`): they fall as matches get better. A
  threshold drops the best matches (`TextSearch.ThresholdKeepsTheWeak`), and under recency weighting
  the positions the fusion goes by (`query/hybrid.go:15-16`) are in the order of that score
  (`TextSearch.RecencyTurnsAround`).
- Demotion does not push a superseded entry below its correction (`query/hybrid.go:96-98`,
  `query/query.go:162-164`) from ten times its score on (`HybridSearch.CorrectionIsOutranked`, and
  exactly when in `HybridSearch.SupersededLeadsExactlyWhen`).
- Processing is not idempotent by the table of processed sessions (`query/reinforce.go:126-130`):
  sessions are listed outside the transactions, and overlapping calls can apply one twice
  (`ReinforceRuns.StaleListingAppliesTwice`, and exactly when in `ReinforceRuns.OnceExactlyWhenFresh`).
- Several seeds expanded to depth 2 or more do not find all they reach
  (`ExpansionLimits.CompleteExactlyWhen`, and exactly what they find in `Expansion.WaveIsExact`).
- An update that returns an error can have replaced the row: it is no transaction. Without a fault
  that is so exactly when the row could be replaced and a label is given twice
  (`EntryStore.Store.Update`; `EntryHistory.RepeatedLabelBreaksOff` has the run).
- "All descendants" of a scope can include others (`Hierarchy.PatternCanMislead`, and exactly when in
  `Hierarchy.PatternIsExact`), deleting a scope can orphan what is below
  (`EntryStore.Store.DeleteScope`), and so can a sweep between the statements of another
  client (`EntryHistory.SweepBetweenInsertions`, and exactly when in `EntryHistory.ClosedExactlyWhenCareful`).

## Model

| member | source | states |
|---|---|---|
| Model.Store.EdgesFrom | storage/sqlite/edge.go:104-106 | exactly the edges leaving an entry, of the given type if one is given |
| Model.Store.EdgesTo | storage/sqlite/edge.go:109-111 | exactly the edges arriving at an entry, of the given type if one is given |
| Walks.WalkSnoc | query/graph.go:121-123 | extending a walk by an edge that may be followed from its end is a walk, ending at the edge's other end |
| Walks.WalkConcat | query/graph.go:121-123 | two walks joined are a walk exactly when the second starts where the first ends |
| BreadthFirst.Discovered | query/graph.go:107-138 | queueing an unvisited neighbour with the walk through the current node keeps the frontier ordered by depth and closed under edges |
| BreadthFirst.ShutOut | query/graph.go:112-116 | so does skipping a neighbour whose entry is gone |
| BreadthFirst.Complete | query/graph.go:68-140 | every walk within the limit ends at a discovered node whose recorded walk is no longer |
| BreadthFirst.NotYetFound | query/graph.go:195-213 | a node not discovered while a level is expanded is farther away than that level |
| BreadthFirst.Exact | query/graph.go:68-140 | when the queue is empty the discovered nodes are exactly those within the limit, each with a shortest walk |
| GraphSearch.Incident | query/graph.go:77-93 | the fetched edges are exactly those touching the node in the wanted direction, of the pushed-down type |
| GraphSearch.IncidentFollows | query/graph.go:95-99 | after the type check, the edges tried are exactly those the traversal may follow, whether one type, several or none were asked for |
| GraphSearch.Traverse | query/graph.go:18-148 | every present entry within filtered, directed distance 1 to MaxDepth, walking only through present entries, exactly once, by non-decreasing depth, each reported for a shortest walk; missing start ID and missing start entry are errors; terminates by unvisited IDs, then queue length |
| GraphSearch.PlainHitIsExact | query/graph.go:125-130 | a reported depth is the true distance and the reported edge path a shortest walk to the entry |
| GraphSearch.ShortestIsSimple | query/graph.go:201-213 | a shortest path visits no node twice, so picking the unseen end of each edge reconstructs it |
| GraphSearch.BuildPathResults | query/graph.go:230-272 | any edges lead to present entries, each once, never the start, by increasing depth, each at an end of the edge that brings its depth; the edges of a walk that visits no node twice, to exactly the present nodes of that walk, whatever way they point |
| GraphSearch.PathHitsInOrder | query/graph.go:230-272 | if every entry on the path is present, the results are its node sequence in order, at depths 1 to n, each with the part of the path leading to it |
| GraphSearch.FindPath | query/graph.go:153-225 | for distinct IDs a path is returned exactly when an undirected one of at most maxDepth edges exists, deleted entries included, and it is a shortest one; a zero ID is an error; nothing is returned for equal IDs |
| GraphSearch.PathAnswerInOrder | query/graph.go:153-272 | with every entry on hand the answer spells out a shortest path node by node and ends at the target |
| Mesh.SortEdges | webui/api.go:226-228 | the same edges in strictly ascending ID order |
| Mesh.CollectEdges | webui/api.go:520-552 | exactly the store's edges with both ends among the results, each once |
| Mesh.BuildMesh | webui/api.go:520-552 | one node per result in order, and exactly the edges induced by the results, ascending |
| Mesh.Neighbors | webui/api.go:465-507 | traversal and mesh together give the subgraph induced by the ball around the start |
| EditDistance.Levenshtein | cmd/add.go:402-432 | the two swapped rows return the least number of insertions, deletions and substitutions turning one string into the other |
| EditDistance.LevIsLowerBound | cmd/add.go:402-432 | no script of n single-character edits does with fewer than the recurrence says |
| EditDistance.LevIsReached | cmd/add.go:402-432 | and some script needs no more |
| EditDistance.LevIsEditDistance | cmd/add.go:402-432 | so the recurrence is the edit distance |
| EditDistance.ZeroOnlyOnEqual | cmd/add.go:402-432 | distance 0 exactly between equal strings |
| EditDistance.Symmetric | cmd/add.go:402-432 | the distance is symmetric |
| EditDistance.Triangle | cmd/add.go:402-432 | the distance obeys the triangle inequality |
| EditDistance.NearestFlag | cmd/add.go:357-399 | the flag returned is a closest candidate, the one shortest in bytes that extends the name if a closest one does, else the first, within the length bound and under the acceptance threshold; nothing is returned only if that candidate misses the threshold or none is within the bound |
| EditDistance.AcceptedMeans | cmd/add.go:385-398 | between ASCII names a distance is accepted if it is zero or one more than it is at most four fifths of the longer length |
| EditDistance.BytesOfOne | cmd/add.go:372-391 | a character counts for its bytes in UTF-8 |
| StableSort.SortResultsByScore | query/vector.go:117-124 | in place: descending by score, with equal scores in their old order |
| StableSort.StableSortIsPermutation | query/vector.go:117-124 | such an order is a permutation |
| StableSort.StableSortIsUnique | query/vector.go:117-124 | and there is only one |
| StableSort.StableOrder | query/vector.go:117-124 | in it one of two different results comes before the other exactly when its score is higher, or the same and it came before |
| Expansion.ExpandFromEntry | query/hybrid.go:124-216 | from one seed: every present entry it reaches within the depth through entries not seen before, once, with the seed's score times weight times 0.8 per edge of a shortest walk; the seen set grows by those and by absent nodes only |
| Expansion.ExpandAll | query/hybrid.go:49-83 | seed by seed, each contributes exactly what it reaches through entries that are no seeds and that no earlier seed found |
| Expansion.WavesAreDistinct | query/hybrid.go:49-83 | seeds and expansion results together hold each entry at most once |
| Expansion.WaveIsFromSeed | query/hybrid.go:194-205 | each result has a walk from its seed, as long as its depth, whose weights and decays make its score |
| Expansion.OneStepScore | query/hybrid.go:194-205 | a result one step away has the seed's score times the weight of an edge between them, one half where none is set, times 0.8 |
| Expansion.NextStepScore | query/hybrid.go:194-205 | and each further step takes its share again |
| Expansion.ExpansionDecays | query/hybrid.go:194-205 | with weights in [0, 1] a result has at most 0.8^depth of its seed's score, and not less than 0 |
| Expansion.WaveIsExact | query/hybrid.go:181-192 | a seed finds a node exactly when it reaches it without passing through seeds or nodes found before |
| Expansion.SingleSeedIsComplete | query/hybrid.go:68-83 | a single seed finds everything a traversal from it finds |
| Expansion.DepthOneIsComplete | query/hybrid.go:68-83 | at depth 1 every present neighbour of every seed is found |
| Expansion.SeedsBlockEachOther | query/hybrid.go:181-184 | a family of stores in which at depth 2 a node two hops from one seed is missed because another seed reached the node between at its own limit |
| ExpansionLimits.CompleteExactlyWhen | query/hybrid.go:68-83 | whatever the direction and the edge types, n seeds expanded to depth d find everything within d steps of a seed in every store exactly when n is at most 1 or d is at most 1 |
| ExpansionLimits.MissedNode | query/hybrid.go:181-192 | for any n and d of at least 2, any direction and any types, a store in which something is missed |
| ExpansionLimits.ApartIsComplete | query/hybrid.go:181-192 | in one store any seeds to any depth find everything if nothing is within reach of two of them |
| Fusion.FuseByRRF | query/hybrid.go:227-274 | every ID of the two lists once, in descending order, with the sum of its shares 1/(k+rank); of repeated IDs a later vector result overwrites an earlier one and text results add up |
| Fusion.FusedScorePositive | query/hybrid.go:236-264 | fused scores are positive |
| Fusion.FusedScoreBound | query/hybrid.go:236-264 | and, unless the text results repeat an ID, at most 2/(k+1) |
| Fusion.FusedScoreAtRanks | query/hybrid.go:236-264 | for lists without repetitions the score is 1/(k + 1 + rank) for each list the ID is in |
| Fusion.AheadInBothIsAhead | query/hybrid.go:227-274 | ranked ahead in both lists means a strictly higher score and an earlier place |
| Fusion.FusionConservesScore | query/hybrid.go:236-264 | the scores sum to the shares of all ranks of both lists |
| VectorSearch.SearchVector | query/vector.go:14-103 | the answer is made from a legal fetch: what is not excluded and passes the threshold, nearest first or, with recency weighting, in stable order of blended score, cut to the limit; an empty text, an empty scope and a missing embedding are errors |
| VectorSearch.AnswersAreClean | query/vector.go:57-95 | each entry at most once, the limit of them or all that are kept, none excluded, none below the threshold, best first under recency weighting |
| VectorSearch.KeptMeans | query/vector.go:35-75 | kept are exactly those of a nearest set, of three times the limit or 30 with exclusions and else of the limit, that are not excluded and reach the threshold |
| VectorSearch.CosineScores | query/query.go:211-214 | by cosine distance a result scores one minus half its distance, blended with its freshness: the similarity for a weight of 0 or less, the freshness for 1 or more, the weighted mean in between |
| VectorSearch.EuclideanScores | query/query.go:215-217 | by Euclidean distance one over one more than the distance, blended likewise |
| VectorSearch.ExcludedMeans | query/vector.go:105-114 | content is excluded exactly when, case aside, one of the patterns stands somewhere in it |
| VectorSearch.RoomIs | query/vector.go:35-42 | with patterns the fetch has room for twice the limit beyond it, and for up to 30 in all, else for none |
| VectorSearch.NearestAreAnswered | query/vector.go:35-95 | without recency weighting, by cosine or Euclidean distance, the answer is the nearest admissible entries of the whole store, best first, as long as the fetch has room for the excluded ones |
| VectorSearch.NearestExactlyWhen | query/vector.go:35-95 | without recency weighting, by any metric, every legal fetch leads to nearest admissible entries of the whole store exactly when it has room for those and for all inadmissible ones no farther than each |
| VectorSearch.BestExactlyWhen | query/vector.go:35-95 | with recency weighting, every legal fetch leads to matches that score best among all admissible ones of the whole store exactly when the fetch, which goes by distance, has room for each that scores more than one of the best and for as many as are wanted of those that score no less |
| VectorSearch.RecencyOnlyReorders | query/vector.go:35-95 | when nothing is excluded the results are the nearest entries that pass the threshold, reordered, whatever the recency weight |
| VectorSearch.ScoresAreShares | query/query.go:209-278 | with freshness in [0, 1] every score is in [0, 1] |
| VectorSearch.InnerProductScores | query/query.go:217-220 | by inner product a score is 1 exactly for products in [0, 1] and 0 exactly for those above 1 |
| VectorSearch.InnerProductOrder | query/query.go:217-220 | of two products the larger never scores less exactly when they are not on different sides of 1, and scores more exactly when the smaller is negative and the larger at most 1 |
| VectorSearch.InnerProductRanking | query/vector.go:47-95 | without recency weighting the largest product comes first whatever it scores; with a weight between 0 and 1, of two equally fresh entries one with a product above 1 never comes before one without |
| VectorSearch.InnerProductThreshold | query/vector.go:72-75 | without recency weighting a positive threshold answers no product above 1 |
| Enrichment.EnrichSuperseded | query/hybrid.go:278-297 | in place: every result gets its superseded status unless it has one |
| Enrichment.EnrichmentIsExact | query/hybrid.go:278-297 | a result is superseded exactly when an entry supersedes it, and names exactly those entries |
| HybridSearch.DemoteSuperseded | query/hybrid.go:104-109 | in place: exactly the superseded results lose nine tenths of their score |
| HybridSearch.Rank | query/hybrid.go:85-119 | stable order by raw score, enrichment, demotion, stable order again, cut |
| HybridSearch.SearchHybrid | query/hybrid.go:21-120 | the vector search's results, fused with those of the text search without a threshold if it is on and finds any and then cut, are the seeds; the results are the ranking of these together with all that each of them expands to; no entry is a candidate twice; it fails exactly when the vector search does |
| HybridSearch.DefaultFusedScore | query/hybrid.go:227-264 | without a requested constant, 1/61 for a first place, 1/62 for a second, and so on |
| HybridSearch.FullListJudges | query/hybrid.go:91-111 | before the cut the list holds each candidate's enriched and demoted form, once, descending |
| HybridSearch.BestAreReturned | query/hybrid.go:104-117 | as many results as allowed, each candidate at most once, and no candidate left out scores strictly more than one returned |
| HybridSearch.SupersededLeadsExactlyWhen | query/hybrid.go:95-111 | a superseded entry comes before one that is not exactly when its raw score is more than ten times the other's, or just ten times a positive one, or both are zero and it was the earlier candidate |
| HybridSearch.CorrectionIsOutranked | query/query.go:162-164 | for instance an entry scoring 1.0 comes before its own correction scoring 0.1 |
| TextSearch.Rank | storage/sqlite/entry.go:616-658 | the first pass selects the best of the live matches in scope by rank and ID |
| TextSearch.SearchIndex | storage/sqlite/entry.go:604-696 | ascending by rank and ID; the rows of the winners that still exist, and if nothing is written between the passes the best matches |
| TextSearch.BestMeans | storage/sqlite/entry.go:604-696 | in plain words: live entries in scope that the index matches, with their ranks; when some are left out, as many as asked for and each ahead of all left out by rank and ID |
| TextSearch.SearchText | query/text.go:14-92 | the answer is made from the best matches: what is not excluded and passes the threshold, best rank first or, with recency weighting, in stable order of blended score, cut to the limit and enriched; an empty text, an empty scope and a backend without an index are errors |
| TextSearch.TextIsDetermined | query/text.go:14-92 | the same tables and the same ranks give the same answer |
| TextSearch.TextScores | query/text.go:51-71 | a match scores 1/(1 - rank) for a negative rank and else 0, blended with its freshness |
| TextSearch.KeptMeans | query/text.go:27-62 | kept are exactly those of the best matches, three times the limit or 30 of them with exclusions and else the limit, that are not excluded and reach the threshold |
| TextSearch.TextAnswersAreClean | query/text.go:45-92 | each entry at most once, the limit of them or all that are kept, none excluded, none below the threshold |
| TextSearch.TextScoreIsInverted | query/query.go:230-235 | of two matches the one with the better rank scores less |
| TextSearch.ThresholdKeepsTheWeak | query/text.go:59-62 | without recency weighting a threshold t keeps exactly the matches with a rank from 1 - 1/t up to 0, the weak ones |
| TextSearch.RecencyTurnsAround | query/text.go:51-77 | with a recency weight between 0 and 1, of two equally fresh matches the weaker comes first |
| HybridSearch.HybridIsSound | query/hybrid.go:21-120 | from the query to the results, with weights and freshness in [0, 1]: distinct entries, best first, as many as allowed, each the judged form of a seed or of an entry on a walk from a seed with at most 0.8^depth of the seed's score; no score is negative |
| WeightDynamics.TouchMeans | query/reinforce.go:228-234 | a touch gives weight times decay plus boost unless a bound is in the way, the floor before the ceiling; an unset floor is 0.01, a decay that is not between 0 and 1 counts as none |
| WeightDynamics.EquilibriumIs | query/reinforce.go:228-234 | whenever weights decay there is one equilibrium, b/(1-d) |
| WeightDynamics.TouchContracts | query/reinforce.go:228-234 | one touch brings a weight at least by the decay factor closer to where the bounds put the equilibrium |
| WeightDynamics.Contraction | query/reinforce.go:228-234 | n equal touches leave at most d^n of the distance to there, for any weight, any boost and any bounds |
| WeightDynamics.TouchIsAffine | query/reinforce.go:228-234 | when no bound interferes a touch moves the weight along the segment to the equilibrium and stays in bounds |
| WeightDynamics.ClosedForm | query/reinforce.go:228-234 | the exact weight after n equal touches |
| WeightDynamics.DefaultBoostsAreActions | query/reinforce.go:82-100 | under the default configuration show earns 0.02, update and link 0.05, delete nothing |
| WeightDynamics.DefaultBounds | query/reinforce.go:60-78 | the default bounds are 0.01 and 1 |
| WeightDynamics.DefaultClosedForm | query/reinforce.go:60-78 | repeating show follows the exact curve to 0.2, update or link the one to 0.5 |
| WeightDynamics.HalfIsABarrier | query/reinforce.go:60-78 | for any mix of actions what a weight has above 0.5 shrinks by 0.9 a touch, and after the first touch it is in [0.01, 0.95] |
| WeightDynamics.BoostedAboveNeutral | model/edge.go:94-105 | exactly when a boosted edge ends above 0.5: never from 0.5, so the remark in the source does not hold for edges at the default |
| Reinforcement.FindActedEvents | query/reinforce.go:272-288 | exactly the events that act on something after a recall, in order |
| Reinforcement.ActedMeans | query/reinforce.go:272-288 | these are exactly the events that show, update, link or delete some entry and have a recall or a search before them |
| Reinforcement.TimelineMeans | query/reinforce.go:181-205 | what counts for an entry: an update or a link after a recall if there is one, else a show if there is one, else a deletion if there is one, else nothing |
| Reinforcement.BestOfIsStrongest | query/reinforce.go:187-201 | the action kept for an entry is the strongest mention, the first one among equals |
| Reinforcement.BestActions | query/reinforce.go:187-201 | the map has every mentioned entry with that action |
| SessionDatabase.BoostMeans | query/reinforce.go:82-254 | a session boosts an edge exactly when it showed, updated, linked or deleted an entry at one end after a recall or a search, by what is configured for the action that counts at one of the ends, or the general amount where nothing is |
| SessionDatabase.Database.CreateSession | storage/sqlite/session.go:22-37 | adds a session under a new ID or changes nothing; without a fault it fails only for a known ID; keeps the accounts |
| SessionDatabase.Database.EndSession | storage/sqlite/session.go:39-52 | ends an existing session or changes nothing; without a fault it fails only for an unknown one; keeps the accounts |
| SessionDatabase.Database.LogEvent | storage/sqlite/session.go:92-118 | appends an event or changes nothing; without a fault it fails only for an unknown session or a known event ID; keeps the accounts |
| SessionDatabase.Database.ListEvents | storage/sqlite/session.go:120-141 | every event of the session as often as it is there and no other, oldest first, ties in any order; fails only by a fault |
| SessionDatabase.Database.UpdateWeight | storage/sqlite/edge.go:71-88 | sets one edge's weight or changes nothing; without a fault exactly when the edge exists and the weight is in [0, 1] |
| SessionDatabase.Database.TouchRows | query/reinforce.go:215-250 | touches exactly the fetched rows not touched before, each once, and counts them |
| SessionDatabase.Database.ProcessSession | query/reinforce.go:170-254 | touches every edge at an acted entry exactly once, with the boost one of its ends earned, and no other edge; returns how many; cannot fail without a fault when the weight bounds fit [0, 1] |
| SessionDatabase.Database.Begin | storage/sqlite/sqlite.go:64-74 | opens a transaction or joins the one that is open |
| SessionDatabase.Database.Finish | storage/sqlite/sqlite.go:76-87 | its owner commits everything or restores everything; one that joined does neither |
| SessionDatabase.Database.MarkProcessed | storage/sqlite/session.go:187-197 | adds the mark unless it is there, or changes nothing |
| SessionDatabase.Database.ReinforceSession | query/reinforce.go:141-153 | one session's effect together with its mark, or no trace at all; the latter only after a fault when the weight bounds fit [0, 1]; after it every session is still applied once exactly when this one was not marked before |
| SessionDatabase.Database.ListUnprocessedSessions | storage/sqlite/session.go:143-185 | exactly the ended, unmarked sessions, each once, oldest first |
| SessionDatabase.Database.Reinforce | query/reinforce.go:131-160 | processes listed sessions in order until a failure; earlier ones stay committed; on success, which only a fault can prevent when the weight bounds fit [0, 1], every ended session is marked; each logged session is applied once |
| SessionDatabase.OneMoreAccounted | query/reinforce.go:141-153 | committing a session keeps the accounts: the tables are the replay of one justified effect per marked session |
| SessionDatabase.LaterStillAccounts | storage/sqlite/session.go:39-118 | logging and ending sessions later does not disturb what was accounted for |
| SessionDatabase.ReplayIsFold | query/reinforce.go:228-242 | after any run an edge's weight is the fold of one touch per processed session that boosts it, in marking order |
| SessionDatabase.FoldIsTouchMany | query/reinforce.go:228-242 | under one configuration that fold is the weight recurrence |
| SessionDatabase.EveryRunSettles | query/reinforce.go:60-78 | after any run under the default configuration the bound towards 0.5 and the range [0.01, 0.95] hold for every touched edge |
| ReinforceRuns.ReachableAccounts | query/reinforce.go:131-160 | over every interleaving of any number of Reinforce calls with the recording of sessions, the edges are the replay of the committed effects, each justified by its session's timeline, and the marked sessions are exactly those with one |
| ReinforceRuns.StepApplies | query/reinforce.go:141-153 | a step applies a session at most once more, and a second time exactly when it starts on it while it is marked |
| ReinforceRuns.OnceExactlyWhenFresh | query/reinforce.go:131-153 | over a whole run a session is applied at most once exactly when no client starts on it while it is marked |
| ReinforceRuns.AloneIsOnce | query/reinforce.go:126-160 | calls that do not overlap apply every session at most once |
| ReinforceRuns.StaleListingAppliesTwice | query/reinforce.go:131-153 | a run in which two clients list the same session before either has processed it: it is applied twice, and a shown edge at the default weight ends at 0.443 instead of 0.47 |
| RankingMetrics.GainDoubles | bench/metrics.go:75-80 | grades that are not positive gain nothing, and each other one gains one more than twice the grade below it |
| RankingMetrics.DominatedDcg | bench/metrics.go:95-105 | if no prefix of gains sums to more, neither does the discounted sum, and only equal gains tie, for every positive strictly falling discount |
| RankingMetrics.TopSum | bench/metrics.go:117-126 | of falling grades no choice of as many has more gain than the front |
| RankingMetrics.RankedIsDominated | bench/metrics.go:95-127 | no prefix of any ranking of distinct IDs gains more than the ideal one |
| RankingMetrics.PerfectIsIdeal | bench/metrics.go:134-140 | a ranking in grade order with no better judgment left out has the ideal gains |
| RankingMetrics.IdealIsPerfect | bench/metrics.go:134-140 | and only such a ranking has |
| RankingMetrics.DCGAtK | bench/metrics.go:95-105 | the discounted sum of the first k gains, positions past the end adding nothing |
| RankingMetrics.IDCGAtK | bench/metrics.go:110-127 | that sum for the positive grades in falling order |
| RankingMetrics.IdealIsPositive | bench/metrics.go:134-138 | the normaliser is positive exactly when k is at least 1 and something is relevant |
| RankingMetrics.NDCGAtK | bench/metrics.go:129-140 | times the ideal discounted sum it is the discounted sum of the ranking; 0 when nothing is relevant or k is not positive; for distinct IDs it lies in [0, 1], and is 1 exactly when something is relevant and the ranking is perfect |
| Vectors.CosineDistance | storage/sqlite/vec.go:32-45 | the loop computes the cosine distance |
| Vectors.CauchySchwarz | storage/sqlite/vec.go:32-45 | dot(a,b)^2 is at most the product of the squared norms, with equality exactly for proportional vectors |
| Vectors.CosineLaws | storage/sqlite/vec.go:30-45 | cosine distance is symmetric and in [0, 2]; it is 0 exactly for the same direction and 2 exactly for opposite directions or a zero vector |
| Vectors.L2Distance | storage/sqlite/vec.go:48-55 | the loop computes the Euclidean distance |
| Vectors.EuclideanIsMetric | storage/sqlite/vec.go:48-55 | Euclidean distance is a metric |
| Vectors.InnerProductDistance | storage/sqlite/vec.go:59-65 | the loop computes the negative dot product |
| Vectors.CosineScoreIsExact | query/query.go:209-225 | the clamp never changes a cosine score, and nearer means strictly better |
| TopK.FrontIsTop | storage/sqlite/entry.go:546-552 | sorting and cutting selects a top k of the members |
| TopK.OverfetchIsTop | query/suggest.go:57-58 | taking the top m, dropping what may be dropped and taking the top k loses nothing if m - k is room for all that can be dropped |
| TopK.SameForEveryFetch | query/suggest.go:39-44 | the answer is the same for every legal fetch exactly when each of the best always has room in it |
| TopK.TopForEveryFetch | query/vector.go:35-42 | what is taken from any legal fetch is a top of all that may be kept exactly when the fetch has room for the best of them and for the rivals of each |
| TopK.BestForEveryFetch | query/vector.go:35-95 | fetch by one order, rank by another: what is taken from any legal fetch is a top of all that may be kept exactly when the fetch has room for each that is better than one of the best and for enough that are as good |
| Similarity.Rank | storage/sqlite/entry.go:491-552 | the first pass selects a nearest set of the live entries in scope with fitting dimension |
| Similarity.Fetch | storage/sqlite/entry.go:554-584 | the second pass has the row of every winner that still exists, once, with the distance measured before |
| Similarity.SearchSimilar | storage/sqlite/entry.go:480-596 | ascending by distance; if nothing is written between the passes, min(limit, n) candidates and none nearer left out; an empty vector is an error |
| Similarity.NearestMeans | storage/sqlite/entry.go:480-596 | in plain words: live entries in scope with an embedding of the right dimension, with their distances; when some are left out, as many as asked for and none farther away than one left out |
| Similarity.WinnersAreNearest | storage/sqlite/entry.go:480-596 | a nearest set of IDs becomes a nearest set of rows |
| Similarity.OnePassExactlyWhen | storage/sqlite/entry.go:554-589 | the answer is a nearest set of the table scanned exactly when no winner was written or deleted between the passes |
| Similarity.OnePassForAllWinners | storage/sqlite/entry.go:546-589 | it is so however ties are broken exactly when no candidate with fewer than limit nearer ones was |
| Suggest.LinkedIDs | query/suggest.go:132-150 | the IDs at the other ends of the entry's edges |
| Suggest.LinkedMeans | query/suggest.go:132-150 | an ID is linked exactly when an edge joins it to the entry in either direction |
| Suggest.Choose | query/suggest.go:80-127 | self and linked entries dropped, the rest in order of score, scope and ID, cut |
| Suggest.FetchIsEnough | query/suggest.go:57-58 | k + 1 + number linked leaves room for every exclusion |
| Suggest.SuggestLinks | query/suggest.go:46-128 | with an embedding: min(k, eligible) entries, k being 3 unless positive, none self or linked, and no eligible entry of the whole store left out scores strictly higher; without one, the first k by score of the k + 1 + number linked best text matches, self and linked ones aside; nothing for empty content; by score, then entries of the same scope, then by ID |
| Suggest.EligibleMeans | query/suggest.go:60-127 | eligible are exactly the live entries with an embedding of the same dimension, other than the entry and without an edge to or from it, scored by one minus half their distance |
| Suggest.DeterminedExactlyWhen | query/suggest.go:39-44 | the promised determinism holds exactly when each of the best suggestions has room in the fetch with everything no farther away |
| Suggest.TieCanIgnoreScope | query/suggest.go:39-44 | a store in which one suggestion is asked for and a legal fetch leads to an entry of another scope instead of a tied one of the same scope |
| Suggest.TextScoreIsInverted | query/query.go:230-235 | of two text matches the worse one gets the higher score and comes first |
| Suggest.TextPathIsDetermined | query/suggest.go:39-44 | on the text path the promised determinism holds |
| Like.MatchesConcat | storage/sqlite/scope.go:131-157 | a pattern in two parts matches exactly the texts that can be cut into two matching parts |
| Like.BelowMatches | storage/sqlite/scope.go:143-157 | the pattern for what is below a scope matches exactly the texts with a dot after something the scope matches |
| Like.BelowChildIsBelow | storage/sqlite/scope.go:146-157 | what matches below a scope matches below its parent, wildcards and case folding included |
| Hierarchy.AllOfChain | storage/sqlite/scope.go:45-59 | joining ever longer fronts of the segments visits exactly the path and its front up to each dot |
| Hierarchy.EnsuringKeepsClosed | storage/sqlite/scope.go:45-59 | however far the insertions of one path get, scopes closed under parents stay closed |
| Hierarchy.InsertingKeepsClosed | storage/sqlite/scope.go:45-59 | a single insertion keeps them closed exactly when it finds its scope or the one above it |
| Hierarchy.SweepKeepsClosed | storage/sqlite/scope.go:146-157 | so they do under the removal of empty scopes |
| Hierarchy.DeletingKeepsClosed | storage/sqlite/scope.go:88-98 | and under the deletion of one scope exactly when nothing lies below it |
| Hierarchy.PatternIsExact | storage/sqlite/scope.go:131-143 | the pattern finds every descendant, and only those exactly when no other scope with something below it reads like the path |
| Hierarchy.PatternCanMislead | storage/sqlite/scope.go:131-143 | for every valid path there are scopes among which the pattern finds one that is no descendant, for instance below the same path with its first letter in the other case |
| EntryStore.Store.EnsureHierarchy | storage/sqlite/scope.go:45-59 | adds the path and all above it; a failure, which takes a fault, leaves a leading part of them |
| EntryStore.Store.SaveLabels | storage/sqlite/entry.go:904-914 | replaces an entry's labels; without a fault it fails exactly when a label is given twice, and then the labels before it are saved |
| EntryStore.NextSaved | storage/sqlite/entry.go:908-912 | the next label goes in exactly when it did not come before |
| EntryStore.Store.CreateInner | storage/sqlite/entry.go:56-130 | a new row with its scopes and labels; a failure may leave some scopes or the row with some of its labels to the transaction; without a fault it fails exactly for a taken ID, a taken content hash and scope, or a label given twice, and leaves the row exactly in the last case |
| EntryStore.Store.Create | storage/sqlite/entry.go:47-130 | in the caller's transaction if there is one, else in one of its own, of which a failure leaves nothing; without a fault it reports a duplicate exactly for a taken ID or a taken content hash and scope |
| EntryStore.Store.Upsert | storage/sqlite/entry.go:185-236 | one statement: rewrites the row with the same content hash and scope or inserts one; without a fault it fails exactly when the content is new and the ID taken |
| EntryStore.Store.CreateOrUpdateInner | storage/sqlite/entry.go:147-265 | the row with the caller's content hash and scope then holds the caller's columns and labels, under its old ID and one version on if it was there, else under the caller's; a failure may leave some scopes or the row with some of its labels; without a fault it fails exactly when a label is given twice or the content is new and the ID taken |
| EntryStore.Store.CreateOrUpdate | storage/sqlite/entry.go:134-265 | the same in the caller's transaction or one of its own, of which a failure leaves nothing; returns the row and labels that are there afterwards |
| EntryStore.Store.Get | storage/sqlite/entry.go:268-288 | the row and its labels; without a fault not-found exactly when there is none |
| EntryStore.Store.Update | storage/sqlite/entry.go:291-383 | succeeds exactly when the version stands, no other row has the new content, no label is given twice and there is no fault; without a fault it has replaced the row exactly when the first two hold, so that it fails with the row replaced exactly when they do and a label is given twice; with one, a failure has replaced the row exactly when they hold and the statement that replaces it went through; the error is not-found or a version conflict, without a fault, exactly when that is the reason |
| EntryStore.Store.Delete | storage/sqlite/entry.go:386-396 | removes the row and its labels; without a fault it fails exactly for an unknown ID |
| EntryStore.Store.DeleteExpired | storage/sqlite/entry.go:728-739 | keeps exactly the entries without an expiry or with a later one, and their labels, and counts the others; it fails only by a fault, and then changes nothing |
| EntryStore.Store.DeleteEmpty | storage/sqlite/scope.go:146-157 | removes exactly the scopes no entry stands in or below by the pattern and counts them; it fails only by a fault, and then changes nothing |
| EntryStore.Store.DeleteScope | storage/sqlite/scope.go:88-98 | removes the scope, without a fault exactly when it exists and no entry stands in it; closed scopes stay closed exactly when nothing lies below it |
| EntryStore.Store.ListDescendants | storage/sqlite/scope.go:131-143 | every descendant, and nothing else exactly when no other scope with something below it reads like the path |
| EntryStore.CreateKeeps | storage/sqlite/entry.go:56-130 | creating keeps content hash and scope unique, every entry's scope and every label's entry present, and closed scopes closed |
| EntryStore.OverwriteKeeps | storage/sqlite/entry.go:147-265 | so does overwriting |
| EntryStore.ReplaceKeeps | storage/sqlite/entry.go:291-383 | so does replacing a row, also into another scope, and also if its labels are not all saved |
| EntryStore.SweepKeeps | storage/sqlite/scope.go:146-157 | so does sweeping empty scopes |
| EntryHistory.ReachableIsSound | storage/sqlite/entry.go:47-396 | in every state of every interleaving of any number of clients, statement by statement, there is at most one row per content hash and scope, and every entry's scope and every label's entry is there |
| EntryHistory.ClosedExactlyWhenCareful | storage/sqlite/scope.go:45-157 | over such a run the scopes stay closed under parents throughout exactly when every insertion finds, at the moment it is made, its scope or the one above it, and every deleted scope has nothing below it |
| EntryHistory.ApartIsClosed | storage/sqlite/scope.go:45-157 | it is enough that no scope is removed while a client is past its first insertion, and that scopes are deleted from below |
| EntryHistory.SweepBetweenInsertions | storage/sqlite/scope.go:45-157 | for every path of two or more segments, a run in which a sweep between two insertions leaves a scope without its parent |
| EntryHistory.UpdateIsItsStatements | storage/sqlite/entry.go:291-383 | whatever the contract allows an undisturbed update to do is a run of its statements |
| EntryHistory.RepeatedLabelBreaksOff | storage/sqlite/entry.go:291-383 | whenever the row can be replaced and a label is given twice, a run of the statements without a fault that ends at the repeated label with the row replaced |
| EntryHistory.WritesRaiseVersions | storage/sqlite/entry.go:147-383 | each write of a row, whatever the call then reports, raises its version by exactly one and changes no other row; only the two creating operations make rows |
| EntryHistory.RowMovesOn | storage/sqlite/entry.go:315-352 | from a read on a row is as read, or newer, or gone, until its ID is used again |
| EntryHistory.NoLostUpdate | storage/sqlite/entry.go:291-383 | in any interleaving an update that replaces a row, whether or not the call then succeeds, replaces exactly the row its caller read unless the ID was used again in between |
| EntryHistory.UpdateReplacesWhatWasRead | storage/sqlite/entry.go:291-383 | with IDs never used again it always does |
| EntryHistory.OnlyOneUpdateWins | storage/sqlite/entry.go:291-383 | of two updates based on the same read at most one replaces the row, even if that one reports a failure |
| EntryHistory.ReusedIdLosesWrite | storage/sqlite/entry.go:291-383 | with an ID used again, a run in which an update replaces a row nobody read |
| EntryHistory.SavingTwiceIsOneRow | storage/sqlite/entry.go:132-265 | saving the same content in the same scope again overwrites the same row |
| ScopePath.ValidByCodes | model/scope.go:10-19 | a segment is a letter and then letters, digits, underscores and hyphens, by their codes |
| ScopePath.ParseScopePath | model/scope.go:40-55 | the segments of a valid path, an error for any other |
| ScopePath.JoinSplit | model/scope.go:45-80 | joining the segments of any path gives the path |
| ScopePath.SplitJoin | model/scope.go:45-80 | splitting joined segments without dots gives the segments |
| ScopePath.AncestorIsPrefix | model/scope.go:89-94 | an ancestor is exactly a proper prefix of the segments |
| ScopePath.AncestorIsStrictOrder | model/scope.go:89-99 | ancestry is irreflexive, asymmetric and transitive |
| ScopePath.ParentSegments | model/scope.go:75-81 | the parent of a valid path has all its segments but the last, and is valid |
| ScopePath.AncestorsAreParents | model/scope.go:75-94 | the ancestors of a valid path are exactly its parent and the parent's ancestors |
| ScopePath.CommonAncestor | model/scope.go:119-135 | the longest path at or above both, the empty string exactly when there is none or a path is invalid |
| EmbeddingCache.CachedEmbedder.Embed | embed/cache.go:28-48 | the inner answer, whatever other clients do between the critical sections, unless the inner embedder fails; the cache stays sound; a cached text asks the inner embedder nothing, another one asks it once and stores the answer |
| EmbeddingCache.CachedEmbedder.EmbedBatch | embed/cache.go:52-90 | the inner answers position by position, under the same interference and with the same exception; the inner embedder is asked once for exactly the texts that are not cached, in order, and not at all if there are none, and its answers are stored |
| EmbeddingCache.CachedEmbedder.ReadAll | embed/cache.go:61-71 | what is cached at each position, and the texts and positions that miss, in order |
| EmbeddingCache.CachedEmbedder.WriteAll | embed/cache.go:82-87 | fills the missing positions and the cache with the computed vectors |
| EmbeddingCache.FilledIsAnswers | embed/cache.go:52-90 | lookups that are right plus computed rest give every position its answer, repeated texts included |
| EmbeddingCache.StoringIsSound | embed/cache.go:82-87 | storing inner answers keeps every cached value an inner answer |
| EmbeddingCache.RunStaysOnTrack | embed/cache.go:28-114 | in every interleaving of any number of clients the cache and every client stay right |
| EmbeddingCache.AnswersAreRight | embed/cache.go:28-114 | all runs return the inner answers exactly when texts that share a key share their embedding |
| EmbeddingCache.CollidingRun | embed/cache.go:28-48 | otherwise a run in which a client gets the embedding of another text |
| EmbeddingCache.KeysAreDistinct | embed/cache.go:117-123 | with a collision-free digest the separator keeps models and texts apart |

## Left out

- EntryHistory.ReachableIsSound: a transaction of several operations appears as their steps one after the other; that other clients see none of them before it commits, and that a rollback takes them back, is not modelled.
- EmbeddingCache.CachedEmbedder.EmbedBatch: the inner embedder is deterministic and returns one vector per text; sharing of the returned slices with the cache is not modelled.
- Conflict annotations (`enrichConflicts`), titles, provenance, metadata and timestamps of entries: carried along by the program without influencing what is proved. Searches leave out the labels of their results.
- Full-text search: tokens, quoting and BM25; which entries match, and with what rank, is a parameter.
- Edge creation and deletion, foreign keys from edges to entries and their cascades; edges may dangle.
- `Upsert` of scopes, the recursive scope delete command and the scope tree printer.
- The whole-graph and path views of the web interface (`buildGraph`, `pathGraph`); the neighbourhood view is the hard one.
- Precision, reciprocal rank and their means: single sums over one list.
- Vector serialisation, schema migrations, the PostgreSQL backend, embedders, commands and HTTP handling.
- Overflow and rounding of floating-point numbers.
