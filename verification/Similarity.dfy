/** Vector search in two passes over the entries table (`storage/sqlite/entry.go`). */
module Similarity {
  import opened Model
  import opened Sorting
  import opened TopK
  import EntryStore
  import Like
  import V = Vectors

  type Table = map<ID, Entry>

  datatype Candidate = Candidate(id: ID, distance: real)

  datatype Match = Match(entry: Entry, distance: real)

  /** An empty scope stands for all of them. */
  predicate InScope(scope: string, entryScope: string) {
    scope == "" || entryScope == scope || Like.Matches(Like.Below(scope), entryScope)
  }

  datatype Query = Query(vector: seq<real>, scope: string, now: int, metric: V.Metric, sqrt: real -> real) {

    /** The scan's `WHERE` clause. */
    predicate Selects(entry: Entry) {
      && entry.embedding != []
      && entry.embeddingDim == |vector|
      && !EntryStore.Expired(entry, now)
      && InScope(scope, entry.scope)
    }

    predicate IsCandidate(entry: Entry) {
      Selects(entry) && |entry.embedding| == |vector|
    }

    function DistanceTo(entry: Entry): real {
      if |entry.embedding| == |vector| then V.DistanceOf(metric, vector, entry.embedding, sqrt) else 0.0
    }

    ghost function Candidates(table: Table): set<Candidate> {
      CandidatesBut(table, {})
    }

    ghost function CandidatesBut(table: Table, left: set<ID>): set<Candidate> {
      set id | id in table && id !in left && IsCandidate(table[id]) :: Candidate(id, DistanceTo(table[id]))
    }

    /** Every entry of the table that could be returned. */
    ghost function Matches(table: Table): set<Match> {
      set id | id in table && IsCandidate(table[id]) :: Match(table[id], DistanceTo(table[id]))
    }
  }

  ghost predicate KeyedById(table: Table) {
    forall id :: id in table ==> table[id].id == id
  }

  function Closer(): (Candidate, Candidate) -> bool {
    (a: Candidate, b: Candidate) => a.distance < b.distance
  }

  function Nearer(): (Match, Match) -> bool {
    (a: Match, b: Match) => a.distance < b.distance
  }

  function Limit(limit: int): nat {
    if limit <= 0 then 10 else limit
  }

  ghost function Fetched(winners: set<Candidate>, table: Table): set<Match> {
    set c | c in winners && c.id in table :: Match(table[c.id], c.distance)
  }

  ghost predicate DistinctIds(candidates: set<Candidate>) {
    forall a, b :: a in candidates && b in candidates && a.id == b.id ==> a == b
  }

  method Measure(query: Query, embedding: seq<real>) returns (distance: real)
    requires |embedding| == |query.vector|
    ensures distance == V.DistanceOf(query.metric, query.vector, embedding, query.sqrt)
  {
    assert embedding[..|query.vector|] == embedding;
    match query.metric
    case Cosine => distance := V.CosineDistance(query.vector, embedding, query.sqrt);
    case L2 => distance := V.L2Distance(query.vector, embedding, query.sqrt);
    case InnerProduct => distance := V.InnerProductDistance(query.vector, embedding);
  }

  /** The first pass: IDs and distances of the winners, nearest first. */
  method Rank(query: Query, table: Table, limit: nat) returns (ranked: seq<Candidate>)
    ensures NoRepeats(ranked) && IsTop(query.Candidates(table), limit, Closer(), Members(ranked))
    ensures DistinctIds(Members(ranked))
  {
    hide IsTop, InOrder, NoRepeats, Members, Query.IsCandidate, Query.DistanceTo, Query.CandidatesBut;
    var candidates: seq<Candidate> := [];
    var ids := table.Keys;
    NoneYet(query, table);
    while ids != {}
      invariant ids <= table.Keys
      invariant NoRepeats(candidates) && Members(candidates) == query.CandidatesBut(table, ids)
      decreases ids
    {
      var id :| id in ids;
      NextRow(query, table, ids, id);
      ids := ids - {id};
      if query.Selects(table[id]) {
        var embedding := table[id].embedding;
        if |embedding| == |query.vector| {
          var distance := Measure(query, embedding);
          IsMeasured(query, table[id], distance);
          MembersSnoc(candidates, Candidate(id, distance));
          candidates := candidates + [Candidate(id, distance)];
        } else {
          NotMeasured(query, table[id]);
        }
      } else {
        NotMeasured(query, table[id]);
      }
    }
    assert Members(candidates) == query.Candidates(table);
    var sorted := SortSlice(candidates, Closer());
    Permuted(candidates, sorted);
    FrontIsTop(sorted, limit, Closer());
    ranked := sorted[..Min(limit, |sorted|)];
    FrontHasNoRepeats(sorted, Min(limit, |sorted|));
    TopHasDistinctIds(query, table, limit, Members(ranked));
  }

  lemma Permuted<T>(s: seq<T>, t: seq<T>)
    requires NoRepeats(s) && multiset(t) == multiset(s)
    ensures NoRepeats(t) && Members(t) == Members(s) && |t| == |s|
  {
    SameMembers(t, s);
    PermutationKeepsNoRepeats(s, t);
  }

  lemma FrontHasNoRepeats<T>(s: seq<T>, n: nat)
    requires NoRepeats(s) && n <= |s|
    ensures NoRepeats(s[..n])
  {
  }

  lemma NoneYet(query: Query, table: Table)
    ensures NoRepeats<Candidate>([]) && Members<Candidate>([]) == query.CandidatesBut(table, table.Keys)
  {
  }

  lemma NextRow(query: Query, table: Table, left: set<ID>, id: ID)
    requires left <= table.Keys && id in left
    ensures query.CandidatesBut(table, left - {id}) ==
      if query.IsCandidate(table[id])
      then query.CandidatesBut(table, left) + {Candidate(id, query.DistanceTo(table[id]))}
      else query.CandidatesBut(table, left)
    ensures forall d :: Candidate(id, d) !in query.CandidatesBut(table, left)
  {
    hide Query.IsCandidate, Query.DistanceTo;
  }

  lemma TopHasDistinctIds(query: Query, table: Table, limit: nat, winners: set<Candidate>)
    requires IsTop(query.Candidates(table), limit, Closer(), winners)
    ensures DistinctIds(winners)
  {
    hide Query.IsCandidate, Query.DistanceTo;
  }

  lemma IsMeasured(query: Query, entry: Entry, distance: real)
    requires query.Selects(entry) && |entry.embedding| == |query.vector|
    requires distance == V.DistanceOf(query.metric, query.vector, entry.embedding, query.sqrt)
    ensures query.IsCandidate(entry) && query.DistanceTo(entry) == distance
  {
  }

  lemma NotMeasured(query: Query, entry: Entry)
    requires !query.Selects(entry) || |entry.embedding| != |query.vector|
    ensures !query.IsCandidate(entry)
  {
  }

  /** The second pass: the winners' rows, in whatever order the table gives them. */
  method Fetch(ranked: seq<Candidate>, table: Table) returns (rows: seq<Match>)
    requires KeyedById(table) && DistinctIds(Members(ranked))
    ensures NoRepeats(rows) && Members(rows) == Fetched(Members(ranked), table)
  {
    var distById := map c | c in ranked :: c.id := c.distance;
    rows := [];
    var wanted := distById.Keys;
    while wanted != {}
      invariant wanted <= distById.Keys
      invariant NoRepeats(rows) && Members(rows) == RowsBut(distById, table, wanted)
      decreases wanted
    {
      var id :| id in wanted;
      NextFetched(distById, table, wanted, id);
      wanted := wanted - {id};
      if id in table {
        MembersSnoc(rows, Match(table[id], distById[id]));
        rows := rows + [Match(table[id], distById[id])];
      }
    }
    AllFetched(ranked, distById, table);
  }

  ghost function RowsBut(distById: map<ID, real>, table: Table, left: set<ID>): set<Match> {
    set id | id in distById && id !in left && id in table :: Match(table[id], distById[id])
  }

  lemma NextFetched(distById: map<ID, real>, table: Table, left: set<ID>, id: ID)
    requires KeyedById(table) && left <= distById.Keys && id in left
    ensures RowsBut(distById, table, left - {id}) ==
      RowsBut(distById, table, left) + if id in table then {Match(table[id], distById[id])} else {}
    ensures id in table ==> Match(table[id], distById[id]) !in RowsBut(distById, table, left)
  {
  }

  lemma AllFetched(ranked: seq<Candidate>, distById: map<ID, real>, table: Table)
    requires DistinctIds(Members(ranked))
    requires distById == map c | c in ranked :: c.id := c.distance
    ensures RowsBut(distById, table, {}) == Fetched(Members(ranked), table)
  {
    forall c | c in ranked
      ensures c.id in distById && distById[c.id] == c.distance
    {
      assert c in Members(ranked);
    }
  }

  /** A nearest set in plain words: live entries in scope whose dimension fits, with their
      distances, and when some are left out, as many as asked for and none of them further away
      than one left out. */
  lemma NearestMeans(query: Query, table: Table, limit: int, found: set<Match>)
    requires KeyedById(table) && IsTop(query.Matches(table), Limit(limit), Nearer(), found)
    ensures forall m :: m in found ==>
      && m.entry.id in table && m.entry == table[m.entry.id]
      && 0 < |m.entry.embedding| == m.entry.embeddingDim == |query.vector|
      && (m.entry.expiresAt.Some? ==> m.entry.expiresAt.value > query.now)
      && (query.scope == "" || m.entry.scope == query.scope ||
            Like.Matches(query.scope + ".%", m.entry.scope))
      && m.distance == V.DistanceOf(query.metric, query.vector, m.entry.embedding, query.sqrt)
    ensures forall id :: id in table ==>
      var e := table[id];
      && 0 < |e.embedding| == e.embeddingDim == |query.vector|
      && (e.expiresAt.Some? ==> e.expiresAt.value > query.now)
      && (query.scope == "" || e.scope == query.scope || Like.Matches(query.scope + ".%", e.scope))
      && (forall m :: m in found ==> m.entry.id != id) ==>
        && |found| == (if limit > 0 then limit else 10)
        && forall m :: m in found ==>
             m.distance <= V.DistanceOf(query.metric, query.vector, e.embedding, query.sqrt)
    ensures |found| <= if limit > 0 then limit else 10
  {
    hide Like.Matches, V.DistanceOf;
    var all := query.Matches(table);
    forall id | id in table && query.IsCandidate(table[id]) && forall m :: m in found ==> m.entry.id != id
      ensures |found| == Limit(limit)
      ensures forall m :: m in found ==> m.distance <= query.DistanceTo(table[id])
    {
      var left := Match(table[id], query.DistanceTo(table[id]));
      assert left in all - found;
      SubsetSize(found, all);
      forall m | m in found
        ensures m.distance <= left.distance
      {
        assert !Nearer()(left, m);
      }
    }
  }

  /** Two reads of the table, `scanned` and then `fetched`. When nothing was written in
      between, the answer is the one-pass specification: the nearest of all live entries in
      scope whose dimension fits, as many as the limit allows, nearest first. */
  method SearchSimilar(query: Query, scanned: Table, fetched: Table, limit: int) returns (r: Outcome<seq<Match>>)
    requires KeyedById(scanned) && KeyedById(fetched)
    ensures if query.vector == [] then r == Err(EmptyQuery) else r.Ok?
    ensures r.Ok? ==> NoRepeats(r.value) && InOrder(r.value, Nearer())
    ensures r.Ok? ==> forall i, j :: 0 <= i < j < |r.value| ==> r.value[i].distance <= r.value[j].distance
    ensures r.Ok? ==> exists winners ::
      && IsTop(query.Candidates(scanned), Limit(limit), Closer(), winners)
      && Members(r.value) == Fetched(winners, fetched)
    ensures r.Ok? && fetched == scanned ==>
      IsTop(query.Matches(scanned), Limit(limit), Nearer(), Members(r.value))
  {
    hide IsTop, InOrder, Query.Matches, Query.Candidates;
    if |query.vector| == 0 {
      return Err(EmptyQuery);
    }
    var ranked := Rank(query, scanned, Limit(limit));
    if fetched == scanned {
      WinnersAreNearest(query, scanned, Limit(limit), Members(ranked));
    }
    if |ranked| == 0 {
      assert Fetched(Members(ranked), fetched) == {} == Members([]);
      EmptyInOrder(Nearer());
      return Ok([]);
    }
    var rows := Fetch(ranked, fetched);
    var results := SortSlice(rows, Nearer());
    SameMembers(results, rows);
    PermutationKeepsNoRepeats(rows, results);
    assert Members(results) == Members(rows);
    NearestFirst(results);
    return Ok(results);
  }

  lemma NearestFirst(results: seq<Match>)
    requires InOrder(results, Nearer())
    ensures forall i, j :: 0 <= i < j < |results| ==> results[i].distance <= results[j].distance
  {
    forall i, j | 0 <= i < j < |results|
      ensures results[i].distance <= results[j].distance
    {
      assert !Nearer()(results[j], results[i]);
    }
  }

  lemma EmptyInOrder(less: (Match, Match) -> bool)
    ensures InOrder([], less)
  {
  }

  lemma WinnersAreNearest(query: Query, table: Table, limit: nat, winners: set<Candidate>)
    requires KeyedById(table) && IsTop(query.Candidates(table), limit, Closer(), winners)
    ensures IsTop(query.Matches(table), limit, Nearer(), Fetched(winners, table))
  {
    hide Query.IsCandidate, Query.DistanceTo;
    var row := (c: Candidate) => if c.id in table then Match(table[c.id], c.distance) else Match(EMPTY_ENTRY, 0.0);
    var all := query.Candidates(table);
    ImageIsTop(all, limit, Closer(), winners, row, Nearer());
    assert Image(winners, row) == Fetched(winners, table);
    assert Image(all, row) == query.Matches(table) by {
      forall m | m in query.Matches(table)
        ensures m in Image(all, row)
      {
        var id :| id in table && query.IsCandidate(table[id]) && m == Match(table[id], query.DistanceTo(table[id]));
        assert row(Candidate(id, query.DistanceTo(table[id]))) == m;
      }
    }
  }

  // Writes between the two reads.

  predicate Unwritten(scanned: Table, fetched: Table, id: ID) {
    id in scanned && id in fetched && fetched[id] == scanned[id]
  }

  /** The answer is the one-pass specification exactly when no winner was written or deleted
      between the reads. */
  lemma OnePassExactlyWhen(query: Query, scanned: Table, fetched: Table, limit: nat, winners: set<Candidate>)
    requires KeyedById(scanned) && KeyedById(fetched)
    requires IsTop(query.Candidates(scanned), limit, Closer(), winners)
    ensures IsTop(query.Matches(scanned), limit, Nearer(), Fetched(winners, fetched)) <==>
      forall c :: c in winners ==> Unwritten(scanned, fetched, c.id)
  {
    hide Query.IsCandidate, Query.DistanceTo;
    WinnersAreNearest(query, scanned, limit, winners);
    if forall c :: c in winners ==> Unwritten(scanned, fetched, c.id) {
      assert Fetched(winners, fetched) == Fetched(winners, scanned);
    } else {
      hide IsTop;
      var c :| c in winners && !Unwritten(scanned, fetched, c.id);
      CandidatesAreThere(query, scanned, limit, winners);
      WinnerIsLost(query, scanned, fetched, limit, winners, c);
    }
  }

  lemma CandidatesAreThere(query: Query, table: Table, limit: nat, winners: set<Candidate>)
    requires IsTop(query.Candidates(table), limit, Closer(), winners)
    ensures forall c :: c in winners ==> c.id in table
    ensures DistinctIds(winners)
  {
    TopHasDistinctIds(query, table, limit, winners);
  }

  lemma WinnerIsLost(query: Query, scanned: Table, fetched: Table, limit: nat, winners: set<Candidate>, c: Candidate)
    requires KeyedById(scanned) && KeyedById(fetched)
    requires IsTop(query.Matches(scanned), limit, Nearer(), Fetched(winners, scanned))
    requires DistinctIds(winners) && (forall w :: w in winners ==> w.id in scanned)
    requires c in winners && !Unwritten(scanned, fetched, c.id)
    ensures !IsTop(query.Matches(scanned), limit, Nearer(), Fetched(winners, fetched))
  {
    hide Query.IsCandidate, Query.DistanceTo;
    FetchedCount(winners, scanned);
    if c.id in fetched {
      var m := Match(fetched[c.id], c.distance);
      assert m in Fetched(winners, fetched) && m !in query.Matches(scanned);
    } else {
      assert Fetched(winners, fetched) == Fetched(winners - {c}, fetched);
      FetchedCount(winners - {c}, fetched);
    }
  }

  lemma FetchedCount(winners: set<Candidate>, table: Table)
    requires KeyedById(table)
    ensures |Fetched(winners, table)| <= |winners|
    ensures DistinctIds(winners) && (forall c :: c in winners ==> c.id in table) ==>
      |Fetched(winners, table)| == |winners|
  {
    var there := set c | c in winners && c.id in table;
    var row := (c: Candidate) => if c.id in table then Match(table[c.id], c.distance) else Match(EMPTY_ENTRY, 0.0);
    ImageSize(there, row);
    SubsetSize(there, winners);
    assert Image(there, row) == Fetched(winners, table) by {
      forall m | m in Fetched(winners, table)
        ensures m in Image(there, row)
      {
        var c :| c in winners && c.id in table && m == Match(table[c.id], c.distance);
        assert c in there && row(c) == m;
      }
    }
    if forall c :: c in winners ==> c.id in table {
      assert there == winners;
    }
  }

  /** And whatever ties the first pass breaks, it is so exactly when nothing was written that
      fewer than `limit` candidates are nearer than. */
  lemma OnePassForAllWinners(query: Query, scanned: Table, fetched: Table, limit: nat)
    requires KeyedById(scanned) && KeyedById(fetched)
    ensures (forall winners :: IsTop(query.Candidates(scanned), limit, Closer(), winners) ==>
          IsTop(query.Matches(scanned), limit, Nearer(), Fetched(winners, fetched)))
      <==> (forall c :: c in query.Candidates(scanned) && |Ahead(query.Candidates(scanned), c, Closer())| < limit ==>
          Unwritten(scanned, fetched, c.id))
  {
    hide IsTop, Query.Candidates, Query.Matches, Ahead, Unwritten;
    var all := query.Candidates(scanned);
    CloserIsOrdering();
    if forall c :: c in all && |Ahead(all, c, Closer())| < limit ==> Unwritten(scanned, fetched, c.id) {
      forall winners | IsTop(all, limit, Closer(), winners)
        ensures IsTop(query.Matches(scanned), limit, Nearer(), Fetched(winners, fetched))
      {
        forall c: Candidate | c in winners
          ensures Unwritten(scanned, fetched, c.id)
        {
          WinnerIsCandidate(all, limit, winners, c);
          if |Ahead(all, c, Closer())| >= limit {
            NeverTaken(all, limit, Closer(), c, winners);
          }
        }
        OnePassExactlyWhen(query, scanned, fetched, limit, winners);
      }
    } else {
      var c :| c in all && |Ahead(all, c, Closer())| < limit && !Unwritten(scanned, fetched, c.id);
      var winners := SometimesTaken(all, limit, Closer(), c);
      OnePassExactlyWhen(query, scanned, fetched, limit, winners);
    }
  }

  lemma WinnerIsCandidate(all: set<Candidate>, limit: nat, winners: set<Candidate>, c: Candidate)
    requires IsTop(all, limit, Closer(), winners) && c in winners
    ensures c in all
  {
  }

  lemma CloserIsOrdering()
    ensures Ordering(Closer())
  {
  }

  const EMPTY_ENTRY := Entry(ZERO_ID, "", "", [], 0, "", None, 0)
}
