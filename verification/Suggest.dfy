/** Link suggestions for an entry: fetch more neighbours than wanted, drop the entry itself and
    what it is linked to, keep the best (`query/suggest.go`). */
module Suggest {
  import opened Model
  import opened Sorting
  import opened TopK
  import opened Similarity
  import EntryStore
  import TextSearch
  import V = Vectors

  datatype Suggestion = Suggestion(entry: Entry, score: real)

  function Want(k: int): nat {
    if k <= 0 then 3 else k
  }

  function Scored(byVector: bool): Match -> Suggestion {
    (m: Match) => Suggestion(m.entry, if byVector then V.CosineScore(m.distance) else TextSearch.TextScore(m.distance))
  }

  /** Score descending, then entries of the source's scope, then ID ascending. */
  function Before(scope: string): (Suggestion, Suggestion) -> bool {
    (a: Suggestion, b: Suggestion) =>
      if a.score != b.score then a.score > b.score
      else if (a.entry.scope == scope) != (b.entry.scope == scope) then a.entry.scope == scope
      else a.entry.id < b.entry.id
  }

  function Better(): (Suggestion, Suggestion) -> bool {
    (a: Suggestion, b: Suggestion) => a.score > b.score
  }

  ghost function Targets(edges: seq<Edge>): set<ID> {
    set e | e in edges :: e.to
  }

  ghost function Sources(edges: seq<Edge>): set<ID> {
    set e | e in edges :: e.from
  }

  lemma FirstEdges(edges: seq<Edge>)
    ensures Targets(edges[..0]) == {} == Sources(edges[..0])
    ensures edges[..|edges|] == edges
  {
  }

  lemma NextEdge(edges: seq<Edge>, i: nat)
    requires i < |edges|
    ensures Targets(edges[..i + 1]) == Targets(edges[..i]) + {edges[i].to}
    ensures Sources(edges[..i + 1]) == Sources(edges[..i]) + {edges[i].from}
  {
    assert edges[..i + 1] == edges[..i] + [edges[i]];
  }

  /** The IDs an edge joins to `id`, in either direction. */
  ghost function Linked(store: Store, id: ID): set<ID> {
    Targets(store.EdgesFrom(id, "")) + Sources(store.EdgesTo(id, ""))
  }

  function Unlinked(id: ID, linked: set<ID>): Suggestion -> bool {
    (s: Suggestion) => s.entry.id != id && s.entry.id !in linked
  }

  method LinkedIDs(store: Store, id: ID) returns (linked: set<ID>)
    ensures linked == Linked(store, id)
  {
    hide Targets, Sources;
    var out, back := store.EdgesFrom(id, ""), store.EdgesTo(id, "");
    linked := {};
    FirstEdges(out);
    FirstEdges(back);
    for i := 0 to |out|
      invariant linked == Targets(out[..i])
    {
      NextEdge(out, i);
      linked := linked + {out[i].to};
    }
    for i := 0 to |back|
      invariant linked == Targets(out) + Sources(back[..i])
    {
      NextEdge(back, i);
      linked := linked + {back[i].from};
    }
  }

  lemma LinkedMeans(store: Store, id: ID, other: ID)
    ensures other in Linked(store, id) <==>
      exists e :: e in store.edges && ((e.from == id && e.to == other) || (e.to == id && e.from == other))
  {
  }

  ghost predicate OneMatchPerEntry(matches: set<Match>) {
    forall a, b :: a in matches && b in matches && a.entry.id == b.entry.id ==> a == b
  }

  /** Scores what was found, drops what may not be suggested, and keeps the first of the rest. */
  method Choose(found: seq<Match>, entry: Entry, linked: set<ID>, want: nat) returns (r: seq<Suggestion>)
    requires NoRepeats(found) && OneMatchPerEntry(Members(found))
    ensures NoRepeats(r) && InOrder(r, Before(entry.scope))
    ensures IsTop(Kept(Image(Members(found), Scored(entry.embedding != [])), Unlinked(entry.id, linked)),
                  want, Before(entry.scope), Members(r))
  {
    hide IsTop, InOrder, Members, NoRepeats;
    var score := Scored(entry.embedding != []);
    ghost var keep := Unlinked(entry.id, linked);
    var suggestions: seq<Suggestion> := [];
    NothingYet(found, score, keep);
    for i := 0 to |found|
      invariant NoRepeats(suggestions)
      invariant Members(suggestions) == Kept(Image(Members(found[..i]), score), keep)
    {
      NextMatch(found, i, score, keep);
      if found[i].entry.id == entry.id {
        continue;
      }
      if found[i].entry.id in linked {
        continue;
      }
      MembersSnoc(suggestions, score(found[i]));
      suggestions := suggestions + [score(found[i])];
    }
    assert found[..|found|] == found;
    BeforeIsOrdering(entry.scope);
    var sorted := SortSlice(suggestions, Before(entry.scope));
    Permuted(suggestions, sorted);
    FrontIsTop(sorted, want, Before(entry.scope));
    FrontHasNoRepeats(sorted, Min(want, |sorted|));
    FrontInOrder(sorted, Min(want, |sorted|), Before(entry.scope));
    if |sorted| > want {
      return sorted[..want];
    }
    assert sorted[..|sorted|] == sorted;
    return sorted;
  }

  lemma FrontInOrder<T>(s: seq<T>, n: nat, less: (T, T) -> bool)
    requires InOrder(s, less) && n <= |s|
    ensures InOrder(s[..n], less)
  {
  }

  lemma BeforeIsOrdering(scope: string)
    ensures Ordering(Before(scope))
  {
  }

  lemma NothingYet(found: seq<Match>, score: Match -> Suggestion, keep: Suggestion -> bool)
    ensures NoRepeats<Suggestion>([])
    ensures Members<Suggestion>([]) == Kept(Image(Members(found[..0]), score), keep)
  {
  }

  lemma NextMatch(found: seq<Match>, i: nat, score: Match -> Suggestion, keep: Suggestion -> bool)
    requires NoRepeats(found) && OneMatchPerEntry(Members(found)) && i < |found|
    requires forall m :: score(m).entry == m.entry
    ensures Kept(Image(Members(found[..i + 1]), score), keep) ==
      Kept(Image(Members(found[..i]), score), keep) + if keep(score(found[i])) then {score(found[i])} else {}
    ensures score(found[i]) !in Kept(Image(Members(found[..i]), score), keep)
  {
    assert found[..i + 1] == found[..i] + [found[i]];
    MembersSnoc(found[..i], found[i]);
    assert Image(Members(found[..i + 1]), score) == Image(Members(found[..i]), score) + {score(found[i])};
    forall m | m in Members(found[..i])
      ensures m.entry != found[i].entry
    {
      assert m in Members(found) && found[i] in Members(found);
      var j :| 0 <= j < i && found[j] == m;
    }
  }

  function SimilarTo(entry: Entry, now: int, sqrt: real -> real): Query {
    Query(entry.embedding, "", now, V.Cosine, sqrt)
  }

  /** Everything in the store that could be suggested, with its score. */
  ghost function Eligible(store: Store, entry: Entry, now: int, sqrt: real -> real): set<Suggestion> {
    Kept(Image(SimilarTo(entry, now, sqrt).Matches(store.entries), Scored(true)),
         Unlinked(entry.id, Linked(store, entry.id)))
  }

  /** In plain words: the live entries with an embedding of the same dimension, other than the
      entry itself and without an edge to or from it, scored by one minus half their distance. */
  lemma EligibleMeans(store: Store, entry: Entry, now: int, sqrt: real -> real)
    requires store.Valid() && V.IsSqrt(sqrt)
    ensures forall s :: s in Eligible(store, entry, now, sqrt) ==>
      && s.entry.id in store.entries && s.entry == store.entries[s.entry.id]
      && 0 < |s.entry.embedding| == s.entry.embeddingDim == |entry.embedding|
      && (s.entry.expiresAt.Some? ==> s.entry.expiresAt.value > now)
      && s.entry.id != entry.id
      && (forall e :: e in store.edges ==>
            !(e.from == entry.id && e.to == s.entry.id) && !(e.to == entry.id && e.from == s.entry.id))
      && s.score == 1.0 - V.CosineOf(entry.embedding, s.entry.embedding, sqrt) / 2.0
    ensures forall id :: id in store.entries && id != entry.id ==>
      var e := store.entries[id];
      && 0 < |e.embedding| == e.embeddingDim == |entry.embedding|
      && (e.expiresAt.Some? ==> e.expiresAt.value > now)
      && (forall edge :: edge in store.edges ==>
            !(edge.from == entry.id && edge.to == id) && !(edge.to == entry.id && edge.from == id)) ==>
        Suggestion(e, 1.0 - V.CosineOf(entry.embedding, e.embedding, sqrt) / 2.0) in Eligible(store, entry, now, sqrt)
  {
    hide V.CosineOf, V.IsSqrt, V.CosineScore, Linked;
    var query := SimilarTo(entry, now, sqrt);
    forall id | id in store.entries && query.IsCandidate(store.entries[id])
      ensures V.CosineScore(query.DistanceTo(store.entries[id])) ==
        1.0 - V.CosineOf(entry.embedding, store.entries[id].embedding, sqrt) / 2.0
    {
      var v := store.entries[id].embedding;
      V.CosineScoreIsExact(entry.embedding, v, v, sqrt);
    }
    forall id
      ensures id in Linked(store, entry.id) <==>
        exists e :: e in store.edges && ((e.from == entry.id && e.to == id) || (e.to == entry.id && e.from == id))
    {
      LinkedMeans(store, entry.id, id);
    }
    forall id | id in store.entries && query.IsCandidate(store.entries[id]) && id != entry.id &&
      id !in Linked(store, entry.id)
      ensures Suggestion(store.entries[id], V.CosineScore(query.DistanceTo(store.entries[id])))
        in Eligible(store, entry, now, sqrt)
    {
      var m := Match(store.entries[id], query.DistanceTo(store.entries[id]));
      assert m in query.Matches(store.entries);
      assert Scored(true)(m) in Image(query.Matches(store.entries), Scored(true));
    }
  }

  /** What the text path chooses from: as many of the best text matches as are fetched. */
  ghost predicate FoundByText(store: Store, entry: Entry, k: int, now: int, ranks: map<ID, real>, found: set<Match>) {
    if entry.content == "" then found == {}
    else IsTop(TextSearch.TextQuery("", now, ranks).Matches(store.entries),
               (if k > 0 then k else 3) + 1 + |Linked(store, entry.id)|, TextSearch.ByRank(), found)
  }

  /** For entries without an embedding `ranks` is what the full-text index answers for the
      entry's content. */
  method SuggestLinks(store: Store, entry: Entry, k: int, now: int, sqrt: real -> real, ranks: map<ID, real>)
    returns (r: seq<Suggestion>)
    requires store.Valid()
    ensures NoRepeats(r) && InOrder(r, Before(entry.scope))
    ensures forall i, j :: 0 <= i < j < |r| ==>
      || r[i].score > r[j].score
      || (r[i].score == r[j].score && r[i].entry.scope == entry.scope != r[j].entry.scope)
      || (r[i].score == r[j].score && (r[i].entry.scope == entry.scope <==> r[j].entry.scope == entry.scope) &&
            r[i].entry.id <= r[j].entry.id)
    ensures entry.embedding != [] ==>
      && IsTop(Eligible(store, entry, now, sqrt), if k > 0 then k else 3, Better(), Members(r))
      && |r| == Min(if k > 0 then k else 3, |Eligible(store, entry, now, sqrt)|)
    ensures entry.embedding == [] ==> exists found ::
      && FoundByText(store, entry, k, now, ranks, found)
      && IsTop(Kept(Image(found, Scored(false)), Unlinked(entry.id, Linked(store, entry.id))),
               if k > 0 then k else 3, Before(entry.scope), Members(r))
  {
    hide IsTop, InOrder, NoRepeats, Members, Kept, Image, Linked, OneMatchPerEntry, Query.Matches,
         TextSearch.TextQuery.Matches;
    var linked := LinkedIDs(store, entry.id);
    var fetchLimit := Want(k) + 1 + |linked|;
    if entry.embedding != [] {
      var query := SimilarTo(entry, now, sqrt);
      var fetched := SearchSimilar(query, store.entries, store.entries, fetchLimit);
      var found := fetched.value;
      OneMatchEach(query, store.entries, fetchLimit, Members(found));
      r := Choose(found, entry, linked, Want(k));
      FetchIsEnough(query.Matches(store.entries), fetchLimit, Want(k), entry, linked, Members(found), Members(r));
      Counted(Eligible(store, entry, now, sqrt), Want(k), r);
    } else if entry.content == "" {
      NoSuggestions(entry.id, linked, Want(k), entry.scope);
      r := [];
      assert FoundByText(store, entry, k, now, ranks, {});
    } else {
      var query := TextSearch.TextQuery("", now, ranks);
      var found := TextSearch.SearchIndex(query, store.entries, store.entries, fetchLimit);
      OneTextMatchEach(query, store.entries, fetchLimit, Members(found));
      r := Choose(found, entry, linked, Want(k));
      assert FoundByText(store, entry, k, now, ranks, Members(found));
    }
    OrderMeans(r, entry.scope);
  }

  lemma Counted(all: set<Suggestion>, want: nat, r: seq<Suggestion>)
    requires IsTop(all, want, Better(), Members(r)) && NoRepeats(r)
    ensures |r| == Min(want, |all|)
  {
    MembersCount(r);
  }

  lemma OrderMeans(r: seq<Suggestion>, scope: string)
    requires InOrder(r, Before(scope))
    ensures forall i, j :: 0 <= i < j < |r| ==>
      || r[i].score > r[j].score
      || (r[i].score == r[j].score && r[i].entry.scope == scope != r[j].entry.scope)
      || (r[i].score == r[j].score && (r[i].entry.scope == scope <==> r[j].entry.scope == scope) &&
            r[i].entry.id <= r[j].entry.id)
  {
    forall i, j | 0 <= i < j < |r|
      ensures
        || r[i].score > r[j].score
        || (r[i].score == r[j].score && r[i].entry.scope == scope != r[j].entry.scope)
        || (r[i].score == r[j].score && (r[i].entry.scope == scope <==> r[j].entry.scope == scope) &&
              r[i].entry.id <= r[j].entry.id)
    {
      assert !Before(scope)(r[j], r[i]);
    }
  }

  lemma NoSuggestions(id: ID, linked: set<ID>, want: nat, scope: string)
    ensures NoRepeats<Suggestion>([]) && InOrder([], Before(scope))
    ensures IsTop(Kept(Image({}, Scored(false)), Unlinked(id, linked)), want, Before(scope), Members([]))
  {
  }

  lemma OneMatchEach(query: Query, table: Table, limit: nat, found: set<Match>)
    requires KeyedById(table) && IsTop(query.Matches(table), limit, Nearer(), found)
    ensures OneMatchPerEntry(query.Matches(table)) && OneMatchPerEntry(found)
  {
    hide Query.IsCandidate, Query.DistanceTo;
  }

  lemma OneTextMatchEach(query: TextSearch.TextQuery, table: Table, limit: nat, found: set<Match>)
    requires KeyedById(table) && IsTop(query.Matches(table), limit, TextSearch.ByRank(), found)
    ensures OneMatchPerEntry(found)
  {
    hide TextSearch.TextQuery.Finds;
  }

  lemma NearerIsNoWorse(a: Match, b: Match)
    ensures Better()(Scored(true)(a), Scored(true)(b)) ==> Nearer()(a, b)
  {
  }

  /** `want + 1 + |linked|` leaves room for every exclusion. */
  lemma FetchIsEnough(all: set<Match>, m: nat, want: nat, entry: Entry, linked: set<ID>,
                      found: set<Match>, top: set<Suggestion>)
    requires OneMatchPerEntry(all) && m >= want + 1 + |linked|
    requires IsTop(all, m, Nearer(), found)
    requires IsTop(Kept(Image(found, Scored(true)), Unlinked(entry.id, linked)), want, Before(entry.scope), top)
    ensures IsTop(Kept(Image(all, Scored(true)), Unlinked(entry.id, linked)), want, Better(), top)
  {
    hide IsTop, Kept, Image;
    var score, keep := Scored(true), Unlinked(entry.id, linked);
    ScoresAreInjective(all, score);
    forall a, b | a in all && b in all && Better()(score(a), score(b))
      ensures Nearer()(a, b)
    {
      NearerIsNoWorse(a, b);
    }
    ImageIsTop(all, m, Nearer(), found, score, Better());
    FewExcluded(all, entry.id, linked, score);
    TopByCoarser(Kept(Image(found, score), keep), want, entry.scope, top);
    OverfetchIsTop(Image(all, score), m, want, Better(), keep, Image(found, score), top);
  }

  lemma TopByCoarser(all: set<Suggestion>, want: nat, scope: string, top: set<Suggestion>)
    requires IsTop(all, want, Before(scope), top)
    ensures IsTop(all, want, Better(), top)
  {
    forall a, b | a in top && b in all - top
      ensures !Better()(b, a)
    {
      assert !Before(scope)(b, a);
    }
  }

  lemma ScoresAreInjective(all: set<Match>, score: Match -> Suggestion)
    requires OneMatchPerEntry(all) && forall m :: score(m).entry == m.entry
    ensures InjectiveOn(all, score)
    ensures forall s, s' :: s in Image(all, score) && s' in Image(all, score) && s.entry.id == s'.entry.id ==> s == s'
  {
  }

  lemma FewExcluded(all: set<Match>, id: ID, linked: set<ID>, score: Match -> Suggestion)
    requires OneMatchPerEntry(all) && forall m :: score(m).entry == m.entry
    ensures |Image(all, score) - Kept(Image(all, score), Unlinked(id, linked))| <= 1 + |linked|
  {
    ScoresAreInjective(all, score);
    var dropped := Image(all, score) - Kept(Image(all, score), Unlinked(id, linked));
    var idOf := (s: Suggestion) => s.entry.id;
    ImageSize(dropped, idOf);
    assert Image(dropped, idOf) <= {id} + linked;
    SubsetSize(Image(dropped, idOf), {id} + linked);
    assert |{id} + linked| <= 1 + |linked|;
  }

  // How far the answer is determined.

  function BeforeBy(scope: string): (Match, Match) -> bool {
    (a: Match, b: Match) => Before(scope)(Scored(true)(a), Scored(true)(b))
  }

  function UnlinkedMatch(id: ID, linked: set<ID>): Match -> bool {
    (m: Match) => m.entry.id != id && m.entry.id !in linked
  }

  lemma MatchesAreRanked(all: set<Match>, scope: string)
    requires OneMatchPerEntry(all)
    ensures Ordering(BeforeBy(scope)) && TotalOn(all, BeforeBy(scope)) && Ordering(Nearer())
  {
    hide Before, Scored;
    var before := BeforeBy(scope);
    BeforeIsOrdering(scope);
    forall a, b
      ensures before(a, b) == Before(scope)(Scored(true)(a), Scored(true)(b))
      ensures a in all && b in all && a != b ==> before(a, b) || before(b, a)
    {
      if a in all && b in all && a != b {
        EitherIsBefore(scope, a, b);
      }
    }
  }

  lemma EitherIsBefore(scope: string, a: Match, b: Match)
    requires a.entry.id != b.entry.id
    ensures BeforeBy(scope)(a, b) || BeforeBy(scope)(b, a)
  {
    var x, y := Scored(true)(a), Scored(true)(b);
    assert Before(scope)(x, y) || Before(scope)(y, x);
  }

  /** The store may return any of the matches that tie at the end of the fetch. Every such
      fetch leads to the same suggestions, the best by score, scope and ID of the whole store,
      exactly when each of them has room in the fetch with all that is no further away. */
  lemma DeterminedExactlyWhen(all: set<Match>, want: nat, entry: Entry, linked: set<ID>, best: set<Match>)
    requires OneMatchPerEntry(all)
    requires IsTop(Kept(all, UnlinkedMatch(entry.id, linked)), want, BeforeBy(entry.scope), best)
    ensures (forall fetched, top ::
        && IsTop(all, want + 1 + |linked|, Nearer(), fetched)
        && IsTop(Kept(fetched, UnlinkedMatch(entry.id, linked)), want, BeforeBy(entry.scope), top)
        ==> top == best)
      <==> (forall e :: e in best ==> |NoFurther(all, e, Nearer())| <= want + 1 + |linked|)
  {
    MatchesAreRanked(all, entry.scope);
    SameForEveryFetch(all, want + 1 + |linked|, want, Nearer(), UnlinkedMatch(entry.id, linked),
                      BeforeBy(entry.scope), best);
  }

  lemma TieAtTheCut(entry: Entry, self: Match, other: Match, same: Match)
    requires self.entry.id == entry.id
    requires other.entry.id != entry.id && same.entry.id != entry.id && other.entry.id != same.entry.id
    requires self.distance <= other.distance == same.distance
    requires same.entry.scope == entry.scope && other.entry.scope != entry.scope
    ensures var fetched := {self, other};
      && IsTop({self, other, same}, 2, Nearer(), fetched)
      && IsTop(Kept(fetched, UnlinkedMatch(entry.id, {})), 1, BeforeBy(entry.scope), {other})
      && UnlinkedMatch(entry.id, {})(same) && BeforeBy(entry.scope)(same, other)
  {
    var all, fetched := {self, other, same}, {self, other};
    assert |all| == 3 && |fetched| == 2;
    assert Kept(fetched, UnlinkedMatch(entry.id, {})) == {other};
    var x, y := Scored(true)(same), Scored(true)(other);
    assert Before(entry.scope)(x, y);
  }

  /** The entry with two others that have its embedding, one in its scope and one elsewhere. */
  predicate ThreeAlike(store: Store, entry: Entry, other: Entry, same: Entry, now: int) {
    && store == Store(map[entry.id := entry, other.id := other, same.id := same], [])
    && entry.id != other.id && entry.id != same.id && other.id != same.id
    && entry.embedding != [] && other.embedding == same.embedding == entry.embedding
    && (forall e :: e in {entry, other, same} ==> e.embeddingDim == |entry.embedding| && !EntryStore.Expired(e, now))
    && same.scope == entry.scope != other.scope
  }

  /** So a store in which one suggestion is asked for, and a legal fetch leads to the entry of
      the other scope although the tied one of the same scope comes before it. */
  lemma TieCanIgnoreScope(store: Store, entry: Entry, other: Entry, same: Entry, now: int, sqrt: real -> real)
      returns (fetched: set<Match>, suggested: Match, passedOver: Match)
    requires ThreeAlike(store, entry, other, same, now)
    ensures var all, linked := SimilarTo(entry, now, sqrt).Matches(store.entries), Linked(store, entry.id);
      && IsTop(all, Want(1) + 1 + |linked|, Nearer(), fetched)
      && IsTop(Kept(fetched, UnlinkedMatch(entry.id, linked)), Want(1), BeforeBy(entry.scope), {suggested})
      && passedOver in Kept(all, UnlinkedMatch(entry.id, linked))
      && BeforeBy(entry.scope)(passedOver, suggested)
    ensures suggested.entry == other && passedOver.entry == same
  {
    var query := SimilarTo(entry, now, sqrt);
    var d := query.DistanceTo(entry);
    var self := Match(entry, d);
    suggested, passedOver := Match(other, d), Match(same, d);
    fetched := {self, suggested};
    assert Linked(store, entry.id) == {};
    MatchesOfThree(store, entry, other, same, now, sqrt);
    TieAtTheCut(entry, self, suggested, passedOver);
  }

  lemma MatchesOfThree(store: Store, entry: Entry, other: Entry, same: Entry, now: int, sqrt: real -> real)
    requires ThreeAlike(store, entry, other, same, now)
    ensures var query := SimilarTo(entry, now, sqrt);
      var d := query.DistanceTo(entry);
      query.Matches(store.entries) == {Match(entry, d), Match(other, d), Match(same, d)}
  {
    var query := SimilarTo(entry, now, sqrt);
    var all, d := query.Matches(store.entries), query.DistanceTo(entry);
    forall e | e in {entry, other, same}
      ensures query.IsCandidate(e) && query.DistanceTo(e) == d
      ensures Match(e, d) in all
    {
      assert e.id in store.entries && store.entries[e.id] == e;
    }
  }

  /** Without an embedding the order is upside down: of two text matches, the one that matched
      worse has the higher score. */
  lemma TextScoreIsInverted(a: Match, b: Match, scope: string)
    requires a.distance < 0.0 && b.distance < 0.0
    ensures Better()(Scored(false)(a), Scored(false)(b)) <==> b.distance < a.distance
    ensures b.distance < a.distance ==> Before(scope)(Scored(false)(a), Scored(false)(b))
  {
    TextSearch.TextScoreIsInverted(a.distance, b.distance);
    TextSearch.TextScoreIsInverted(b.distance, a.distance);
  }

  /** But there the promised determinism holds. */
  lemma TextPathIsDetermined(store: Store, entry: Entry, k: int, now: int, ranks: map<ID, real>,
                             found: set<Match>, found': set<Match>, r: seq<Suggestion>, r': seq<Suggestion>)
    requires store.Valid()
    requires FoundByText(store, entry, k, now, ranks, found) && FoundByText(store, entry, k, now, ranks, found')
    requires var keep := Unlinked(entry.id, Linked(store, entry.id));
      && IsTop(Kept(Image(found, Scored(false)), keep), Want(k), Before(entry.scope), Members(r))
      && IsTop(Kept(Image(found', Scored(false)), keep), Want(k), Before(entry.scope), Members(r'))
    requires NoRepeats(r) && InOrder(r, Before(entry.scope)) && NoRepeats(r') && InOrder(r', Before(entry.scope))
    ensures r == r'
  {
    hide IsTop, InOrder, NoRepeats, Image, TextSearch.TextQuery.Matches, TotalOn, Linked;
    var query, limit := TextSearch.TextQuery("", now, ranks), Want(k) + 1 + |Linked(store, entry.id)|;
    var all := Kept(Image(found, Scored(false)), Unlinked(entry.id, Linked(store, entry.id)));
    if entry.content == "" {
      NothingFound();
    } else {
      TextSearch.ByRankIsTotal(query, store.entries);
      TopIsUnique(query.Matches(store.entries), limit, TextSearch.ByRank(), found, found');
      OneTextMatchEach(query, store.entries, limit, found);
    }
    BeforeIsTotal(found, entry, Linked(store, entry.id));
    TopIsUnique(all, Want(k), Before(entry.scope), Members(r), Members(r'));
    SuggestedAreOfAll(all, Want(k), entry.scope, Members(r));
    ListIsUnique(all, r, r', Before(entry.scope));
  }

  lemma NothingFound()
    ensures OneMatchPerEntry({})
  {
  }

  lemma SuggestedAreOfAll(all: set<Suggestion>, want: nat, scope: string, top: set<Suggestion>)
    requires IsTop(all, want, Before(scope), top)
    ensures top <= all
  {
  }

  lemma BeforeIsTotal(found: set<Match>, entry: Entry, linked: set<ID>)
    requires OneMatchPerEntry(found)
    ensures TotalOn(Kept(Image(found, Scored(false)), Unlinked(entry.id, linked)), Before(entry.scope))
  {
    ScoresAreInjective(found, Scored(false));
  }
}
