/** Graph expansion of search results (`query/hybrid.go`). */
module Expansion {
  import opened Model
  import opened Walks
  import opened GraphSearch
  import opened RealPower
  import BFS = BreadthFirst

  /** What the search from `start` may enter: present entries nobody has seen before. */
  function ExpansionNet(store: Store, direction: Direction, kinds: seq<string>, seen: set<ID>, start: ID): Net {
    Net(store.edges, direction, Kinds(kinds), Some(store.entries.Keys - (seen - {start})))
  }

  /** Queue items carry the score their node was given. */
  ghost predicate ScoreQueued(tree: BFS.Tree, order: seq<ID>, startScore: real, queue: seq<(ID, nat, real)>) {
    && |queue| == |order|
    && forall i :: 0 <= i < |queue| ==> ScoreItem(tree, startScore, order[i], queue[i])
  }

  ghost predicate ScoreItem(tree: BFS.Tree, startScore: real, v: ID, item: (ID, nat, real)) {
    item.0 == v && v in tree && item.1 == |tree[v]| && item.2 == WalkScore(startScore, tree[v])
  }

  lemma ScoreQueuedHead(tree: BFS.Tree, order: seq<ID>, startScore: real, queue: seq<(ID, nat, real)>)
    requires ScoreQueued(tree, order, startScore, queue)
    ensures queue == [] <==> order == []
    ensures queue != [] ==>
      ScoreItem(tree, startScore, order[0], queue[0]) && ScoreQueued(tree, order[1..], startScore, queue[1..])
  {
  }

  lemma ScoreQueuedFound(tree: BFS.Tree, order: seq<ID>, startScore: real, queue: seq<(ID, nat, real)>,
                         v: ID, path: seq<Edge>, item: (ID, nat, real))
    requires ScoreQueued(tree, order, startScore, queue) && v !in tree
    requires item == (v, |path|, WalkScore(startScore, path))
    ensures ScoreQueued(tree[v := path], order + [v], startScore, queue + [item])
  {
  }

  /** The seen set grew by the results and by nodes that are not there. */
  ghost predicate SeenGrew(store: Store, seen: set<ID>, seen': set<ID>, hits: seq<Hit>) {
    && seen <= seen'
    && (forall h :: h in hits ==> h.entry.id in seen')
    && (forall v :: v in seen' && v in store.entries ==> v in seen || HasHit(hits, v))
  }

  method ExpandFromEntry(store: Store, startID: ID, startScore: real, maxDepth: nat, direction: Direction,
                         kinds: seq<string>, seen: set<ID>)
    returns (results: seq<Hit>, seen': set<ID>)
    requires store.Valid() && startID in seen
    ensures SearchSpec(store, ExpansionNet(store, direction, kinds, seen, startID), startID, maxDepth,
                       Scored(startScore), results)
    ensures SeenGrew(store, seen, seen', results)
  {
    hide BFS.Search.Frontier, BFS.Search.Expanding, BFS.Within, Reported, SearchSpec, Net.Walk, Net.Shortest, End,
         Incident, HasHit, Store.EdgesFrom, Store.EdgesTo, StoreFilter, WalkScore, SeenGrew, Edge.EffectiveWeight,
         Kinds, Endpoints, Store.Valid;
    var edgeFilter, edgeTypeSet := StoreFilter(kinds), Kinds(kinds);
    results, seen' := [], seen;
    var queue: seq<(ID, nat, real)> := [(startID, 0, startScore)];

    ghost var net := ExpansionNet(store, direction, kinds, seen, startID);
    ghost var how := Scored(startScore);
    ghost var universe := Endpoints(store.edges);
    ghost var s := BFS.Search(net, startID, maxDepth, map[startID := []], seen, [startID]);
    BFS.Start(net, startID, maxDepth, seen);
    ReportNothing(store, startID, how, results);
    NothingGrew(store, seen);
    StartQueued(startID, startScore);
    hide ScoreQueued;

    while queue != []
      invariant s.Frontier() && s.Explores(net, startID, maxDepth, seen')
      invariant ScoreQueued(s.tree, s.queue, startScore, queue)
      invariant Reported(store, startID, s.tree, how, results, 0)
      invariant SeenGrew(store, seen, seen', results)
      decreases universe - seen', |queue|
    {
      ScoreQueuedHead(s.tree, s.queue, startScore, queue);
      var (u, depth, parentScore) := queue[0];
      queue := queue[1..];
      if depth >= maxDepth {
        BFS.Dropped(s);
        s := s.Drop();
        continue;
      }
      var edges := Incident(store, u, direction, edgeFilter);
      IncidentFollows(store, u, direction, kinds, net.gate);
      BFS.Dequeued(s, edges);
      s := s.Drop();
      ghost var seen0, queue0 := seen', queue;
      for i := 0 to |edges|
        invariant s.Expanding(u, edges, i) && s.Explores(net, startID, maxDepth, seen')
        invariant ScoreItem(s.tree, startScore, u, (u, depth, parentScore))
        invariant ScoreQueued(s.tree, s.queue, startScore, queue)
        invariant Reported(store, startID, s.tree, how, results, 0)
        invariant SeenGrew(store, seen, seen', results)
        invariant Progress(universe, seen0, seen', |queue0|, |queue|)
      {
        var edge := edges[i];
        if edgeTypeSet != {} && edge.kind !in edgeTypeSet {
          BFS.Skipped(s, u, edges, i);
          continue;
        }
        var neighbor := Neighbor(edge, u);
        EndIsKnown(store, net, u, edge);
        if neighbor in seen' {
          BFS.Skipped(s, u, edges, i);
          continue;
        }
        Advance(universe, seen0, seen', |queue0|, |queue|, |queue| + 1, neighbor);
        NotSeenBefore(store, seen, seen', results, neighbor);
        ghost var path := s.tree[u] + [edge];
        seen' := seen' + {neighbor};
        if neighbor !in store.entries {
          AbsentGrew(store, seen, seen' - {neighbor}, results, neighbor);
          BFS.ShutOut(s, u, edges, i);
          s := s.Shut(neighbor);
          continue;
        }
        var neighborScore := parentScore * edge.EffectiveWeight() * EXPANSION_DEPTH_DECAY;
        ScoreStep(store.entries[neighbor], startScore, s.tree[u], edge, parentScore, neighborScore);
        var hit := Hit(store.entries[neighbor], neighborScore, Expansion, depth + 1, [edge], false, []);
        BFS.Discovered(s, u, edges, i);
        Report(store, startID, s.tree, how, results, 0, neighbor, path);
        HitGrew(store, seen, seen' - {neighbor}, results, hit);
        ScoreQueuedFound(s.tree, s.queue, startScore, queue, neighbor, path, (neighbor, depth + 1, neighborScore));
        s := s.Found(neighbor, path);
        results := results + [hit];
        queue := queue + [(neighbor, depth + 1, neighborScore)];
      }
      BFS.Expanded(s, u, edges);
    }
    ScoreQueuedHead(s.tree, s.queue, startScore, queue);
    ReportedIsSpec(store, s, how, results, 0);
    assert results[0..] == results;
  }

  lemma EndIsKnown(store: Store, net: Net, u: ID, e: Edge)
    requires store.Valid() && net.edges == store.edges && net.Follows(u, e)
    ensures Neighbor(e, u) in Endpoints(store.edges)
    ensures Neighbor(e, u) in store.entries ==> store.entries[Neighbor(e, u)].id == Neighbor(e, u)
  {
  }

  lemma StartQueued(startID: ID, startScore: real)
    ensures ScoreQueued(map[startID := []], [startID], startScore, [(startID, 0, startScore)])
  {
  }

  lemma NothingGrew(store: Store, seen: set<ID>)
    ensures SeenGrew(store, seen, seen, [])
  {
  }

  lemma NotSeenBefore(store: Store, seen: set<ID>, seen': set<ID>, hits: seq<Hit>, v: ID)
    requires SeenGrew(store, seen, seen', hits) && v !in seen'
    ensures v !in seen
  {
  }

  lemma AbsentGrew(store: Store, seen: set<ID>, seen': set<ID>, hits: seq<Hit>, v: ID)
    requires SeenGrew(store, seen, seen', hits) && v !in store.entries
    ensures SeenGrew(store, seen, seen' + {v}, hits)
  {
  }

  lemma HitGrew(store: Store, seen: set<ID>, seen': set<ID>, hits: seq<Hit>, hit: Hit)
    requires SeenGrew(store, seen, seen', hits)
    ensures SeenGrew(store, seen, seen' + {hit.entry.id}, hits + [hit])
  {
    hide HasHit;
    forall v | v in seen' + {hit.entry.id} && v in store.entries
      ensures v in seen || HasHit(hits + [hit], v)
    {
      HasHitSnoc(hits, hit, v);
    }
  }

  lemma ScoreStep(entry: Entry, startScore: real, path: seq<Edge>, e: Edge, parentScore: real, score: real)
    requires parentScore == WalkScore(startScore, path)
    requires score == parentScore * e.EffectiveWeight() * EXPANSION_DEPTH_DECAY
    ensures score == WalkScore(startScore, path + [e])
    ensures Scored(startScore).Make(entry, path + [e]) == Hit(entry, score, Expansion, |path| + 1, [e], false, [])
  {
    assert (path + [e])[..|path|] == path;
  }

  // Several seeds, one after the other, sharing what has been seen.

  function Flatten(groups: seq<seq<Hit>>): seq<Hit> {
    if groups == [] then [] else Flatten(groups[..|groups| - 1]) + groups[|groups| - 1]
  }

  /** The nodes no longer up for discovery when seed `i` has its turn. */
  function Taken(seeds: seq<Hit>, groups: seq<seq<Hit>>, i: nat): set<ID>
    requires i <= |groups|
  {
    Ids(seeds) + Ids(Flatten(groups[..i]))
  }

  /** What one seed contributes: exactly the nodes it reaches within `depth` steps
      through present entries that are no seeds and were not found before. */
  ghost predicate Wave(store: Store, direction: Direction, kinds: seq<string>, depth: nat, seed: Hit,
                       taken: set<ID>, group: seq<Hit>) {
    SearchSpec(store, ExpansionNet(store, direction, kinds, taken, seed.entry.id), seed.entry.id, depth,
               Scored(seed.score), group)
  }

  ghost predicate Waves(store: Store, direction: Direction, kinds: seq<string>, depth: nat, seeds: seq<Hit>,
                        groups: seq<seq<Hit>>) {
    && |groups| == |seeds|
    && forall i :: 0 <= i < |seeds| ==>
         Wave(store, direction, kinds, depth, seeds[i], Taken(seeds, groups, i), groups[i])
  }

  method ExpandAll(store: Store, seeds: seq<Hit>, depth: nat, direction: Direction, kinds: seq<string>)
    returns (all: seq<Hit>)
    requires store.Valid()
    ensures exists groups :: Waves(store, direction, kinds, depth, seeds, groups) && all == seeds + Flatten(groups)
  {
    var seen: set<ID> := {};
    all := [];
    for i := 0 to |seeds|
      invariant seen == set k | 0 <= k < i :: seeds[k].entry.id
      invariant all == seeds[..i]
    {
      seen := seen + {seeds[i].entry.id};
      all := all + [seeds[i]];
    }
    assert seen == Ids(seeds);
    ghost var groups: seq<seq<Hit>> := [];
    assert Taken(seeds, groups, 0) == seen;
    hide Taken, Flatten, SeenGrew, Ids;
    for i := 0 to |seeds|
      invariant |groups| == i && all == seeds + Flatten(groups)
      invariant Ids(seeds) <= seen && seen * store.entries.Keys == Taken(seeds, groups, i) * store.entries.Keys
      invariant forall k :: 0 <= k < i ==>
        Wave(store, direction, kinds, depth, seeds[k], Taken(seeds, groups, k), groups[k])
    {
      hide Wave, SearchSpec;
      var expanded, seen' := ExpandFromEntry(store, seeds[i].entry.id, seeds[i].score, depth, direction, kinds, seen);
      OneWave(store, seeds, groups, i, depth, direction, kinds, seen, expanded);
      Grow(store, seeds, groups, seen, seen', expanded);
      SameConcat(seeds, Flatten(groups), expanded);
      seen, groups, all := seen', groups + [expanded], all + expanded;
    }
  }

  lemma SameNet(store: Store, direction: Direction, kinds: seq<string>, s: set<ID>, t: set<ID>, start: ID)
    requires s * store.entries.Keys == t * store.entries.Keys
    ensures ExpansionNet(store, direction, kinds, s, start) == ExpansionNet(store, direction, kinds, t, start)
  {
    assert forall v :: v in store.entries.Keys ==> (v in s <==> v in s * store.entries.Keys);
    assert forall v :: v in store.entries.Keys ==> (v in t <==> v in t * store.entries.Keys);
    assert store.entries.Keys - (s - {start}) == store.entries.Keys - (t - {start});
  }

  lemma OneWave(store: Store, seeds: seq<Hit>, groups: seq<seq<Hit>>, i: nat, depth: nat, direction: Direction,
                kinds: seq<string>, seen: set<ID>, group: seq<Hit>)
    requires i < |seeds| && i <= |groups|
    requires seen * store.entries.Keys == Taken(seeds, groups, i) * store.entries.Keys
    requires SearchSpec(store, ExpansionNet(store, direction, kinds, seen, seeds[i].entry.id), seeds[i].entry.id, depth,
                        Scored(seeds[i].score), group)
    ensures Wave(store, direction, kinds, depth, seeds[i], Taken(seeds, groups, i), group)
    ensures forall h :: h in group ==> h.entry.id in store.entries
  {
    SameNet(store, direction, kinds, seen, Taken(seeds, groups, i), seeds[i].entry.id);
  }

  lemma FlattenSnoc(groups: seq<seq<Hit>>, group: seq<Hit>)
    ensures Flatten(groups + [group]) == Flatten(groups) + group
    ensures forall k :: 0 <= k <= |groups| ==> (groups + [group])[..k] == groups[..k]
  {
    assert (groups + [group])[..|groups|] == groups;
  }

  lemma SameConcat(s: seq<Hit>, t: seq<Hit>, u: seq<Hit>)
    ensures s + t + u == s + (t + u)
  {
  }

  lemma IdsConcat(s: seq<Hit>, t: seq<Hit>)
    ensures Ids(s + t) == Ids(s) + Ids(t)
  {
    assert forall h :: h in s + t <==> h in s || h in t;
  }

  lemma Grow(store: Store, seeds: seq<Hit>, groups: seq<seq<Hit>>, seen: set<ID>, seen': set<ID>, group: seq<Hit>)
    requires seen * store.entries.Keys == Taken(seeds, groups, |groups|) * store.entries.Keys
    requires SeenGrew(store, seen, seen', group) && forall h :: h in group ==> h.entry.id in store.entries
    ensures var groups' := groups + [group];
      && seen' * store.entries.Keys == Taken(seeds, groups', |groups'|) * store.entries.Keys
      && Flatten(groups') == Flatten(groups) + group
      && forall k :: 0 <= k <= |groups| ==> Taken(seeds, groups', k) == Taken(seeds, groups, k)
  {
    FlattenSnoc(groups, group);
    IdsConcat(Flatten(groups), group);
    var groups' := groups + [group];
    assert groups'[..|groups'|] == groups' && groups[..|groups|] == groups;
    forall v | v in store.entries
      ensures v in seen' <==> v in Taken(seeds, groups', |groups'|)
    {
      assert v in seen <==> v in seen * store.entries.Keys;
      assert HasHit(group, v) <==> v in Ids(group);
    }
  }

  // What the waves amount to.

  lemma FlattenTake(seeds: seq<Hit>, groups: seq<seq<Hit>>, n: nat)
    requires 0 < n <= |groups|
    ensures seeds + Flatten(groups[..n]) == (seeds + Flatten(groups[..n - 1])) + groups[n - 1]
  {
    assert groups[..n] == groups[..n - 1] + [groups[n - 1]];
    FlattenSnoc(groups[..n - 1], groups[n - 1]);
    SameConcat(seeds, Flatten(groups[..n - 1]), groups[n - 1]);
  }

  /** The results are disjoint from the seeds, and no entry comes twice. */
  lemma {:induction false} WavesAreDistinct(store: Store, direction: Direction, kinds: seq<string>, depth: nat,
                                            seeds: seq<Hit>, groups: seq<seq<Hit>>, n: nat)
    requires Waves(store, direction, kinds, depth, seeds, groups) && n <= |groups|
    requires DistinctHits(seeds)
    ensures DistinctHits(seeds + Flatten(groups[..n]))
  {
    if n == 0 {
      assert seeds + Flatten(groups[..0]) == seeds;
    } else {
      WavesAreDistinct(store, direction, kinds, depth, seeds, groups, n - 1);
      hide SearchSpec, DistinctHits, Flatten;
      var before, group := seeds + Flatten(groups[..n - 1]), groups[n - 1];
      FlattenTake(seeds, groups, n);
      IdsConcat(seeds, Flatten(groups[..n - 1]));
      forall h | h in group
        ensures h.entry.id !in Ids(before)
      {
        WaveIsNew(store, direction, kinds, depth, seeds[n - 1], Ids(before), group, h);
      }
      WaveIsDistinct(store, direction, kinds, depth, seeds[n - 1], Ids(before), group);
      DistinctConcat(before, group);
    }
  }

  lemma WaveIsDistinct(store: Store, direction: Direction, kinds: seq<string>, depth: nat, seed: Hit, taken: set<ID>,
                       group: seq<Hit>)
    requires Wave(store, direction, kinds, depth, seed, taken, group)
    ensures DistinctHits(group)
  {
  }

  lemma WaveIsNew(store: Store, direction: Direction, kinds: seq<string>, depth: nat, seed: Hit, taken: set<ID>,
                  group: seq<Hit>, h: Hit)
    requires Wave(store, direction, kinds, depth, seed, taken, group) && h in group && seed.entry.id in taken
    ensures h.entry.id !in taken
  {
    var net := ExpansionNet(store, direction, kinds, taken, seed.entry.id);
    assert SoundHit(store, net, seed.entry.id, depth, Scored(seed.score), h);
    var path :| h == Scored(seed.score).Make(h.entry, path) && WalkTo(net, seed.entry.id, depth, path, h.entry.id);
    WalkEndsOpen(net, seed.entry.id, path);
  }

  lemma DistinctConcat(s: seq<Hit>, t: seq<Hit>)
    requires DistinctHits(s) && DistinctHits(t) && forall h :: h in t ==> h.entry.id !in Ids(s)
    ensures DistinctHits(s + t)
  {
    forall i, j | 0 <= i < j < |s + t|
      ensures (s + t)[i].entry.id != (s + t)[j].entry.id
    {
      if i < |s| && j >= |s| {
        assert s[i] in s && t[j - |s|] in t;
      }
    }
  }

  /** A result comes from a seed, along a walk through present entries, and its score
      is the seed's score reduced by weight and decay at every edge of that walk. */
  ghost predicate FromSeed(store: Store, direction: Direction, kinds: seq<string>, depth: nat, seed: Hit, h: Hit) {
    exists path ::
      && TraversalNet(store, direction, kinds).Walk(seed.entry.id, path)
      && End(seed.entry.id, path) == h.entry.id
      && 1 <= |path| <= depth
      && h == ExpansionHit(h.entry, seed.score, path)
  }

  lemma WaveIsFromSeed(store: Store, direction: Direction, kinds: seq<string>, depth: nat, seed: Hit, taken: set<ID>,
                       group: seq<Hit>, h: Hit)
    requires Wave(store, direction, kinds, depth, seed, taken, group) && h in group
    ensures FromSeed(store, direction, kinds, depth, seed, h)
  {
    var net := ExpansionNet(store, direction, kinds, taken, seed.entry.id);
    assert SoundHit(store, net, seed.entry.id, depth, Scored(seed.score), h);
    var path :| h == Scored(seed.score).Make(h.entry, path) && WalkTo(net, seed.entry.id, depth, path, h.entry.id);
    WalkWider(net, TraversalNet(store, direction, kinds), seed.entry.id, path);
  }

  ghost predicate UnitWeights(edges: seq<Edge>) {
    forall e :: e in edges && e.weight.Some? ==> 0.0 <= e.weight.value <= 1.0
  }

  lemma {:induction false} WalkScoreBound(startScore: real, path: seq<Edge>)
    requires UnitWeights(path) && 0.0 <= startScore
    ensures 0.0 <= WalkScore(startScore, path) <= Pow(EXPANSION_DEPTH_DECAY, |path|) * startScore
  {
    if path != [] {
      var front, w := path[..|path| - 1], path[|path| - 1].EffectiveWeight();
      assert path[|path| - 1] in path;
      WalkScoreBound(startScore, front);
      ScoreStepBound(WalkScore(startScore, front), w, Pow(EXPANSION_DEPTH_DECAY, |front|), startScore);
    }
  }

  lemma ScoreStepBound(x: real, w: real, p: real, startScore: real)
    requires 0.0 <= x <= p * startScore && 0.0 <= w <= 1.0
    ensures 0.0 <= x * w * EXPANSION_DEPTH_DECAY <= (EXPANSION_DEPTH_DECAY * p) * startScore
  {
    Shrink(x, w);
  }

  /** With weights between 0 and 1 a result keeps at most 0.8 of the score per hop. */
  lemma ExpansionDecays(store: Store, direction: Direction, kinds: seq<string>, depth: nat, seed: Hit, h: Hit)
    requires FromSeed(store, direction, kinds, depth, seed, h)
    requires UnitWeights(store.edges) && 0.0 <= seed.score
    ensures 0.0 <= h.score <= Pow(0.8, h.depth) * seed.score
  {
    var net := TraversalNet(store, direction, kinds);
    var path :| net.Walk(seed.entry.id, path) && h == ExpansionHit(h.entry, seed.score, path);
    WalkUsesNet(net, seed.entry.id, path);
    WalkScoreBound(seed.score, path);
    assert ExpansionHit(h.entry, seed.score, path).depth == |path|;
  }

  /** A neighbour of the seed has exactly 0.8 of the seed's score times the weight of an edge
      between them, one half where none is set. */
  lemma OneStepScore(store: Store, direction: Direction, kinds: seq<string>, depth: nat, seed: Hit, h: Hit)
    requires FromSeed(store, direction, kinds, depth, seed, h) && h.depth == 1
    ensures exists e ::
      && e in store.edges && (kinds == [] || e.kind in kinds)
      && ((e.from == seed.entry.id && e.to == h.entry.id && direction != Incoming) ||
          (e.to == seed.entry.id && e.from == h.entry.id && direction != Outgoing))
      && h.score == seed.score * (if e.weight.Some? then e.weight.value else 0.5) * 0.8
  {
    var net := TraversalNet(store, direction, kinds);
    var path :| net.Walk(seed.entry.id, path) && End(seed.entry.id, path) == h.entry.id &&
      h == ExpansionHit(h.entry, seed.score, path);
    assert |path| == ExpansionHit(h.entry, seed.score, path).depth == 1;
    var e := path[0];
    assert path == [e] && path[..0] == [] && path[1..] == [];
    assert End(seed.entry.id, path) == End(Neighbor(e, seed.entry.id), []) == Neighbor(e, seed.entry.id);
    assert net.Hop(seed.entry.id, e);
    assert h.score == WalkScore(seed.score, []) * e.EffectiveWeight() * 0.8;
    if kinds != [] {
      assert kinds[0] in Kinds(kinds);
    }
  }

  /** Each further step takes its share again. */
  lemma NextStepScore(startScore: real, path: seq<Edge>, e: Edge)
    ensures WalkScore(startScore, []) == startScore
    ensures WalkScore(startScore, path + [e]) ==
      WalkScore(startScore, path) * (if e.weight.Some? then e.weight.value else 0.5) * 0.8
  {
    assert (path + [e])[..|path|] == path;
  }

  lemma {:induction false} WalkUsesNet(net: Net, u: ID, path: seq<Edge>)
    requires net.Walk(u, path)
    ensures forall e :: e in path ==> e in net.edges
    decreases path
  {
    if path != [] {
      WalkUsesNet(net, Neighbor(path[0], u), path[1..]);
      assert path == [path[0]] + path[1..];
    }
  }

  /** Expanding a single seed finds what a traversal from it finds. */
  lemma SingleSeedIsComplete(store: Store, direction: Direction, kinds: seq<string>, depth: nat, seed: Hit,
                             groups: seq<seq<Hit>>)
    requires Waves(store, direction, kinds, depth, [seed], groups)
    ensures SearchSpec(store, TraversalNet(store, direction, kinds), seed.entry.id, depth, Scored(seed.score),
                       Flatten(groups))
  {
    FlattenSnoc([], groups[0]);
    assert groups == [] + [groups[0]];
    assert Taken([seed], groups, 0) == {seed.entry.id};
    assert ExpansionNet(store, direction, kinds, {seed.entry.id}, seed.entry.id)
        == TraversalNet(store, direction, kinds) by {
      assert {seed.entry.id} - {seed.entry.id} == {};
      assert store.entries.Keys - {} == store.entries.Keys;
    }
    assert Wave(store, direction, kinds, depth, seed, Taken([seed], groups, 0), groups[0]);
  }

  lemma {:induction false} FlattenHas(groups: seq<seq<Hit>>, i: nat, h: Hit)
    requires i < |groups| && h in groups[i]
    ensures h in Flatten(groups)
  {
    if i < |groups| - 1 {
      FlattenHas(groups[..|groups| - 1], i, h);
    }
  }

  lemma {:induction false} FlattenFinds(groups: seq<seq<Hit>>, h: Hit) returns (i: nat)
    requires h in Flatten(groups)
    ensures i < |groups| && h in groups[i]
  {
    if h in groups[|groups| - 1] {
      i := |groups| - 1;
    } else {
      i := FlattenFinds(groups[..|groups| - 1], h);
    }
  }

  lemma {:induction false} FlattenTakeHas(groups: seq<seq<Hit>>, n: nat, h: Hit)
    requires n <= |groups| && h in Flatten(groups[..n])
    ensures h in Flatten(groups)
    decreases |groups|
  {
    if n < |groups| {
      var front := groups[..|groups| - 1];
      assert front[..n] == groups[..n];
      FlattenTakeHas(front, n, h);
    } else {
      assert groups[..n] == groups;
    }
  }

  /** A neighbour nobody took before is found in the seed's own turn. */
  lemma NeighborInWave(store: Store, direction: Direction, kinds: seq<string>, seed: Hit, taken: set<ID>,
                       group: seq<Hit>, e: Edge)
    requires Wave(store, direction, kinds, 1, seed, taken, group) && seed.entry.id in taken
    requires TraversalNet(store, direction, kinds).Hop(seed.entry.id, e)
    requires Neighbor(e, seed.entry.id) !in taken
    ensures HasHit(group, Neighbor(e, seed.entry.id))
  {
    hide HasHit, SoundHit, NearestFirst, DistinctHits;
    var u := seed.entry.id;
    var net := ExpansionNet(store, direction, kinds, taken, u);
    assert net.Hop(u, e);
    WalkSnoc(net, u, [], e);
    assert [] + [e] == [e];
  }

  /** At depth 1 every present neighbour of every seed is found. */
  lemma DepthOneIsComplete(store: Store, direction: Direction, kinds: seq<string>, seeds: seq<Hit>,
                           groups: seq<seq<Hit>>, i: nat, e: Edge)
    requires Waves(store, direction, kinds, 1, seeds, groups) && i < |seeds|
    requires TraversalNet(store, direction, kinds).Hop(seeds[i].entry.id, e)
    ensures HasHit(seeds + Flatten(groups), Neighbor(e, seeds[i].entry.id))
  {
    hide SearchSpec, Wave, Net.Hop, Flatten;
    var u := seeds[i].entry.id;
    var v := Neighbor(e, u);
    var taken := Taken(seeds, groups, i);
    if v in Ids(seeds) {
      var h :| h in seeds && h.entry.id == v;
      assert h in seeds + Flatten(groups);
    } else if v in taken {
      var h :| h in Flatten(groups[..i]) && h.entry.id == v;
      FlattenTakeHas(groups, i, h);
      assert h in seeds + Flatten(groups);
    } else {
      assert Wave(store, direction, kinds, 1, seeds[i], taken, groups[i]);
      assert seeds[i] in seeds;
      NeighborInWave(store, direction, kinds, seeds[i], taken, groups[i], e);
      var h :| h in groups[i] && h.entry.id == v;
      FlattenHas(groups, i, h);
      assert h in seeds + Flatten(groups);
    }
  }

  /** In general a seed finds a node exactly when it can reach it without passing
      through seeds or through nodes that earlier seeds found. */
  lemma WaveIsExact(store: Store, direction: Direction, kinds: seq<string>, depth: nat, seed: Hit, taken: set<ID>,
                    group: seq<Hit>, v: ID)
    requires Wave(store, direction, kinds, depth, seed, taken, group)
    ensures HasHit(group, v) <==>
      exists path :: ExpansionNet(store, direction, kinds, taken, seed.entry.id).Walk(seed.entry.id, path) &&
                     |path| <= depth && End(seed.entry.id, path) == v && v != seed.entry.id
  {
    var net := ExpansionNet(store, direction, kinds, taken, seed.entry.id);
    if HasHit(group, v) {
      var h :| h in group && h.entry.id == v;
      assert SoundHit(store, net, seed.entry.id, depth, Scored(seed.score), h);
      var path :| h == Scored(seed.score).Make(h.entry, path) && WalkTo(net, seed.entry.id, depth, path, h.entry.id);
      assert net.Walk(seed.entry.id, path);
    }
  }

  // So nodes can be missed from depth 2 on: with seeds `s` and `t` and edges s->a->x and
  // t->x->y, seed `s` reaches x at its depth limit, and x then blocks the way from `t` to y.

  ghost predicate Crossing(store: Store, s: ID, a: ID, x: ID, t: ID, y: ID) {
    && s !in {a, x, t, y} && a !in {x, t, y} && x !in {t, y} && t != y
    && {s, a, x, t, y} <= store.entries.Keys
    && |store.edges| == 4
    && Joining(store.edges[0], s, a) && Joining(store.edges[1], a, x)
    && Joining(store.edges[2], t, x) && Joining(store.edges[3], x, y)
  }

  predicate Joining(e: Edge, u: ID, v: ID) {
    e.from == u && e.to == v
  }

  /** From any node but y there is one way on. */
  lemma OneWayOn(store: Store, s: ID, a: ID, x: ID, t: ID, y: ID, net: Net, u: ID, e: Edge)
    requires Crossing(store, s, a, x, t, y) && net.edges == store.edges && net.direction == Outgoing
    requires net.Follows(u, e)
    ensures u == s ==> Neighbor(e, u) == a
    ensures u == a ==> Neighbor(e, u) == x
    ensures u == t ==> Neighbor(e, u) == x
  {
  }

  lemma TwoSteps(net: Net, u: ID, path: seq<Edge>)
    requires net.Walk(u, path) && |path| <= 2
    ensures path == [] ==> End(u, path) == u
    ensures |path| > 0 ==> net.Hop(u, path[0])
    ensures |path| == 1 ==> End(u, path) == Neighbor(path[0], u)
    ensures |path| == 2 ==>
      net.Hop(Neighbor(path[0], u), path[1]) && End(u, path) == Neighbor(path[1], Neighbor(path[0], u))
  {
    if path != [] {
      var rest, v := path[1..], Neighbor(path[0], u);
      assert End(u, path) == End(v, rest);
      if rest != [] {
        assert rest[0] == path[1] && rest[1..] == [];
        assert End(v, rest) == End(Neighbor(path[1], v), []);
      }
    }
  }

  lemma TwoHops(net: Net, u: ID, e: Edge, f: Edge)
    requires net.Hop(u, e) && net.Hop(Neighbor(e, u), f)
    ensures net.Walk(u, [e, f]) && End(u, [e, f]) == Neighbor(f, Neighbor(e, u))
  {
    assert [e, f][1..] == [f] && [f][1..] == [];
    assert net.Walk(Neighbor(e, u), [f]);
    TwoSteps(net, u, [e, f]);
  }

  lemma SeedsBlockEachOther(store: Store, s: ID, a: ID, x: ID, t: ID, y: ID, seeds: seq<Hit>, groups: seq<seq<Hit>>)
    requires Crossing(store, s, a, x, t, y)
    requires |seeds| == 2 && seeds[0].entry.id == s && seeds[1].entry.id == t
    requires Waves(store, Outgoing, [], 2, seeds, groups)
    ensures !HasHit(seeds + Flatten(groups), y)
    ensures exists path :: TraversalNet(store, Outgoing, []).Walk(t, path) && |path| == 2 && End(t, path) == y
  {
    hide SearchSpec, Waves;
    TwoHops(TraversalNet(store, Outgoing, []), t, store.edges[2], store.edges[3]);
    FirstTurn(store, seeds, groups);
    FirstWave(store, s, a, x, t, y, seeds, groups[0]);
    SecondWave(store, s, a, x, t, y, seeds, groups);
    assert !HasHit(seeds, y) by {
      assert forall h :: h in seeds ==> h == seeds[0] || h == seeds[1];
    }
    NotInTwoGroups(seeds, groups, y);
  }

  lemma FirstTurn(store: Store, seeds: seq<Hit>, groups: seq<seq<Hit>>)
    requires |seeds| == 2 && Waves(store, Outgoing, [], 2, seeds, groups)
    ensures |groups| == 2 && Wave(store, Outgoing, [], 2, seeds[0], Ids(seeds), groups[0])
  {
    assert Taken(seeds, groups, 0) == Ids(seeds) by {
      assert groups[..0] == [];
    }
    assert Wave(store, Outgoing, [], 2, seeds[0], Taken(seeds, groups, 0), groups[0]);
  }

  lemma NotInTwoGroups(seeds: seq<Hit>, groups: seq<seq<Hit>>, v: ID)
    requires |groups| == 2 && !HasHit(seeds, v) && !HasHit(groups[0], v) && !HasHit(groups[1], v)
    ensures !HasHit(seeds + Flatten(groups), v)
  {
    assert groups == [groups[0]] + [groups[1]];
    FlattenSnoc([groups[0]], groups[1]);
    assert [groups[0]] == [] + [groups[0]];
    FlattenSnoc([], groups[0]);
  }

  lemma SecondTurn(store: Store, seeds: seq<Hit>, groups: seq<seq<Hit>>, x: ID)
    requires |seeds| == 2 && Waves(store, Outgoing, [], 2, seeds, groups) && HasHit(groups[0], x)
    ensures x in Taken(seeds, groups, 1)
    ensures Wave(store, Outgoing, [], 2, seeds[1], Taken(seeds, groups, 1), groups[1])
  {
    hide SearchSpec;
    var h :| h in groups[0] && h.entry.id == x;
    assert h in Flatten(groups[..1]) by {
      assert groups[..1] == [] + [groups[0]];
      FlattenSnoc([], groups[0]);
    }
  }

  lemma FirstWave(store: Store, s: ID, a: ID, x: ID, t: ID, y: ID, seeds: seq<Hit>, group: seq<Hit>)
    requires Crossing(store, s, a, x, t, y)
    requires |seeds| == 2 && seeds[0].entry.id == s && seeds[1].entry.id == t
    requires Wave(store, Outgoing, [], 2, seeds[0], Ids(seeds), group)
    ensures HasHit(group, x) && !HasHit(group, y)
  {
    hide SearchSpec, HasHit;
    var net := ExpansionNet(store, Outgoing, [], Ids(seeds), s);
    assert forall h :: h in seeds ==> h == seeds[0] || h == seeds[1];
    TwoHops(net, s, store.edges[0], store.edges[1]);
    WaveIsExact(store, Outgoing, [], 2, seeds[0], Ids(seeds), group, x);
    WaveIsExact(store, Outgoing, [], 2, seeds[0], Ids(seeds), group, y);
    forall path | net.Walk(s, path) && |path| <= 2
      ensures End(s, path) != y
    {
      TwoSteps(net, s, path);
      if |path| > 0 {
        OneWayOn(store, s, a, x, t, y, net, s, path[0]);
      }
      if |path| > 1 {
        OneWayOn(store, s, a, x, t, y, net, a, path[1]);
      }
    }
  }

  lemma SecondWave(store: Store, s: ID, a: ID, x: ID, t: ID, y: ID, seeds: seq<Hit>, groups: seq<seq<Hit>>)
    requires Crossing(store, s, a, x, t, y)
    requires |seeds| == 2 && seeds[0].entry.id == s && seeds[1].entry.id == t
    requires Waves(store, Outgoing, [], 2, seeds, groups) && HasHit(groups[0], x)
    ensures !HasHit(groups[1], y)
  {
    var taken := Taken(seeds, groups, 1);
    SecondTurn(store, seeds, groups, x);
    hide SearchSpec, HasHit, Taken, Waves;
    var net := ExpansionNet(store, Outgoing, [], taken, t);
    WaveIsExact(store, Outgoing, [], 2, seeds[1], taken, groups[1], y);
    forall path | net.Walk(t, path) && |path| <= 2
      ensures End(t, path) != y
    {
      TwoSteps(net, t, path);
      if |path| > 0 {
        OneWayOn(store, s, a, x, t, y, net, t, path[0]);
      }
    }
  }
}
