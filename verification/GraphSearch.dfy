/** Graph traversal and shortest paths (`query/graph.go`). */
module GraphSearch {
  import opened Model
  import opened Walks
  import BFS = BreadthFirst

  datatype GraphOptions = GraphOptions(
    startID: ID,
    direction: Direction,
    maxDepth: int,
    edgeTypes: seq<string>,
    includeStart: bool)

  /** The edges a search fetches for `u`: outgoing ones first, then incoming ones. */
  function Incident(store: Store, u: ID, direction: Direction, kind: string): (rows: seq<Edge>)
    ensures forall e :: e in rows <==>
      && e in store.edges
      && (kind == "" || e.kind == kind)
      && ((direction != Incoming && e.from == u) || (direction != Outgoing && e.to == u))
  {
    (if direction != Incoming then store.EdgesFrom(u, kind) else []) +
    (if direction != Outgoing then store.EdgesTo(u, kind) else [])
  }

  /** Exactly one requested type is also pushed down to the store. */
  function StoreFilter(edgeTypes: seq<string>): string {
    if |edgeTypes| == 1 then edgeTypes[0] else ""
  }

  function EffectiveDepth(maxDepth: int, default: nat): nat
    requires default > 0
  {
    if maxDepth <= 0 then default else maxDepth
  }

  function Kinds(edgeTypes: seq<string>): set<string> {
    set t | t in edgeTypes
  }

  /** Traversal enters only entries that are present. */
  function TraversalNet(store: Store, direction: Direction, edgeTypes: seq<string>): Net {
    Net(store.edges, direction, Kinds(edgeTypes), Some(store.entries.Keys))
  }

  /** The fetched edges that pass the type check are the ones the net follows. */
  lemma IncidentFollows(store: Store, u: ID, direction: Direction, edgeTypes: seq<string>, gate: Option<set<ID>>)
    ensures var net := Net(store.edges, direction, Kinds(edgeTypes), gate);
      forall e :: net.Follows(u, e) <==>
        && e in Incident(store, u, direction, StoreFilter(edgeTypes))
        && (Kinds(edgeTypes) == {} || e.kind in Kinds(edgeTypes))
  {
    if |edgeTypes| == 1 {
      assert edgeTypes == [edgeTypes[0]];
      assert Kinds(edgeTypes) == {edgeTypes[0]};
    }
  }

  /** Every node an edge can lead to. */
  function Endpoints(edges: seq<Edge>): set<ID> {
    (set e | e in edges :: e.from) + (set e | e in edges :: e.to)
  }

  function TraversalHit(entry: Entry, path: seq<Edge>): Hit {
    Hit(entry, 0.0, Traversal, |path|, path, false, [])
  }

  const EXPANSION_DEPTH_DECAY := 0.8

  /** A score that loses its share at every edge of a walk. */
  function WalkScore(startScore: real, path: seq<Edge>): real {
    if path == [] then startScore
    else WalkScore(startScore, path[..|path| - 1]) * path[|path| - 1].EffectiveWeight() * EXPANSION_DEPTH_DECAY
  }

  function ExpansionHit(entry: Entry, startScore: real, path: seq<Edge>): Hit {
    Hit(entry, WalkScore(startScore, path), Expansion, |path|,
        if path == [] then [] else [path[|path| - 1]], false, [])
  }

  /** How a search turns a node and the walk to it into a result. */
  datatype Reporting = Plain | Scored(startScore: real) {
    function Make(entry: Entry, path: seq<Edge>): (h: Hit)
      ensures h.entry == entry && h.depth == |path|
    {
      if Plain? then TraversalHit(entry, path) else ExpansionHit(entry, startScore, path)
    }
  }

  /** From index `base` on, `hits` reports each node of the tree but the start
      exactly once, in order of depth. */
  ghost predicate Reported(store: Store, start: ID, tree: BFS.Tree, how: Reporting, hits: seq<Hit>, base: nat) {
    && base <= |hits|
    && (forall i :: base <= i < |hits| ==>
          var v := hits[i].entry.id;
          v != start && v in tree && v in store.entries && hits[i] == how.Make(store.entries[v], tree[v]))
    && (forall i, j :: base <= i < j < |hits| ==> hits[i].entry.id != hits[j].entry.id)
    && (forall i, j :: base <= i < j < |hits| ==> hits[i].depth <= hits[j].depth)
    && (forall v :: v in tree && v != start ==> HasHit(hits[base..], v))
  }

  lemma ReportNothing(store: Store, start: ID, how: Reporting, hits: seq<Hit>)
    ensures Reported(store, start, map[start := []], how, hits, |hits|)
  {
  }

  lemma Report(store: Store, start: ID, tree: BFS.Tree, how: Reporting, hits: seq<Hit>, base: nat, v: ID,
               path: seq<Edge>)
    requires Reported(store, start, tree, how, hits, base)
    requires v in store.entries && store.entries[v].id == v && v != start && v !in tree
    requires BFS.Within(tree, |path|)
    ensures Reported(store, start, tree[v := path], how, hits + [how.Make(store.entries[v], path)], base)
  {
    hide Reporting.Make, HasHit;
    var hit := how.Make(store.entries[v], path);
    var hits' := hits + [hit];
    assert forall w :: w in tree[v := path] ==> w in tree || w == v;
    forall w | w in tree[v := path] && w != start
      ensures HasHit(hits'[base..], w)
    {
      HasHitSnoc(hits[base..], hit, w);
      assert hits'[base..] == hits[base..] + [hit];
    }
  }

  /** A present entry, reported for a shortest walk of at most `max` steps to it. */
  ghost predicate SoundHit(store: Store, net: Net, start: ID, max: nat, how: Reporting, h: Hit) {
    && h.entry.id in store.entries && h.entry == store.entries[h.entry.id]
    && h.entry.id != start
    && exists path :: h == how.Make(h.entry, path) && WalkTo(net, start, max, path, h.entry.id)
  }

  ghost predicate WalkTo(net: Net, start: ID, max: nat, path: seq<Edge>, v: ID) {
    net.Shortest(start, path) && End(start, path) == v && 1 <= |path| <= max
  }

  /** What a search promises: the entries within reach, each once, nearest first, each
      with a shortest walk that leads to it. */
  ghost predicate SearchSpec(store: Store, net: Net, start: ID, max: nat, how: Reporting, hits: seq<Hit>) {
    && DistinctHits(hits)
    && NearestFirst(hits)
    && (forall h :: h in hits ==> SoundHit(store, net, start, max, how, h))
    && AllFound(net, start, max, hits)
  }

  ghost predicate NearestFirst(hits: seq<Hit>) {
    forall i, j :: 0 <= i < j < |hits| ==> hits[i].depth <= hits[j].depth
  }

  ghost predicate AllFound(net: Net, start: ID, max: nat, hits: seq<Hit>) {
    forall path :: net.Walk(start, path) && |path| <= max && End(start, path) != start ==>
      HasHit(hits, End(start, path))
  }

  /** A plain traversal also reports the walk itself, so depth and walk are exact. */
  lemma PlainHitIsExact(store: Store, net: Net, start: ID, max: nat, h: Hit)
    requires SoundHit(store, net, start, max, Plain, h)
    ensures net.Shortest(start, h.edgePath) && End(start, h.edgePath) == h.entry.id
    ensures h == Hit(h.entry, 0.0, Traversal, |h.edgePath|, h.edgePath, false, [])
  {
  }

  lemma ReportedIsSpec(store: Store, s: BFS.Search, how: Reporting, hits: seq<Hit>, base: nat)
    requires store.Valid()
    requires s.queue == [] && s.Frontier()
    requires Reported(store, s.start, s.tree, how, hits, base)
    ensures SearchSpec(store, s.net, s.start, s.max, how, hits[base..])
  {
    hide Net.Walk, Net.Shortest, HasHit, Reporting.Make;
    BFS.Exact(s);
    var found := hits[base..];
    forall h | h in found
      ensures SoundHit(store, s.net, s.start, s.max, how, h)
    {
      var i :| 0 <= i < |found| && found[i] == h;
      ReportedSound(store, s, how, hits, base, base + i);
    }
    assert AllFound(s.net, s.start, s.max, found);
    assert DistinctHits(found) && NearestFirst(found);
    hide SoundHit;
  }

  lemma ReportedSound(store: Store, s: BFS.Search, how: Reporting, hits: seq<Hit>, base: nat, i: nat)
    requires store.Valid() && BFS.Rooted(s.net, s.start, s.tree)
    requires forall v :: v in s.tree ==> s.net.Shortest(s.start, s.tree[v]) && |s.tree[v]| <= s.max
    requires Reported(store, s.start, s.tree, how, hits, base) && base <= i < |hits|
    ensures SoundHit(store, s.net, s.start, s.max, how, hits[i])
  {
    var v := hits[i].entry.id;
    assert WalkTo(s.net, s.start, s.max, s.tree[v], v);
  }

  /** The queue items are the queued nodes with their depths and walks. */
  ghost predicate Queued(tree: BFS.Tree, order: seq<ID>, queue: seq<(ID, nat, seq<Edge>)>) {
    && |queue| == |order|
    && forall i :: 0 <= i < |queue| ==> QueuedItem(tree, order[i], queue[i])
  }

  ghost predicate QueuedItem(tree: BFS.Tree, v: ID, item: (ID, nat, seq<Edge>)) {
    item.0 == v && v in tree && item.2 == tree[v] && item.1 == |item.2|
  }

  lemma QueuedHead(tree: BFS.Tree, order: seq<ID>, queue: seq<(ID, nat, seq<Edge>)>)
    requires Queued(tree, order, queue)
    ensures queue == [] <==> order == []
    ensures queue != [] ==> QueuedItem(tree, order[0], queue[0]) && Queued(tree, order[1..], queue[1..])
  {
  }

  lemma QueuedFound(tree: BFS.Tree, order: seq<ID>, queue: seq<(ID, nat, seq<Edge>)>, v: ID, depth: nat,
                    path: seq<Edge>)
    requires Queued(tree, order, queue) && v !in tree && depth == |path|
    ensures Queued(tree[v := path], order + [v], queue + [(v, depth, path)])
  {
  }

  /** Scanning an edge either changes nothing or uses up an unvisited node. */
  ghost predicate Progress(universe: set<ID>, visited0: set<ID>, visited: set<ID>, n0: nat, n: nat) {
    && visited0 <= visited
    && (visited == visited0 || universe - visited < universe - visited0)
    && (visited == visited0 ==> n <= n0)
  }

  lemma Advance(universe: set<ID>, visited0: set<ID>, visited: set<ID>, n0: nat, n: nat, n': nat, v: ID)
    requires Progress(universe, visited0, visited, n0, n) && v in universe && v !in visited
    ensures Progress(universe, visited0, visited + {v}, n0, n')
  {
    assert v in universe - visited0 && v !in universe - (visited + {v});
  }

  method Traverse(store: Store, opts: GraphOptions) returns (r: Outcome<seq<Hit>>)
    requires store.Valid()
    ensures opts.startID == ZERO_ID ==> r == Err(IDRequired)
    ensures opts.startID != ZERO_ID && opts.includeStart && opts.startID !in store.entries ==> r == Err(NotFound)
    ensures opts.startID != ZERO_ID && (opts.includeStart ==> opts.startID in store.entries) ==>
      && r.Ok?
      && var base := if opts.includeStart then 1 else 0;
      && base <= |r.value|
      && (opts.includeStart ==> r.value[0] == Hit(store.entries[opts.startID], 0.0, Traversal, 0, [], false, []))
      && SearchSpec(store, TraversalNet(store, opts.direction, opts.edgeTypes), opts.startID,
                    if opts.maxDepth > 0 then opts.maxDepth else 1, Plain, r.value[base..])
  {
    hide BFS.Search.Frontier, BFS.Search.Expanding, BFS.Within, Reported, SearchSpec, Net.Walk, Net.Shortest, End,
         Incident, HasHit, Store.EdgesFrom, Store.EdgesTo, StoreFilter;
    var start := opts.startID;
    if start == ZERO_ID {
      return Err(IDRequired);
    }
    var maxDepth := EffectiveDepth(opts.maxDepth, 1);
    var edgeFilter, edgeTypeSet := StoreFilter(opts.edgeTypes), Kinds(opts.edgeTypes);
    var results: seq<Hit> := [];
    if opts.includeStart {
      if start !in store.entries {
        return Err(NotFound);
      }
      results := [TraversalHit(store.entries[start], [])];
    }
    var visited := {start};
    var queue: seq<(ID, nat, seq<Edge>)> := [(start, 0, [])];

    ghost var net := TraversalNet(store, opts.direction, opts.edgeTypes);
    ghost var base := |results|;
    assert base == 1 <==> opts.includeStart;
    ghost var universe := Endpoints(store.edges);
    ghost var s := BFS.Search(net, start, maxDepth, map[start := []], visited, [start]);
    BFS.Start(net, start, maxDepth, visited);
    ReportNothing(store, start, Plain, results);
    assert Queued(s.tree, s.queue, queue);
    hide Queued;

    while queue != []
      invariant s.Frontier() && s.Explores(net, start, maxDepth, visited)
      invariant Queued(s.tree, s.queue, queue)
      invariant Reported(store, start, s.tree, Plain, results, base)
      invariant base <= |results| && (base == 1 ==> results[0] == TraversalHit(store.entries[start], []))
      decreases universe - visited, |queue|
    {
      QueuedHead(s.tree, s.queue, queue);
      var (u, depth, path) := queue[0];
      queue := queue[1..];
      if depth >= maxDepth {
        BFS.Dropped(s);
        s := s.Drop();
        continue;
      }
      var edges := Incident(store, u, opts.direction, edgeFilter);
      IncidentFollows(store, u, opts.direction, opts.edgeTypes, net.gate);
      BFS.Dequeued(s, edges);
      s := s.Drop();
      ghost var visited0, queue0 := visited, queue;
      for i := 0 to |edges|
        invariant s.Expanding(u, edges, i) && s.Explores(net, start, maxDepth, visited)
        invariant u in s.tree && s.tree[u] == path && depth == |path|
        invariant Queued(s.tree, s.queue, queue)
        invariant Reported(store, start, s.tree, Plain, results, base)
        invariant base <= |results| && (base == 1 ==> results[0] == TraversalHit(store.entries[start], []))
        invariant Progress(universe, visited0, visited, |queue0|, |queue|)
      {
        var edge := edges[i];
        if edgeTypeSet != {} && edge.kind !in edgeTypeSet {
          BFS.Skipped(s, u, edges, i);
          continue;
        }
        var neighbor := Neighbor(edge, u);
        if neighbor in visited {
          BFS.Skipped(s, u, edges, i);
          continue;
        }
        Advance(universe, visited0, visited, |queue0|, |queue|, |queue| + 1, neighbor);
        visited := visited + {neighbor};
        if neighbor !in store.entries {
          BFS.ShutOut(s, u, edges, i);
          s := s.Shut(neighbor);
          continue;
        }
        var newPath := path + [edge];
        BFS.Discovered(s, u, edges, i);
        Report(store, start, s.tree, Plain, results, base, neighbor, newPath);
        QueuedFound(s.tree, s.queue, queue, neighbor, depth + 1, newPath);
        s := s.Found(neighbor, newPath);
        results := results + [TraversalHit(store.entries[neighbor], newPath)];
        queue := queue + [(neighbor, depth + 1, newPath)];
      }
      BFS.Expanded(s, u, edges);
    }
    QueuedHead(s.tree, s.queue, queue);
    ReportedIsSpec(store, s, Plain, results, base);
    return Ok(results);
  }

  /** Path search follows every edge in both directions and enters every node,
      present or not. */
  function PathNet(store: Store): Net {
    Net(store.edges, Both, {}, None)
  }

  function NodeAt(start: ID, path: seq<Edge>, i: nat): ID
    requires i <= |path|
  {
    End(start, path[..i])
  }

  ghost predicate Simple(start: ID, path: seq<Edge>) {
    forall i, j :: 0 <= i < j <= |path| ==> NodeAt(start, path, i) != NodeAt(start, path, j)
  }

  lemma ShortestIsSimple(net: Net, start: ID, path: seq<Edge>)
    requires net.Shortest(start, path)
    ensures Simple(start, path)
  {
    forall i, j | 0 <= i < j <= |path|
      ensures NodeAt(start, path, i) != NodeAt(start, path, j)
    {
      if NodeAt(start, path, i) == NodeAt(start, path, j) {
        WalkTake(net, start, path, i);
        WalkTake(net, start, path, j);
        WalkConcat(net, start, path[..i], path[j..]);
      }
    }
  }

  lemma NodeAtNext(net: Net, start: ID, path: seq<Edge>, i: nat)
    requires net.Walk(start, path) && i < |path|
    ensures NodeAt(start, path, i + 1) == Neighbor(path[i], NodeAt(start, path, i))
    ensures net.Hop(NodeAt(start, path, i), path[i])
  {
    WalkTake(net, start, path, i);
    WalkConcat(net, start, path[..i], [path[i]]);
    assert path[..i] + [path[i]] == path[..i + 1];
    assert [path[i]][1..] == [];
  }

  /** One result for each present node the path visits after its start, in path order. */
  function PathHits(store: Store, start: ID, path: seq<Edge>, n: nat): (hits: seq<Hit>)
    requires n <= |path|
  {
    if n == 0 then []
    else
      var v := NodeAt(start, path, n);
      PathHits(store, start, path, n - 1) +
      (if v in store.entries then [TraversalHit(store.entries[v], path[..n])] else [])
  }

  /** When every entry on the path is present the results are its node sequence, at
      depths 1, 2, ..., each with the part of the path that leads to it. */
  lemma {:induction false} PathHitsInOrder(store: Store, start: ID, path: seq<Edge>, n: nat)
    requires n <= |path|
    requires forall i :: 0 < i <= n ==> NodeAt(start, path, i) in store.entries
    ensures var hits := PathHits(store, start, path, n);
      && |hits| == n
      && forall i :: 0 < i <= n ==> hits[i - 1] == TraversalHit(store.entries[NodeAt(start, path, i)], path[..i])
  {
    if n > 0 {
      PathHitsInOrder(store, start, path, n - 1);
    }
  }

  /** A present entry other than the start, at an end of the edge that brings its depth. */
  ghost predicate PathHit(store: Store, startID: ID, edges: seq<Edge>, h: Hit) {
    && h.entry.id in store.entries && h.entry.id != startID && 0 < h.depth <= |edges|
    && h == TraversalHit(store.entries[h.entry.id], edges[..h.depth])
    && (edges[h.depth - 1].from == h.entry.id || edges[h.depth - 1].to == h.entry.id)
  }

  /** Any edges at all lead to present entries, each once, by increasing depth; the edges of a
      walk that visits no node twice, to the nodes of that walk. */
  method BuildPathResults(store: Store, startID: ID, edges: seq<Edge>) returns (results: seq<Hit>)
    requires store.Valid()
    ensures DistinctHits(results)
    ensures forall i, j :: 0 <= i < j < |results| ==> results[i].depth < results[j].depth
    ensures forall h :: h in results ==> PathHit(store, startID, edges, h)
    ensures PathNet(store).Walk(startID, edges) && Simple(startID, edges) ==>
      results == PathHits(store, startID, edges, |edges|)
  {
    results := [];
    var seen := {startID};
    ghost var simple := PathNet(store).Walk(startID, edges) && Simple(startID, edges);
    assert NodeAt(startID, edges, 0) == startID;
    for i := 0 to |edges|
      invariant startID in seen && DistinctHits(results)
      invariant forall h :: h in results ==> h.entry.id in seen && h.depth <= i && PathHit(store, startID, edges, h)
      invariant forall k, l :: 0 <= k < l < |results| ==> results[k].depth < results[l].depth
      invariant simple ==> results == PathHits(store, startID, edges, i)
      invariant simple ==> forall v :: v in seen <==> exists k :: 0 <= k <= i && v == NodeAt(startID, edges, k)
    {
      var edge := edges[i];
      var targetID := if edge.from !in seen then edge.from else edge.to;
      if simple {
        NodeAtNext(PathNet(store), startID, edges, i);
        assert NodeAt(startID, edges, i) in seen;
        assert NodeAt(startID, edges, i + 1) !in seen;
        assert targetID == NodeAt(startID, edges, i + 1);
      }
      if targetID in seen {
        continue;
      }
      seen := seen + {targetID};
      if targetID !in store.entries {
        continue;
      }
      results := results + [TraversalHit(store.entries[targetID], edges[..i + 1])];
    }
  }

  /** The results describe a shortest path of at most `max` edges. */
  ghost predicate PathAnswer(store: Store, from: ID, to: ID, max: nat, hits: seq<Hit>) {
    exists path ::
      && PathNet(store).Shortest(from, path) && End(from, path) == to
      && 0 < |path| <= max
      && hits == PathHits(store, from, path, |path|)
  }

  /** With every node on hand, an answer spells out a shortest path node by node and
      ends at the target. */
  lemma PathAnswerInOrder(store: Store, from: ID, to: ID, max: nat, hits: seq<Hit>)
    requires PathAnswer(store, from, to, max, hits)
    requires forall v :: v in Endpoints(store.edges) ==> v in store.entries && store.entries[v].id == v
    ensures exists path ::
      && PathNet(store).Shortest(from, path)
      && |hits| == |path| > 0
      && (forall i :: 0 < i <= |path| ==>
            && hits[i - 1].entry.id == NodeAt(from, path, i)
            && hits[i - 1].depth == i
            && hits[i - 1].edgePath == path[..i]
            && hits[i - 1].score == 0.0 && hits[i - 1].reach == Traversal)
      && hits[|hits| - 1].entry.id == to
  {
    var path :| PathNet(store).Shortest(from, path) && End(from, path) == to && 0 < |path| <= max
      && hits == PathHits(store, from, path, |path|);
    forall i | 0 < i <= |path|
      ensures NodeAt(from, path, i) in Endpoints(store.edges)
    {
      NodeAtNext(PathNet(store), from, path, i - 1);
    }
    PathHitsInOrder(store, from, path, |path|);
    assert path[..|path|] == path;
  }

  ghost predicate Connected(store: Store, from: ID, to: ID, max: nat) {
    exists path :: PathNet(store).Walk(from, path) && End(from, path) == to && |path| <= max
  }

  method FindPath(store: Store, fromID: ID, toID: ID, maxDepth: int) returns (r: Outcome<Option<seq<Hit>>>)
    requires store.Valid()
    ensures fromID == ZERO_ID || toID == ZERO_ID ==> r == Err(IDRequired)
    ensures fromID != ZERO_ID && toID != ZERO_ID ==> r.Ok?
    ensures r.Ok? ==>
      (r.value.Some? <==>
         fromID != toID && Connected(store, fromID, toID, if maxDepth > 0 then maxDepth else 5))
    ensures r.Ok? && r.value.Some? ==>
      PathAnswer(store, fromID, toID, if maxDepth > 0 then maxDepth else 5, r.value.value)
  {
    hide BFS.Search.Frontier, BFS.Search.Expanding, BFS.Within, PathAnswer, Connected,
         Net.Walk, Net.Shortest, End, Incident, Store.EdgesFrom, Store.EdgesTo, Simple, PathHits;
    if fromID == ZERO_ID || toID == ZERO_ID {
      return Err(IDRequired);
    }
    var max := EffectiveDepth(maxDepth, 5);
    var visited := {fromID};
    var queue: seq<(ID, nat, seq<Edge>)> := [(fromID, 0, [])];

    ghost var net := PathNet(store);
    ghost var universe := Endpoints(store.edges);
    ghost var s := BFS.Search(net, fromID, max, map[fromID := []], visited, [fromID]);
    assert net.Open(fromID);
    BFS.Start(net, fromID, max, visited);
    assert Queued(s.tree, s.queue, queue);
    hide Queued;

    while queue != []
      invariant s.Frontier() && s.Explores(net, fromID, max, visited)
      invariant Queued(s.tree, s.queue, queue)
      invariant toID in visited ==> toID == fromID
      decreases universe - visited, |queue|
    {
      QueuedHead(s.tree, s.queue, queue);
      var (u, depth, path) := queue[0];
      queue := queue[1..];
      if depth >= max {
        BFS.Dropped(s);
        s := s.Drop();
        continue;
      }
      var edges := Incident(store, u, Both, "");
      IncidentFollows(store, u, Both, [], None);
      BFS.Dequeued(s, edges);
      s := s.Drop();
      ghost var visited0, queue0 := visited, queue;
      for i := 0 to |edges|
        invariant s.Expanding(u, edges, i) && s.Explores(net, fromID, max, visited)
        invariant u in s.tree && s.tree[u] == path && depth == |path|
        invariant Queued(s.tree, s.queue, queue)
        invariant toID in visited ==> toID == fromID
        invariant Progress(universe, visited0, visited, |queue0|, |queue|)
      {
        var edge := edges[i];
        var neighbor := Neighbor(edge, u);
        if neighbor in visited {
          BFS.Skipped(s, u, edges, i);
          continue;
        }
        Advance(universe, visited0, visited, |queue0|, |queue|, |queue| + 1, neighbor);
        visited := visited + {neighbor};
        var newPath := path + [edge];
        if neighbor == toID {
          FoundShortest(store, s, toID, u, edges, i);
          var results := BuildPathResults(store, fromID, newPath);
          Answered(store, fromID, toID, max, newPath, results);
          return Ok(Some(results));
        }
        BFS.Discovered(s, u, edges, i);
        QueuedFound(s.tree, s.queue, queue, neighbor, depth + 1, newPath);
        s := s.Found(neighbor, newPath);
        queue := queue + [(neighbor, depth + 1, newPath)];
      }
      BFS.Expanded(s, u, edges);
    }
    QueuedHead(s.tree, s.queue, queue);
    Unreachable(store, s, toID);
    return Ok(None);
  }

  lemma FoundShortest(store: Store, s: BFS.Search, toID: ID, u: ID, edges: seq<Edge>, i: nat)
    requires s.net == PathNet(store) && s.Expanding(u, edges, i) && i < |edges|
    requires s.net.Follows(u, edges[i]) && Neighbor(edges[i], u) == toID && toID !in s.seen
    ensures var path := s.tree[u] + [edges[i]];
      s.net.Shortest(s.start, path) && End(s.start, path) == toID && |path| <= s.max && Simple(s.start, path)
  {
    var path := s.tree[u] + [edges[i]];
    WalkSnoc(s.net, s.start, s.tree[u], edges[i]);
    forall other | s.net.Walk(s.start, other) && End(s.start, other) == toID
      ensures |path| <= |other|
    {
      BFS.NotYetFound(s, u, edges, i, other);
    }
    ShortestIsSimple(s.net, s.start, path);
  }

  lemma Answered(store: Store, from: ID, to: ID, max: nat, path: seq<Edge>, hits: seq<Hit>)
    requires PathNet(store).Shortest(from, path) && End(from, path) == to && 0 < |path| <= max
    requires hits == PathHits(store, from, path, |path|)
    ensures PathAnswer(store, from, to, max, hits) && Connected(store, from, to, max)
  {
  }

  lemma Unreachable(store: Store, s: BFS.Search, toID: ID)
    requires s.net == PathNet(store) && s.Frontier() && s.queue == []
    requires toID in s.seen ==> toID == s.start
    ensures Connected(store, s.start, toID, s.max) ==> toID == s.start
  {
    BFS.Exact(s);
    if Connected(store, s.start, toID, s.max) {
      var path :| PathNet(store).Walk(s.start, path) && End(s.start, path) == toID && |path| <= s.max;
      assert toID in s.tree;
    }
  }
}
