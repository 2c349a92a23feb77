/** The neighbourhood graph of the web view (`webui/api.go`). */
module Mesh {
  import opened Model
  import opened Walks
  import opened GraphSearch
  import Sorting

  datatype Graph = Graph(nodes: seq<Entry>, edges: seq<Edge>)

  ghost predicate Ascending(edges: seq<Edge>) {
    forall i, j :: 0 <= i < j < |edges| ==> edges[i].id < edges[j].id
  }

  /** `sortEdges`: by ID, so that the order does not depend on map iteration. */
  method SortEdges(edges: seq<Edge>) returns (sorted: seq<Edge>)
    requires forall i, j :: 0 <= i < j < |edges| ==> edges[i].id != edges[j].id
    ensures Ascending(sorted)
    ensures forall e :: e in sorted <==> e in edges
  {
    var less := (a: Edge, b: Edge) => a.id < b.id;
    sorted := Sorting.SortSlice(edges, less);
    Sorting.SameMembers(edges, sorted);
    Sorting.PermutationKeepsNoRepeats(edges, sorted);
    assert forall e, f :: e in edges && f in edges && e.id == f.id ==> e == f;
    forall i, j | 0 <= i < j < |sorted|
      ensures sorted[i].id < sorted[j].id
    {
      assert !less(sorted[j], sorted[i]) && sorted[i] in edges && sorted[j] in edges;
    }
  }

  ghost predicate Joins(e: Edge, nodes: set<ID>) {
    e.from in nodes && e.to in nodes
  }

  /** The map holds edges of the subgraph induced by `nodes`, keyed by their IDs. */
  ghost predicate Within(store: Store, nodes: set<ID>, edgeSet: map<ID, Edge>) {
    forall id :: id in edgeSet ==> edgeSet[id].id == id && edgeSet[id] in store.edges && Joins(edgeSet[id], nodes)
  }

  /** Each joining edge among `edges` is in the map. */
  ghost predicate Covers(edges: seq<Edge>, nodes: set<ID>, edgeSet: map<ID, Edge>) {
    forall e :: e in edges && Joins(e, nodes) ==> e.id in edgeSet
  }

  function Touching(store: Store, id: ID): seq<Edge> {
    store.EdgesFrom(id, "") + store.EdgesTo(id, "")
  }

  /** Collects each edge that touches a result once, when both its ends are results. */
  method CollectEdges(store: Store, results: seq<Hit>, nodeSet: set<ID>) returns (edgeSet: map<ID, Edge>)
    requires store.Valid() && nodeSet == Ids(results)
    ensures forall id :: id in edgeSet ==> edgeSet[id].id == id
    ensures forall e :: e in edgeSet.Values <==> e in store.edges && Joins(e, nodeSet)
  {
    hide Store.Valid, Ids, Store.EdgesFrom, Store.EdgesTo;
    edgeSet := map[];
    for i := 0 to |results|
      invariant Within(store, nodeSet, edgeSet)
      invariant forall k :: 0 <= k < i ==> Covers(Touching(store, results[k].entry.id), nodeSet, edgeSet)
    {
      var incident := Touching(store, results[i].entry.id);
      ghost var before := edgeSet;
      for j := 0 to |incident|
        invariant Within(store, nodeSet, edgeSet) && before.Keys <= edgeSet.Keys
        invariant forall k :: 0 <= k < j && Joins(incident[k], nodeSet) ==> incident[k].id in edgeSet
      {
        var edge := incident[j];
        if edge.from in nodeSet && edge.to in nodeSet {
          edgeSet := edgeSet[edge.id := edge];
        }
      }
      assert Covers(incident, nodeSet, edgeSet);
      assert forall k :: 0 <= k < i ==> Covers(Touching(store, results[k].entry.id), nodeSet, before);
    }
    AllCovered(store, results, nodeSet, edgeSet);
  }

  lemma AllCovered(store: Store, results: seq<Hit>, nodeSet: set<ID>, edgeSet: map<ID, Edge>)
    requires store.Valid() && nodeSet == Ids(results) && Within(store, nodeSet, edgeSet)
    requires forall k :: 0 <= k < |results| ==> Covers(Touching(store, results[k].entry.id), nodeSet, edgeSet)
    ensures forall e :: e in edgeSet.Values <==> e in store.edges && Joins(e, nodeSet)
  {
    hide Store.Valid;
    forall e | e in store.edges && Joins(e, nodeSet)
      ensures e.id in edgeSet && edgeSet[e.id] == e
    {
      var k :| 0 <= k < |results| && e.from == results[k].entry.id;
      assert e in Touching(store, results[k].entry.id);
      OneEdgePerID(store, e, edgeSet[e.id]);
    }
  }

  lemma OneEdgePerID(store: Store, e: Edge, f: Edge)
    requires store.Valid() && e in store.edges && f in store.edges && e.id == f.id
    ensures e == f
  {
  }

  method Values(edgeSet: map<ID, Edge>) returns (edges: seq<Edge>)
    requires forall id :: id in edgeSet ==> edgeSet[id].id == id
    ensures forall e :: e in edges <==> e in edgeSet.Values
    ensures forall i, j :: 0 <= i < j < |edges| ==> edges[i].id != edges[j].id
  {
    edges := [];
    var keys := edgeSet.Keys;
    while keys != {}
      invariant keys <= edgeSet.Keys
      invariant forall e :: e in edges <==> e.id in edgeSet && e.id !in keys && e == edgeSet[e.id]
      invariant forall i, j :: 0 <= i < j < |edges| ==> edges[i].id != edges[j].id
      decreases keys
    {
      var key :| key in keys;
      assert forall i :: 0 <= i < |edges| ==> edges[i] in edges;
      edges := edges + [edgeSet[key]];
      keys := keys - {key};
    }
  }

  method BuildMesh(store: Store, results: seq<Hit>) returns (g: Graph)
    requires store.Valid()
    ensures |g.nodes| == |results| && forall i :: 0 <= i < |results| ==> g.nodes[i] == results[i].entry
    ensures Ascending(g.edges)
    ensures forall e :: e in g.edges <==> e in store.edges && Joins(e, Ids(results))
  {
    var nodeSet: set<ID>, nodes: seq<Entry> := {}, [];
    for i := 0 to |results|
      invariant forall v :: v in nodeSet <==> exists k :: 0 <= k < i && v == results[k].entry.id
      invariant |nodes| == i && forall k :: 0 <= k < i ==> nodes[k] == results[k].entry
    {
      nodeSet := nodeSet + {results[i].entry.id};
      nodes := nodes + [results[i].entry];
    }
    assert nodeSet == Ids(results);
    var edgeSet := CollectEdges(store, results, nodeSet);
    var edges := Values(edgeSet);
    edges := SortEdges(edges);
    return Graph(nodes, edges);
  }

  /** The nodes within `max` steps of `start`, and `start` itself. */
  ghost predicate InBall(net: Net, start: ID, max: nat, v: ID) {
    exists path :: net.Walk(start, path) && |path| <= max && End(start, path) == v
  }

  /** The subgraph induced by a ball: every edge between two of its nodes, also those no
      shortest walk uses and those of types the traversal did not follow. */
  ghost predicate InducedByBall(store: Store, net: Net, start: ID, max: nat, g: Graph) {
    && (forall i, j :: 0 <= i < j < |g.nodes| ==> g.nodes[i].id != g.nodes[j].id)
    && (forall n :: n in g.nodes ==> n.id in store.entries && n == store.entries[n.id])
    && (forall v :: (exists n :: n in g.nodes && n.id == v) <==> InBall(net, start, max, v))
    && Ascending(g.edges)
    && (forall e :: e in g.edges <==>
          e in store.edges && InBall(net, start, max, e.from) && InBall(net, start, max, e.to))
  }

  /** `handleNeighbors`: traverse from the start entry, then rebuild the mesh. */
  method Neighbors(store: Store, id: ID, direction: Direction, depth: int, edgeTypes: seq<string>)
    returns (r: Outcome<Graph>)
    requires store.Valid()
    ensures id == ZERO_ID ==> r == Err(IDRequired)
    ensures id != ZERO_ID && id !in store.entries ==> r == Err(NotFound)
    ensures id != ZERO_ID && id in store.entries ==>
      && r.Ok?
      && InducedByBall(store, TraversalNet(store, direction, edgeTypes), id, if depth > 0 then depth else 1, r.value)
  {
    hide SearchSpec;
    var hits := Traverse(store, GraphOptions(id, direction, depth, edgeTypes, true));
    if hits.Err? {
      return Err(hits.error);
    }
    var g := BuildMesh(store, hits.value);
    BallIsIds(store, TraversalNet(store, direction, edgeTypes), id, if depth > 0 then depth else 1, hits.value);
    return Ok(g);
  }

  lemma BallIsIds(store: Store, net: Net, start: ID, max: nat, hits: seq<Hit>)
    requires store.Valid() && start in store.entries
    requires hits != [] && hits[0] == TraversalHit(store.entries[start], [])
    requires SearchSpec(store, net, start, max, Plain, hits[1..])
    ensures forall v :: v in Ids(hits) <==> InBall(net, start, max, v)
    ensures DistinctHits(hits)
    ensures forall h :: h in hits ==> h.entry.id in store.entries && h.entry == store.entries[h.entry.id]
  {
    var found := hits[1..];
    assert hits == [hits[0]] + found;
    forall i, j | 0 <= i < j < |hits|
      ensures hits[i].entry.id != hits[j].entry.id
    {
      assert hits[j] == found[j - 1] && SoundHit(store, net, start, max, Plain, found[j - 1]);
      assert i > 0 ==> hits[i] == found[i - 1];
    }
    assert net.Walk(start, []) && End(start, []) == start;
    forall v | InBall(net, start, max, v)
      ensures v in Ids(hits)
    {
      var path :| net.Walk(start, path) && |path| <= max && End(start, path) == v;
      if v != start {
        assert HasHit(found, v);
      }
    }
    forall h | h in found
      ensures InBall(net, start, max, h.entry.id)
    {
      assert SoundHit(store, net, start, max, Plain, h);
      PlainHitIsExact(store, net, start, max, h);
    }
  }
}
