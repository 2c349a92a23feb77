/** The superseded status of results (`query/hybrid.go`). */
module Enrichment {
  import opened Model

  function Sources(edges: seq<Edge>): seq<ID> {
    seq(|edges|, i requires 0 <= i < |edges| => edges[i].from)
  }

  /** A result with its superseded status filled in, unless it already is. */
  function Enriched(store: Store, h: Hit): Hit {
    if h.isSuperseded || h.supersededBy != [] then h
    else
      var edges := store.EdgesTo(h.entry.id, SUPERSEDES);
      if |edges| > 0 then h.(isSuperseded := true, supersededBy := Sources(edges)) else h
  }

  function EnrichAll(store: Store, hits: seq<Hit>): (r: seq<Hit>)
    ensures |r| == |hits|
  {
    seq(|hits|, i requires 0 <= i < |hits| => Enriched(store, hits[i]))
  }

  method EnrichSuperseded(store: Store, results: array<Hit>)
    modifies results
    ensures results[..] == EnrichAll(store, old(results[..]))
  {
    for i := 0 to results.Length
      invariant forall k :: 0 <= k < i ==> results[k] == Enriched(store, old(results[k]))
      invariant forall k :: i <= k < results.Length ==> results[k] == old(results[k])
    {
      if results[i].isSuperseded || results[i].supersededBy != [] {
        continue;
      }
      var edges := store.EdgesTo(results[i].entry.id, SUPERSEDES);
      if |edges| > 0 {
        results[i] := results[i].(isSuperseded := true, supersededBy := Sources(edges));
      }
    }
  }

  /** A result no earlier stage has marked is superseded exactly when some entry
      supersedes it, and then it names every such entry. */
  lemma EnrichmentIsExact(store: Store, h: Hit)
    requires !h.isSuperseded && h.supersededBy == []
    ensures Enriched(store, h).isSuperseded <==>
      exists e :: e in store.edges && e.to == h.entry.id && e.kind == "supersedes"
    ensures forall id :: id in Enriched(store, h).supersededBy <==>
      exists e :: e in store.edges && e.to == h.entry.id && e.kind == "supersedes" && e.from == id
  {
    var edges := store.EdgesTo(h.entry.id, SUPERSEDES);
    if edges != [] {
      assert edges[0] in edges;
    }
    forall id
      ensures id in Sources(edges) <==> exists e :: e in edges && e.from == id
    {
      if e :| e in edges && e.from == id {
        var k :| 0 <= k < |edges| && edges[k] == e;
        assert Sources(edges)[k] == id;
      }
    }
  }

  lemma EnrichingKeepsEntries(store: Store, hits: seq<Hit>)
    ensures forall i :: 0 <= i < |hits| ==> EnrichAll(store, hits)[i].entry == hits[i].entry
    ensures DistinctHits(hits) ==> DistinctHits(EnrichAll(store, hits))
  {
  }
}
