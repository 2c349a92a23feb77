/** The values the knowledge graph is made of, and the read side of its store. */
module Model {

  datatype Option<+T> = None | Some(value: T)

  datatype Error =
    | IDRequired
    | NotFound
    | DuplicateContent
    | ConcurrentModification(expected: nat, actual: nat)
    | InvalidPath
    | EmptyQuery
    | StorageFailure

  datatype Outcome<+T> = Ok(value: T) | Err(error: Error)

  /** A ULID read as the number it encodes; its fixed-width text form sorts the
      same way. Zero is the zero value that `IsZero` recognises. */
  type ID = nat

  const ZERO_ID: ID := 0

  const DEFAULT_EDGE_WEIGHT := 0.5

  const SUPERSEDES := "supersedes"

  datatype Edge = Edge(id: ID, from: ID, to: ID, kind: string, weight: Option<real>) {
    function EffectiveWeight(): real {
      if weight.None? then DEFAULT_EDGE_WEIGHT else weight.value
    }
  }

  datatype Entry = Entry(
    id: ID,
    content: string,
    contentHash: string,
    embedding: seq<real>,
    embeddingDim: nat,
    scope: string,
    expiresAt: Option<int>,
    version: nat)

  datatype Direction = Outgoing | Incoming | Both

  datatype Reach = Direct | Traversal | Expansion | Text

  /** One query result. */
  datatype Hit = Hit(
    entry: Entry,
    score: real,
    reach: Reach,
    depth: nat,
    edgePath: seq<Edge>,
    isSuperseded: bool,
    supersededBy: seq<ID>)

  ghost predicate DistinctHits(hits: seq<Hit>) {
    forall i, j :: 0 <= i < j < |hits| ==> hits[i].entry.id != hits[j].entry.id
  }

  function Ids(hits: seq<Hit>): set<ID> {
    set h | h in hits :: h.entry.id
  }

  ghost predicate HasHit(hits: seq<Hit>, id: ID) {
    exists h :: h in hits && h.entry.id == id
  }

  lemma HasHitSnoc(hits: seq<Hit>, hit: Hit, id: ID)
    ensures HasHit(hits + [hit], id) <==> HasHit(hits, id) || hit.entry.id == id
  {
    assert hit in hits + [hit];
    if HasHit(hits, id) {
      var h :| h in hits && h.entry.id == id;
      assert h in hits + [hit];
    }
  }

  /** The rows a query can see: entries by primary key, edges in creation order. */
  datatype Store = Store(entries: map<ID, Entry>, edges: seq<Edge>) {

    ghost predicate Valid() {
      && (forall id :: id in entries ==> entries[id].id == id)
      && (forall i, j :: 0 <= i < j < |edges| ==> edges[i].id != edges[j].id)
    }

    /** `EdgesFrom`; the empty type asks for every type. */
    function EdgesFrom(id: ID, kind: string): (rows: seq<Edge>)
      ensures forall e :: e in rows <==> e in edges && e.from == id && (kind == "" || e.kind == kind)
    {
      Select(edges, (e: Edge) => e.from == id && (kind == "" || e.kind == kind))
    }

    /** `EdgesTo`. */
    function EdgesTo(id: ID, kind: string): (rows: seq<Edge>)
      ensures forall e :: e in rows <==> e in edges && e.to == id && (kind == "" || e.kind == kind)
    {
      Select(edges, (e: Edge) => e.to == id && (kind == "" || e.kind == kind))
    }
  }

  function Select(rows: seq<Edge>, keep: Edge -> bool): (kept: seq<Edge>)
    ensures forall e :: e in kept <==> e in rows && keep(e)
  {
    if rows == [] then []
    else
      assert rows == [rows[0]] + rows[1..];
      (if keep(rows[0]) then [rows[0]] else []) + Select(rows[1..], keep)
  }

  /** The end of `e` a traversal standing at `u` moves to. */
  function Neighbor(e: Edge, u: ID): ID {
    if e.to == u then e.from else e.to
  }
}
