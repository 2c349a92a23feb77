/** Walks through the graph, and the distance they define. */
module Walks {
  import opened Model

  /** What a search may use: its edges, the direction and types it follows, and
      the nodes it may enter (every node when there is no gate). */
  datatype Net = Net(edges: seq<Edge>, direction: Direction, kinds: set<string>, gate: Option<set<ID>>) {

    predicate Open(id: ID) {
      gate.None? || id in gate.value
    }

    predicate Follows(u: ID, e: Edge) {
      && e in edges
      && (kinds == {} || e.kind in kinds)
      && ((direction != Incoming && e.from == u) || (direction != Outgoing && e.to == u))
    }

    /** One step from `u` along `e`. */
    predicate Hop(u: ID, e: Edge) {
      Follows(u, e) && Open(Neighbor(e, u))
    }

    ghost predicate Walk(u: ID, path: seq<Edge>)
      decreases path
    {
      path == [] || (Hop(u, path[0]) && Walk(Neighbor(path[0], u), path[1..]))
    }

    /** No walk to the same end is shorter. */
    ghost predicate Shortest(u: ID, path: seq<Edge>) {
      && Walk(u, path)
      && forall other :: Walk(u, other) && End(u, other) == End(u, path) ==> |path| <= |other|
    }
  }

  /** Where following `path` from `u` ends. */
  function End(u: ID, path: seq<Edge>): ID
    decreases path
  {
    if path == [] then u else End(Neighbor(path[0], u), path[1..])
  }

  lemma {:induction false} WalkSnoc(net: Net, u: ID, path: seq<Edge>, e: Edge)
    requires net.Walk(u, path) && net.Hop(End(u, path), e)
    ensures net.Walk(u, path + [e])
    ensures End(u, path + [e]) == Neighbor(e, End(u, path))
    decreases path
  {
    if path == [] {
      assert path + [e] == [e];
      assert [e][1..] == [];
    } else {
      WalkSnoc(net, Neighbor(path[0], u), path[1..], e);
      assert (path + [e])[1..] == path[1..] + [e];
    }
  }

  lemma {:induction false} WalkConcat(net: Net, u: ID, p: seq<Edge>, q: seq<Edge>)
    ensures End(u, p + q) == End(End(u, p), q)
    ensures net.Walk(u, p + q) <==> net.Walk(u, p) && net.Walk(End(u, p), q)
    decreases p
  {
    if p == [] {
      assert p + q == q;
    } else {
      WalkConcat(net, Neighbor(p[0], u), p[1..], q);
      assert (p + q)[1..] == p[1..] + q;
    }
  }

  lemma WalkTake(net: Net, u: ID, path: seq<Edge>, i: nat)
    requires net.Walk(u, path) && i <= |path|
    ensures net.Walk(u, path[..i]) && net.Walk(End(u, path[..i]), path[i..])
    ensures End(End(u, path[..i]), path[i..]) == End(u, path)
  {
    WalkConcat(net, u, path[..i], path[i..]);
    assert path[..i] + path[i..] == path;
  }

  /** A walk stays a walk when more nodes may be entered. */
  lemma {:induction false} WalkWider(net: Net, wider: Net, u: ID, path: seq<Edge>)
    requires net.Walk(u, path)
    requires wider.edges == net.edges && wider.direction == net.direction && wider.kinds == net.kinds
    requires forall v :: net.Open(v) ==> wider.Open(v)
    ensures wider.Walk(u, path)
    decreases path
  {
    if path != [] {
      WalkWider(net, wider, Neighbor(path[0], u), path[1..]);
    }
  }

  lemma {:induction false} WalkEndsOpen(net: Net, u: ID, path: seq<Edge>)
    requires net.Walk(u, path) && path != []
    ensures net.Open(End(u, path))
    decreases path
  {
    if |path| == 1 {
      assert path[1..] == [];
    } else {
      WalkEndsOpen(net, Neighbor(path[0], u), path[1..]);
    }
  }
}
