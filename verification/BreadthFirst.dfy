/** What every breadth-first loop of the query engine keeps true. */
module BreadthFirst {
  import opened Model
  import opened Walks

  /** Each discovered node with the walk that discovered it. */
  type Tree = map<ID, seq<Edge>>

  ghost predicate Rooted(net: Net, start: ID, tree: Tree) {
    && start in tree && tree[start] == []
    && forall v :: v in tree ==> net.Walk(start, tree[v]) && End(start, tree[v]) == v
  }

  predicate Reaches(tree: Tree, v: ID, bound: nat) {
    v in tree && |tree[v]| <= bound
  }

  /** Whatever lies one step beyond `u` is in the tree, at most one level deeper. */
  ghost predicate Closed(net: Net, tree: Tree, u: ID)
    requires u in tree
  {
    forall e :: net.Hop(u, e) ==> Reaches(tree, Neighbor(e, u), |tree[u]| + 1)
  }

  ghost predicate ClosedOff(net: Net, max: nat, tree: Tree, nodes: set<ID>)
    requires nodes <= tree.Keys
  {
    forall u :: u in nodes && |tree[u]| < max ==> Closed(net, tree, u)
  }

  ghost predicate Within(tree: Tree, bound: nat) {
    forall v :: v in tree ==> |tree[v]| <= bound
  }

  ghost function Members(queue: seq<ID>): set<ID> {
    set v | v in queue
  }

  /** The queue holds discovered nodes in order of depth, spanning two levels at most. */
  ghost predicate Levels(tree: Tree, queue: seq<ID>, low: nat) {
    && (forall i :: 0 <= i < |queue| ==> queue[i] in tree && low <= |tree[queue[i]]| <= low + 1)
    && (forall i, j :: 0 <= i < j < |queue| ==> |tree[queue[i]]| <= |tree[queue[j]]|)
  }

  /** Every node marked as seen is in the tree or may not be entered at all. */
  ghost predicate SeenIsFound(net: Net, tree: Tree, seen: set<ID>) {
    && tree.Keys <= seen
    && forall v :: v in seen && net.Open(v) ==> v in tree
  }

  /** The first `i` edges lead from `u` to nodes already found, or nowhere. */
  ghost predicate Scanned(net: Net, tree: Tree, u: ID, edges: seq<Edge>, i: nat)
    requires u in tree
  {
    && i <= |edges|
    && forall k :: 0 <= k < i && net.Hop(u, edges[k]) ==> Reaches(tree, Neighbor(edges[k], u), |tree[u]| + 1)
  }

  /** A search in progress: `queue` lists the nodes still to expand, nearest first. */
  datatype Search = Search(net: Net, start: ID, max: nat, tree: Tree, seen: set<ID>, queue: seq<ID>) {

    /** Between two rounds of the outer loop. */
    ghost predicate Frontier() {
      && Rooted(net, start, tree)
      && SeenIsFound(net, tree, seen)
      && Within(tree, max)
      && (queue != [] ==>
            && queue[0] in tree
            && Levels(tree, queue, |tree[queue[0]]|)
            && Within(tree, |tree[queue[0]]| + 1))
      && ClosedOff(net, max, tree, tree.Keys - Members(queue))
    }

    /** While the edges of `u` are scanned; the first `i` have been dealt with. */
    ghost predicate Expanding(u: ID, edges: seq<Edge>, i: nat) {
      && Rooted(net, start, tree)
      && SeenIsFound(net, tree, seen)
      && u in tree && |tree[u]| < max
      && Levels(tree, queue, |tree[u]|)
      && Within(tree, |tree[u]| + 1)
      && ClosedOff(net, max, tree, tree.Keys - Members(queue) - {u})
      && Scanned(net, tree, u, edges, i)
    }

    ghost predicate Explores(net: Net, start: ID, max: nat, seen: set<ID>) {
      this.net == net && this.start == start && this.max == max && this.seen == seen
    }

    ghost function Drop(): Search
      requires queue != []
    {
      this.(queue := queue[1..])
    }

    ghost function Shut(v: ID): Search {
      this.(seen := seen + {v})
    }

    ghost function Found(v: ID, path: seq<Edge>): Search {
      this.(tree := tree[v := path], seen := seen + {v}, queue := queue + [v])
    }
  }

  lemma Start(net: Net, start: ID, max: nat, seen: set<ID>)
    requires start in seen && forall v :: v in seen && net.Open(v) ==> v == start
    ensures Search(net, start, max, map[start := []], seen, [start]).Frontier()
  {
  }

  lemma LevelsTail(tree: Tree, queue: seq<ID>)
    requires queue != [] && queue[0] in tree && Levels(tree, queue, |tree[queue[0]]|)
    ensures Levels(tree, queue[1..], |tree[queue[0]]|)
    ensures queue[1..] != [] ==> Levels(tree, queue[1..], |tree[queue[1]]|)
  {
    var rest := queue[1..];
    assert forall i :: 0 <= i < |rest| ==> rest[i] == queue[i + 1];
  }

  lemma ClosedTail(net: Net, max: nat, tree: Tree, queue: seq<ID>)
    requires queue != [] && queue[0] in tree
    requires ClosedOff(net, max, tree, tree.Keys - Members(queue))
    ensures ClosedOff(net, max, tree, tree.Keys - Members(queue[1..]) - {queue[0]})
    ensures |tree[queue[0]]| >= max ==> ClosedOff(net, max, tree, tree.Keys - Members(queue[1..]))
  {
    assert Members(queue) == Members(queue[1..]) + {queue[0]} by {
      assert queue == [queue[0]] + queue[1..];
    }
  }

  /** A node at the depth limit is dropped. */
  lemma Dropped(s: Search)
    requires s.queue != [] && s.Frontier() && |s.tree[s.queue[0]]| >= s.max
    ensures s.Drop().Frontier()
  {
    LevelsTail(s.tree, s.queue);
    ClosedTail(s.net, s.max, s.tree, s.queue);
    var rest := s.queue[1..];
    if rest != [] {
      assert rest[0] == s.queue[1];
      assert Levels(s.tree, rest, |s.tree[rest[0]]|);
      assert Within(s.tree, |s.tree[rest[0]]| + 1);
    }
  }

  /** Any other node is expanded. */
  lemma Dequeued(s: Search, edges: seq<Edge>)
    requires s.queue != [] && s.Frontier() && |s.tree[s.queue[0]]| < s.max
    ensures s.Drop().Expanding(s.queue[0], edges, 0)
  {
    LevelsTail(s.tree, s.queue);
    ClosedTail(s.net, s.max, s.tree, s.queue);
    assert Scanned(s.net, s.tree, s.queue[0], edges, 0);
  }

  /** An edge that leads nowhere new. */
  lemma Skipped(s: Search, u: ID, edges: seq<Edge>, i: nat)
    requires s.Expanding(u, edges, i) && i < |edges|
    requires s.net.Hop(u, edges[i]) ==> Neighbor(edges[i], u) in s.seen
    ensures s.Expanding(u, edges, i + 1)
  {
  }

  /** An edge that leads to a node not seen before which may not be entered. */
  lemma ShutOut(s: Search, u: ID, edges: seq<Edge>, i: nat)
    requires s.Expanding(u, edges, i) && i < |edges|
    requires !s.net.Open(Neighbor(edges[i], u))
    ensures s.Shut(Neighbor(edges[i], u)).Expanding(u, edges, i + 1)
  {
  }

  lemma RootedGrows(net: Net, start: ID, tree: Tree, u: ID, e: Edge)
    requires Rooted(net, start, tree) && u in tree
    requires net.Hop(u, e) && Neighbor(e, u) !in tree
    ensures Rooted(net, start, tree[Neighbor(e, u) := tree[u] + [e]])
  {
    WalkSnoc(net, start, tree[u], e);
  }

  lemma LevelsGrow(tree: Tree, queue: seq<ID>, low: nat, v: ID, path: seq<Edge>)
    requires Levels(tree, queue, low) && v !in tree && |path| == low + 1
    ensures Levels(tree[v := path], queue + [v], low)
  {
  }

  lemma ClosedOffGrows(net: Net, max: nat, tree: Tree, nodes: set<ID>, v: ID, path: seq<Edge>)
    requires nodes <= tree.Keys && v !in tree && ClosedOff(net, max, tree, nodes)
    ensures ClosedOff(net, max, tree[v := path], nodes)
  {
    var tree' := tree[v := path];
    forall w, e | w in nodes && |tree'[w]| < max && net.Hop(w, e)
      ensures Reaches(tree', Neighbor(e, w), |tree'[w]| + 1)
    {
      assert Closed(net, tree, w);
    }
  }

  lemma ScannedGrows(net: Net, tree: Tree, u: ID, edges: seq<Edge>, i: nat)
    requires u in tree && Scanned(net, tree, u, edges, i) && i < |edges| && Neighbor(edges[i], u) !in tree
    ensures Scanned(net, tree[Neighbor(edges[i], u) := tree[u] + [edges[i]]], u, edges, i + 1)
  {
  }

  /** An edge that discovers a node. */
  lemma Discovered(s: Search, u: ID, edges: seq<Edge>, i: nat)
    requires s.Expanding(u, edges, i) && i < |edges|
    requires s.net.Hop(u, edges[i]) && Neighbor(edges[i], u) !in s.seen
    ensures u in s.tree && Neighbor(edges[i], u) !in s.tree && Within(s.tree, |s.tree[u]| + 1)
    ensures s.Found(Neighbor(edges[i], u), s.tree[u] + [edges[i]]).Expanding(u, edges, i + 1)
  {
    hide Rooted, Levels, ClosedOff, Net.Walk, End;
    var v, path := Neighbor(edges[i], u), s.tree[u] + [edges[i]];
    var t := s.Found(v, path);
    RootedGrows(s.net, s.start, s.tree, u, edges[i]);
    LevelsGrow(s.tree, s.queue, |s.tree[u]|, v, path);
    ClosedOffGrows(s.net, s.max, s.tree, s.tree.Keys - Members(s.queue) - {u}, v, path);
    assert Members(t.queue) == Members(s.queue) + {v};
    assert t.tree.Keys - Members(t.queue) - {u} == s.tree.Keys - Members(s.queue) - {u};
    hide Members;
    assert SeenIsFound(t.net, t.tree, t.seen);
    assert Within(t.tree, |t.tree[u]| + 1);
    ScannedGrows(s.net, s.tree, u, edges, i);
  }

  lemma Expanded(s: Search, u: ID, edges: seq<Edge>)
    requires s.Expanding(u, edges, |edges|)
    requires forall e :: s.net.Follows(u, e) ==> e in edges
    ensures s.Frontier()
  {
    assert Closed(s.net, s.tree, u);
    assert forall w :: w in s.tree.Keys - Members(s.queue) ==> w == u || w in s.tree.Keys - Members(s.queue) - {u};
  }

  /** When only nodes at depth `limit` or beyond are still to be closed off, every walk
      that stays within `limit` ends inside the tree, at a node whose recorded walk is
      no longer. */
  lemma {:induction false} Complete(net: Net, max: nat, tree: Tree, nodes: set<ID>, limit: nat, u: ID, path: seq<Edge>)
    requires nodes <= tree.Keys && ClosedOff(net, max, tree, nodes) && limit <= max
    requires forall v :: v in tree && v !in nodes ==> |tree[v]| >= limit
    requires u in tree && net.Walk(u, path) && |tree[u]| + |path| <= limit
    ensures Reaches(tree, End(u, path), |tree[u]| + |path|)
    decreases path
  {
    if path != [] {
      assert Closed(net, tree, u);
      assert net.Hop(u, path[0]);
      Complete(net, max, tree, nodes, limit, Neighbor(path[0], u), path[1..]);
    }
  }

  /** While `u` is expanded, a node not found yet is more than its depth away. */
  lemma NotYetFound(s: Search, u: ID, edges: seq<Edge>, i: nat, path: seq<Edge>)
    requires s.Expanding(u, edges, i) && s.net.Walk(s.start, path) && End(s.start, path) !in s.tree
    ensures |path| > |s.tree[u]|
  {
    if |path| <= |s.tree[u]| {
      Complete(s.net, s.max, s.tree, s.tree.Keys - Members(s.queue) - {u}, |s.tree[u]|, s.start, path);
    }
  }

  /** So the tree is exactly the ball of radius `max`, and records true distances. */
  lemma Exact(s: Search)
    requires s.queue == [] && s.Frontier()
    ensures forall v :: v in s.tree ==> s.net.Shortest(s.start, s.tree[v]) && |s.tree[v]| <= s.max
    ensures forall path :: s.net.Walk(s.start, path) && |path| <= s.max ==> End(s.start, path) in s.tree
  {
    assert s.tree.Keys - Members(s.queue) == s.tree.Keys;
    forall path | s.net.Walk(s.start, path) && |path| <= s.max
      ensures Reaches(s.tree, End(s.start, path), |path|)
    {
      Complete(s.net, s.max, s.tree, s.tree.Keys, s.max, s.start, path);
    }
    forall v | v in s.tree
      ensures s.net.Shortest(s.start, s.tree[v])
    {
      forall other | s.net.Walk(s.start, other) && End(s.start, other) == v
        ensures |s.tree[v]| <= |other|
      {
        if |other| <= s.max {
          assert Reaches(s.tree, v, |other|);
        }
      }
    }
  }
}
