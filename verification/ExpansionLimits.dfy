/** How much a multi-seed expansion finds, and how much it can miss (`query/hybrid.go`). */
module ExpansionLimits {
  import opened Model
  import opened Walks
  import opened GraphSearch
  import opened Expansion

  /** Everything present within `depth` steps of a seed is a seed or was found. */
  ghost predicate Complete(store: Store, direction: Direction, kinds: seq<string>, depth: nat, seeds: seq<Hit>,
                           groups: seq<seq<Hit>>) {
    forall i, path :: 0 <= i < |seeds| && InReach(store, direction, kinds, depth, seeds[i].entry.id, path) ==>
      HasHit(seeds + Flatten(groups), End(seeds[i].entry.id, path))
  }

  ghost predicate InReach(store: Store, direction: Direction, kinds: seq<string>, depth: nat, start: ID,
                          path: seq<Edge>) {
    TraversalNet(store, direction, kinds).Walk(start, path) && |path| <= depth
  }

  ghost predicate IsExpansion(store: Store, direction: Direction, kinds: seq<string>, depth: nat, n: nat,
                              seeds: seq<Hit>, groups: seq<seq<Hit>>) {
    store.Valid() && |seeds| == n && DistinctHits(seeds) && Waves(store, direction, kinds, depth, seeds, groups)
  }

  /** Whatever the direction and the types: `n` seeds expanded to `depth` find everything in
      every store exactly when there is at most one seed or the depth is at most 1. */
  lemma CompleteExactlyWhen(n: nat, depth: nat, direction: Direction, kinds: seq<string>)
    ensures (forall store, seeds, groups :: IsExpansion(store, direction, kinds, depth, n, seeds, groups) ==>
          Complete(store, direction, kinds, depth, seeds, groups))
      <==> n <= 1 || depth <= 1
  {
    hide IsExpansion, Complete;
    if n <= 1 || depth <= 1 {
      forall store, seeds, groups | IsExpansion(store, direction, kinds, depth, n, seeds, groups)
        ensures Complete(store, direction, kinds, depth, seeds, groups)
      {
        FewIsComplete(store, direction, kinds, depth, n, seeds, groups);
      }
    } else {
      var store, seeds, groups := MissedNode(n, depth, direction, kinds);
    }
  }

  lemma FewIsComplete(store: Store, direction: Direction, kinds: seq<string>, depth: nat, n: nat,
                      seeds: seq<Hit>, groups: seq<seq<Hit>>)
    requires IsExpansion(store, direction, kinds, depth, n, seeds, groups) && (n <= 1 || depth <= 1)
    ensures Complete(store, direction, kinds, depth, seeds, groups)
  {
    hide Waves, Flatten;
    forall i, path | 0 <= i < |seeds| && InReach(store, direction, kinds, depth, seeds[i].entry.id, path)
      ensures HasHit(seeds + Flatten(groups), End(seeds[i].entry.id, path))
    {
      var u := seeds[i].entry.id;
      if End(u, path) == u {
        SeedIsThere(seeds, Flatten(groups), i);
      } else if n <= 1 {
        assert seeds == [seeds[0]];
        SingleSeedIsComplete(store, direction, kinds, depth, seeds[0], groups);
        FoundIsThere(seeds, Flatten(groups), End(u, path));
      } else {
        assert path == [path[0]] && path[1..] == [];
        DepthOneIsComplete(store, direction, kinds, seeds, groups, i, path[0]);
      }
    }
  }

  lemma SeedIsThere(seeds: seq<Hit>, found: seq<Hit>, i: nat)
    requires i < |seeds|
    ensures HasHit(seeds + found, seeds[i].entry.id)
  {
    assert (seeds + found)[i] in seeds + found;
  }

  lemma FoundIsThere(seeds: seq<Hit>, found: seq<Hit>, v: ID)
    requires HasHit(found, v)
    ensures HasHit(seeds + found, v)
  {
    var h :| h in found && h.entry.id == v;
    assert h in seeds + found;
  }

  // One store: balls that do not meet.

  ghost predicate Near(store: Store, direction: Direction, kinds: seq<string>, depth: nat, start: ID, v: ID) {
    exists path :: InReach(store, direction, kinds, depth, start, path) && End(start, path) == v
  }

  ghost predicate BallsApart(store: Store, direction: Direction, kinds: seq<string>, depth: nat, seeds: seq<Hit>) {
    forall i, j, v :: 0 <= i < |seeds| && 0 <= j < |seeds| && i != j ==>
      Near(store, direction, kinds, depth, seeds[i].entry.id, v) ==>
      !Near(store, direction, kinds, depth, seeds[j].entry.id, v)
  }

  /** In one store, any number of seeds to any depth find everything when nothing is within
      reach of two of them. */
  lemma ApartIsComplete(store: Store, direction: Direction, kinds: seq<string>, depth: nat,
                        seeds: seq<Hit>, groups: seq<seq<Hit>>)
    requires Waves(store, direction, kinds, depth, seeds, groups)
    requires BallsApart(store, direction, kinds, depth, seeds)
    ensures Complete(store, direction, kinds, depth, seeds, groups)
  {
    hide Flatten, Taken, SearchSpec, BallsApart;
    forall i, path | 0 <= i < |seeds| && InReach(store, direction, kinds, depth, seeds[i].entry.id, path)
      ensures HasHit(seeds + Flatten(groups), End(seeds[i].entry.id, path))
    {
      var u := seeds[i].entry.id;
      if End(u, path) == u {
        SeedIsThere(seeds, Flatten(groups), i);
      } else {
        var narrow := ExpansionNet(store, direction, kinds, Taken(seeds, groups, i), u);
        forall m | 0 < m <= |path|
          ensures narrow.Open(End(u, path[..m]))
        {
          NobodyTook(store, direction, kinds, depth, seeds, groups, i, path, m);
        }
        WalkNarrower(TraversalNet(store, direction, kinds), narrow, u, path);
        FoundInTurn(store, direction, kinds, depth, seeds, groups, i, path);
      }
    }
  }

  lemma FoundInTurn(store: Store, direction: Direction, kinds: seq<string>, depth: nat,
                    seeds: seq<Hit>, groups: seq<seq<Hit>>, i: nat, path: seq<Edge>)
    requires Waves(store, direction, kinds, depth, seeds, groups) && i < |seeds| && |path| <= depth
    requires var u := seeds[i].entry.id;
      && ExpansionNet(store, direction, kinds, Taken(seeds, groups, i), u).Walk(u, path)
      && End(u, path) != u
    ensures HasHit(seeds + Flatten(groups), End(seeds[i].entry.id, path))
  {
    hide Flatten, Taken;
    assert Wave(store, direction, kinds, depth, seeds[i], Taken(seeds, groups, i), groups[i]);
    var v := End(seeds[i].entry.id, path);
    assert HasHit(groups[i], v);
    var h :| h in groups[i] && h.entry.id == v;
    FlattenHas(groups, i, h);
    assert h in seeds + Flatten(groups);
  }

  lemma NobodyTook(store: Store, direction: Direction, kinds: seq<string>, depth: nat, seeds: seq<Hit>,
                   groups: seq<seq<Hit>>, i: nat, path: seq<Edge>, m: nat)
    requires Waves(store, direction, kinds, depth, seeds, groups) && BallsApart(store, direction, kinds, depth, seeds)
    requires i < |seeds| && InReach(store, direction, kinds, depth, seeds[i].entry.id, path) && 0 < m <= |path|
    ensures var u := seeds[i].entry.id;
      ExpansionNet(store, direction, kinds, Taken(seeds, groups, i), u).Open(End(u, path[..m]))
  {
    hide SearchSpec, Taken;
    var u, net := seeds[i].entry.id, TraversalNet(store, direction, kinds);
    var v := End(u, path[..m]);
    WalkTake(net, u, path, m);
    WalkEndsOpen(net, u, path[..m]);
    assert InReach(store, direction, kinds, depth, u, path[..m]);
    assert Near(store, direction, kinds, depth, u, v);
    if v in Taken(seeds, groups, i) && v != u {
      TakenIsNear(store, direction, kinds, depth, seeds, groups, i, v);
    }
  }

  /** What was taken before a seed's turn is another seed, or within reach of one. */
  lemma TakenIsNear(store: Store, direction: Direction, kinds: seq<string>, depth: nat, seeds: seq<Hit>,
                    groups: seq<seq<Hit>>, i: nat, v: ID)
    requires Waves(store, direction, kinds, depth, seeds, groups) && i < |seeds|
    requires v in Taken(seeds, groups, i) && v != seeds[i].entry.id
    ensures exists j :: 0 <= j < |seeds| && j != i && Near(store, direction, kinds, depth, seeds[j].entry.id, v)
  {
    hide SearchSpec;
    if v in Ids(seeds) {
      var h :| h in seeds && h.entry.id == v;
      var j :| 0 <= j < |seeds| && seeds[j] == h;
      assert InReach(store, direction, kinds, depth, v, []) && End(v, []) == v;
      assert Near(store, direction, kinds, depth, seeds[j].entry.id, v);
    } else {
      var h :| h in Flatten(groups[..i]) && h.entry.id == v;
      var j := FlattenFinds(groups[..i], h);
      assert Wave(store, direction, kinds, depth, seeds[j], Taken(seeds, groups, j), groups[j]);
      WaveIsFromSeed(store, direction, kinds, depth, seeds[j], Taken(seeds, groups, j), groups[j], h);
      NearFromSeed(store, direction, kinds, depth, seeds[j], h);
    }
  }

  lemma NearFromSeed(store: Store, direction: Direction, kinds: seq<string>, depth: nat, seed: Hit, h: Hit)
    requires FromSeed(store, direction, kinds, depth, seed, h)
    ensures Near(store, direction, kinds, depth, seed.entry.id, h.entry.id)
  {
    var path :| TraversalNet(store, direction, kinds).Walk(seed.entry.id, path)
      && End(seed.entry.id, path) == h.entry.id && 1 <= |path| <= depth;
    assert InReach(store, direction, kinds, depth, seed.entry.id, path);
  }

  lemma {:induction false} WalkNarrower(net: Net, narrow: Net, u: ID, path: seq<Edge>)
    requires net.Walk(u, path)
    requires narrow.edges == net.edges && narrow.direction == net.direction && narrow.kinds == net.kinds
    requires forall m :: 0 < m <= |path| ==> narrow.Open(End(u, path[..m]))
    ensures narrow.Walk(u, path)
    decreases path
  {
    if path != [] {
      var v := Neighbor(path[0], u);
      assert path[..1] == [path[0]] && [path[0]][1..] == [];
      assert End(u, path[..1]) == v;
      forall m | 0 < m <= |path[1..]|
        ensures narrow.Open(End(v, path[1..][..m]))
      {
        assert path[..m + 1][1..] == path[1..][..m];
        assert narrow.Open(End(u, path[..m + 1]));
      }
      WalkNarrower(net, narrow, v, path[1..]);
    }
  }

  // A store in which a node is missed.

  // The first seed, 1, starts a chain of `d` steps to the node `d + 1`. The second seed, `d + 3`,
  // is one step from that node, which is one step from `d + 2`. Further seeds stand alone.

  function Node(id: ID): Entry {
    Entry(id, "", "", [], 0, "", None, 0)
  }

  /** An edge that may be followed from `u` to `v`. */
  function Link(id: ID, u: ID, v: ID, direction: Direction, kinds: seq<string>): Edge {
    var kind := if kinds == [] then "" else kinds[0];
    if direction == Incoming then Edge(id, v, u, kind, None) else Edge(id, u, v, kind, None)
  }

  function Chain(d: nat, direction: Direction, kinds: seq<string>): (edges: seq<Edge>)
    ensures |edges| == d && forall k :: 0 <= k < d ==> edges[k] == Link(k + 1, k + 1, k + 2, direction, kinds)
  {
    seq(d, k requires 0 <= k < d => Link(k + 1, k + 1, k + 2, direction, kinds))
  }

  function Bridge(d: nat, direction: Direction, kinds: seq<string>): seq<Edge> {
    [Link(d + 1, d + 3, d + 1, direction, kinds), Link(d + 2, d + 1, d + 2, direction, kinds)]
  }

  function Trap(n: nat, d: nat, direction: Direction, kinds: seq<string>): Store {
    Store(map id: ID | 1 <= id <= d + n + 1 :: Node(id), Chain(d, direction, kinds) + Bridge(d, direction, kinds))
  }

  function SeedId(d: nat, i: nat): ID {
    if i == 0 then 1 else d + 2 + i
  }

  function Seeds(n: nat, d: nat): (seeds: seq<Hit>)
    ensures |seeds| == n
    ensures forall i :: 0 <= i < n ==> seeds[i] == Hit(Node(SeedId(d, i)), 1.0, Direct, 0, [], false, [])
  {
    seq(n, i requires 0 <= i < n => Hit(Node(SeedId(d, i)), 1.0, Direct, 0, [], false, []))
  }

  function FirstGroup(d: nat, direction: Direction, kinds: seq<string>): (group: seq<Hit>)
    ensures |group| == d
    ensures forall j :: 0 <= j < d ==> group[j] == ExpansionHit(Node(j + 2), 1.0, Chain(d, direction, kinds)[..j + 1])
  {
    seq(d, j requires 0 <= j < d => ExpansionHit(Node(j + 2), 1.0, Chain(d, direction, kinds)[..j + 1]))
  }

  function Groups(n: nat, d: nat, direction: Direction, kinds: seq<string>): (groups: seq<seq<Hit>>)
    requires n > 0
    ensures |groups| == n && groups[0] == FirstGroup(d, direction, kinds)
    ensures forall i :: 0 < i < n ==> groups[i] == []
  {
    [FirstGroup(d, direction, kinds)] + seq(n - 1, i => [])
  }

  /** How far a node is from the first seed, at least. */
  function Height(d: nat, id: ID): int {
    if id <= d + 1 then id - 1 else if id <= d + 3 then d + 1 else 0
  }

  /** The net's edges are the store's, from whatever node they are followed. */
  lemma TrapEdge(n: nat, d: nat, direction: Direction, kinds: seq<string>, net: Net, u: ID, e: Edge)
    requires net.edges == Trap(n, d, direction, kinds).edges && net.Follows(u, e)
    ensures Height(d, Neighbor(e, u)) <= Height(d, u) + 1
    ensures u == d + 3 ==> Neighbor(e, u) == d + 1
    ensures u <= d + 3
  {
    var edges := net.edges;
    var k :| 0 <= k < |edges| && edges[k] == e;
    if k < d {
      assert e == Link(k + 1, k + 1, k + 2, direction, kinds);
    }
  }

  lemma {:induction false} ClimbsSlowly(n: nat, d: nat, direction: Direction, kinds: seq<string>, net: Net, u: ID,
                                        path: seq<Edge>)
    requires net.edges == Trap(n, d, direction, kinds).edges && net.Walk(u, path)
    ensures Height(d, End(u, path)) <= Height(d, u) + |path|
    decreases path
  {
    hide Trap, Height;
    if path != [] {
      TrapEdge(n, d, direction, kinds, net, u, path[0]);
      ClimbsSlowly(n, d, direction, kinds, net, Neighbor(path[0], u), path[1..]);
    }
  }

  lemma LinkHop(n: nat, d: nat, direction: Direction, kinds: seq<string>, net: Net, k: nat)
    requires net.edges == Trap(n, d, direction, kinds).edges && net.direction == direction && net.kinds == Kinds(kinds)
    requires k < d + 2
    ensures var e := net.edges[k];
      var u := if k < d then k + 1 else if k == d then d + 3 else d + 1;
      var v := if k < d then k + 2 else if k == d then d + 1 else d + 2;
      net.Follows(u, e) && Neighbor(e, u) == v
  {
    assert net.edges[k] in net.edges;
  }

  lemma {:induction false} ChainWalk(n: nat, d: nat, direction: Direction, kinds: seq<string>, net: Net, j: nat)
    requires net.edges == Trap(n, d, direction, kinds).edges && net.direction == direction && net.kinds == Kinds(kinds)
    requires forall v :: 1 < v <= d + 1 ==> net.Open(v)
    requires j <= d
    ensures net.Walk(1, Chain(d, direction, kinds)[..j]) && End(1, Chain(d, direction, kinds)[..j]) == j + 1
  {
    hide Trap, Kinds;
    if j > 0 {
      var chain := Chain(d, direction, kinds);
      ChainWalk(n, d, direction, kinds, net, j - 1);
      LinkHop(n, d, direction, kinds, net, j - 1);
      ChainIsFront(n, d, direction, kinds);
      assert net.edges[j - 1] == chain[j - 1];
      WalkSnoc(net, 1, chain[..j - 1], chain[j - 1]);
      assert chain[..j] == chain[..j - 1] + [chain[j - 1]];
    }
  }

  lemma ChainIsFront(n: nat, d: nat, direction: Direction, kinds: seq<string>)
    ensures var edges := Trap(n, d, direction, kinds).edges;
      |edges| == d + 2 && forall k :: 0 <= k < d ==> edges[k] == Chain(d, direction, kinds)[k]
  {
  }

  lemma TrapIsValid(n: nat, d: nat, direction: Direction, kinds: seq<string>)
    ensures Trap(n, d, direction, kinds).Valid()
    ensures DistinctHits(Seeds(n, d))
    ensures forall v: ID :: v in Ids(Seeds(n, d)) <==> exists i :: 0 <= i < n && v == SeedId(d, i)
  {
    var store, seeds := Trap(n, d, direction, kinds), Seeds(n, d);
    forall k | 0 <= k < |store.edges|
      ensures store.edges[k].id == k + 1
    {
    }
    forall v: ID
      ensures v in Ids(seeds) <==> exists i :: 0 <= i < n && v == SeedId(d, i)
    {
      if i :| 0 <= i < n && v == SeedId(d, i) {
        assert seeds[i] in seeds;
      }
    }
  }

  /** The first seed's turn finds the chain. */
  lemma FirstTurnFinds(n: nat, d: nat, direction: Direction, kinds: seq<string>)
    requires n >= 2 && d >= 2
    ensures var store, seeds, groups := Trap(n, d, direction, kinds), Seeds(n, d), Groups(n, d, direction, kinds);
      Wave(store, direction, kinds, d, seeds[0], Taken(seeds, groups, 0), groups[0])
  {
    hide Trap, Kinds, WalkScore, ExpansionHit;
    var store, seeds, groups := Trap(n, d, direction, kinds), Seeds(n, d), Groups(n, d, direction, kinds);
    var chain, group := Chain(d, direction, kinds), groups[0];
    var taken := Taken(seeds, groups, 0);
    var net := ExpansionNet(store, direction, kinds, taken, 1);
    TrapGate(n, d, direction, kinds);
    forall i | 0 <= i < d
      ensures SoundHit(store, net, 1, d, Scored(1.0), group[i]) && group[i].entry.id == i + 2 && group[i].depth == i + 1
    {
      ChainHit(n, d, direction, kinds, net, i);
    }
    forall path | net.Walk(1, path) && |path| <= d && End(1, path) != 1
      ensures HasHit(group, End(1, path))
    {
      ChainOnly(n, d, direction, kinds, net, path);
      assert group[End(1, path) - 2] in group;
    }
  }

  lemma TrapGate(n: nat, d: nat, direction: Direction, kinds: seq<string>)
    requires n >= 2 && d >= 2
    ensures var store, seeds, groups := Trap(n, d, direction, kinds), Seeds(n, d), Groups(n, d, direction, kinds);
      var net := ExpansionNet(store, direction, kinds, Taken(seeds, groups, 0), 1);
      && (forall v: ID :: net.Open(v) <==> 1 <= v <= d + 2)
      && (forall v: ID :: 1 <= v <= d + 2 ==> v in store.entries && store.entries[v] == Node(v))
  {
    TrapIsValid(n, d, direction, kinds);
    var seeds, groups := Seeds(n, d), Groups(n, d, direction, kinds);
    assert groups[..0] == [] && Flatten([]) == [];
    assert Taken(seeds, groups, 0) == Ids(seeds);
    forall v: ID
      ensures v in Ids(seeds) <==> v == 1 || d + 3 <= v <= d + n + 1
    {
      if v == 1 {
        assert v == SeedId(d, 0);
      } else if d + 3 <= v <= d + n + 1 {
        assert v == SeedId(d, v - d - 2);
      }
    }
  }

  lemma ChainHit(n: nat, d: nat, direction: Direction, kinds: seq<string>, net: Net, i: nat)
    requires n >= 2 && d >= 2 && i < d
    requires net.edges == Trap(n, d, direction, kinds).edges && net.direction == direction && net.kinds == Kinds(kinds)
    requires forall v :: 1 <= v <= d + 2 ==> net.Open(v)
    requires forall v :: 1 <= v <= d + 2 ==>
      v in Trap(n, d, direction, kinds).entries && Trap(n, d, direction, kinds).entries[v] == Node(v)
    ensures var group := FirstGroup(d, direction, kinds);
      SoundHit(Trap(n, d, direction, kinds), net, 1, d, Scored(1.0), group[i]) &&
      group[i].entry.id == i + 2 && group[i].depth == i + 1
  {
    hide Trap, Kinds, WalkScore;
    var chain := Chain(d, direction, kinds);
    var path := chain[..i + 1];
    ChainWalk(n, d, direction, kinds, net, i + 1);
    forall other | net.Walk(1, other) && End(1, other) == End(1, path)
      ensures |path| <= |other|
    {
      ClimbsSlowly(n, d, direction, kinds, net, 1, other);
    }
    assert net.Shortest(1, path);
    assert WalkTo(net, 1, d, path, i + 2);
    assert FirstGroup(d, direction, kinds)[i] == Scored(1.0).Make(Node(i + 2), path);
  }

  lemma ChainOnly(n: nat, d: nat, direction: Direction, kinds: seq<string>, net: Net, path: seq<Edge>)
    requires net.edges == Trap(n, d, direction, kinds).edges
    requires forall v: ID :: net.Open(v) <==> 1 <= v <= d + 2
    requires net.Walk(1, path) && |path| <= d && End(1, path) != 1
    ensures 2 <= End(1, path) <= d + 1
  {
    hide Trap;
    ClimbsSlowly(n, d, direction, kinds, net, 1, path);
    WalkEndsOpen(net, 1, path);
  }

  /** A seed with nowhere to go finds nothing. */
  lemma StuckFindsNothing(store: Store, net: Net, start: ID, depth: nat, how: Reporting)
    requires forall e :: !net.Hop(start, e)
    ensures SearchSpec(store, net, start, depth, how, [])
  {
    forall path | net.Walk(start, path)
      ensures path == []
    {
    }
  }

  lemma OthersAreStuck(n: nat, d: nat, direction: Direction, kinds: seq<string>, i: nat)
    requires n >= 2 && d >= 2 && 0 < i < n
    ensures var store, seeds, groups := Trap(n, d, direction, kinds), Seeds(n, d), Groups(n, d, direction, kinds);
      Wave(store, direction, kinds, d, seeds[i], Taken(seeds, groups, i), groups[i])
  {
    hide Trap, SearchSpec, Kinds;
    var store, seeds, groups := Trap(n, d, direction, kinds), Seeds(n, d), Groups(n, d, direction, kinds);
    var u := SeedId(d, i);
    var net := ExpansionNet(store, direction, kinds, Taken(seeds, groups, i), u);
    var last := groups[0][d - 1];
    FlattenHas(groups[..i], 0, last);
    assert last.entry.id == d + 1 && last.entry.id in Taken(seeds, groups, i);
    forall e
      ensures !net.Hop(u, e)
    {
      if net.Follows(u, e) {
        TrapEdge(n, d, direction, kinds, net, u, e);
      }
    }
    StuckFindsNothing(store, net, u, d, Scored(1.0));
  }

  lemma AllTurns(n: nat, d: nat, direction: Direction, kinds: seq<string>)
    requires n >= 2 && d >= 2
    ensures Waves(Trap(n, d, direction, kinds), direction, kinds, d, Seeds(n, d), Groups(n, d, direction, kinds))
  {
    hide Trap, Wave, Taken, FirstGroup;
    var store, seeds, groups := Trap(n, d, direction, kinds), Seeds(n, d), Groups(n, d, direction, kinds);
    FirstTurnFinds(n, d, direction, kinds);
    forall i | 0 <= i < n
      ensures Wave(store, direction, kinds, d, seeds[i], Taken(seeds, groups, i), groups[i])
    {
      if i > 0 {
        OthersAreStuck(n, d, direction, kinds, i);
      }
    }
  }

  /** Two or more seeds, two or more steps: the second seed's walk over the end of the chain is
      cut off by the first seed, and too long for that one. */
  lemma MissedNode(n: nat, d: nat, direction: Direction, kinds: seq<string>)
      returns (store: Store, seeds: seq<Hit>, groups: seq<seq<Hit>>)
    requires n >= 2 && d >= 2
    ensures IsExpansion(store, direction, kinds, d, n, seeds, groups)
    ensures !Complete(store, direction, kinds, d, seeds, groups)
  {
    hide Trap, Waves, Flatten, HasHit, Groups, Net.Walk;
    store, seeds, groups := Trap(n, d, direction, kinds), Seeds(n, d), Groups(n, d, direction, kinds);
    TrapIsValid(n, d, direction, kinds);
    AllTurns(n, d, direction, kinds);
    var path := BridgeWalk(n, d, direction, kinds);
    NotFound(n, d, direction, kinds);
    assert seeds[1].entry.id == d + 3;
    assert InReach(store, direction, kinds, d, seeds[1].entry.id, path);
  }

  lemma BridgeWalk(n: nat, d: nat, direction: Direction, kinds: seq<string>) returns (path: seq<Edge>)
    requires n >= 2
    ensures |path| == 2 && End(d + 3, path) == d + 2
    ensures TraversalNet(Trap(n, d, direction, kinds), direction, kinds).Walk(d + 3, path)
  {
    var store := Trap(n, d, direction, kinds);
    var net := TraversalNet(store, direction, kinds);
    var e, f := store.edges[d], store.edges[d + 1];
    LinkHop(n, d, direction, kinds, net, d);
    LinkHop(n, d, direction, kinds, net, d + 1);
    assert net.Open(d + 1) && net.Open(d + 2);
    hide Trap, Kinds;
    WalkSnoc(net, d + 3, [], e);
    assert [] + [e] == [e];
    WalkSnoc(net, d + 3, [e], f);
    path := [e] + [f];
  }

  lemma NotFound(n: nat, d: nat, direction: Direction, kinds: seq<string>)
    requires n >= 2 && d >= 2
    ensures !HasHit(Seeds(n, d) + Flatten(Groups(n, d, direction, kinds)), d + 2)
  {
    hide WalkScore;
    var seeds, groups := Seeds(n, d), Groups(n, d, direction, kinds);
    forall h | h in seeds + Flatten(groups)
      ensures h.entry.id != d + 2
    {
      if h in seeds {
        var i :| 0 <= i < n && seeds[i] == h;
      } else {
        var i := FlattenFinds(groups, h);
        var j :| 0 <= j < |groups[i]| && groups[i][j] == h;
      }
    }
  }
}
