/** The insertion sort that orders query results (`query/vector.go`). */
module StableSort {
  import opened Model
  import Sorting

  ghost predicate Descending(hits: seq<Hit>) {
    forall i, j :: 0 <= i < j < |hits| ==> hits[i].score >= hits[j].score
  }

  /** The results with score `x`, in the order they stand in. */
  ghost function Ties(hits: seq<Hit>, x: real): seq<Hit> {
    if hits == [] then []
    else (if hits[0].score == x then [hits[0]] else []) + Ties(hits[1..], x)
  }

  /** Best first, and results with equal scores keep their order. */
  ghost predicate StableSortOf(sorted: seq<Hit>, hits: seq<Hit>) {
    Descending(sorted) && SameTies(sorted, hits)
  }

  ghost predicate SameTies(s: seq<Hit>, t: seq<Hit>) {
    forall x :: Ties(s, x) == Ties(t, x)
  }

  lemma {:induction false} TiesConcat(s: seq<Hit>, t: seq<Hit>, x: real)
    ensures Ties(s + t, x) == Ties(s, x) + Ties(t, x)
  {
    if s == [] {
      assert s + t == t;
    } else {
      assert (s + t)[0] == s[0] && (s + t)[1..] == s[1..] + t;
      TiesConcat(s[1..], t, x);
      var head := if s[0].score == x then [s[0]] else [];
      assert head + (Ties(s[1..], x) + Ties(t, x)) == (head + Ties(s[1..], x)) + Ties(t, x);
    }
  }

  /** Swapping neighbours with different scores keeps every run of ties. */
  lemma SwapKeepsTies(s: seq<Hit>, t: seq<Hit>, j: nat)
    requires 0 < j < |s| == |t| && s[j].score != s[j - 1].score
    requires t == s[j := s[j - 1]][j - 1 := s[j]]
    ensures SameTies(s, t)
  {
    var front, back := s[..j - 1], s[j + 1..];
    assert s == front + ([s[j - 1], s[j]] + back);
    assert t == front + ([s[j], s[j - 1]] + back);
    forall x
      ensures Ties(s, x) == Ties(t, x)
    {
      TiesConcat(front, [s[j - 1], s[j]] + back, x);
      TiesConcat(front, [s[j], s[j - 1]] + back, x);
      TiesConcat([s[j - 1], s[j]], back, x);
      TiesConcat([s[j], s[j - 1]], back, x);
      assert Ties([s[j - 1], s[j]], x) == Ties([s[j], s[j - 1]], x) by {
        assert [s[j - 1], s[j]][1..] == [s[j]] && [s[j], s[j - 1]][1..] == [s[j - 1]];
        assert [s[j]][1..] == [] && [s[j - 1]][1..] == [];
      }
    }
  }

  /** All of the first `i + 1` results but the one on its way down at `j` are in order. */
  ghost predicate Sinking(s: seq<Hit>, i: nat, j: nat)
    requires j <= i < |s|
  {
    && (forall p, q :: 0 <= p < q <= i && p != j && q != j ==> s[p].score >= s[q].score)
    && (forall q :: j < q <= i ==> s[j].score >= s[q].score)
  }

  lemma Sink(s: seq<Hit>, t: seq<Hit>, i: nat, j: nat)
    requires 0 < j <= i < |s| == |t| && Sinking(s, i, j) && s[j].score > s[j - 1].score
    requires t == s[j := s[j - 1]][j - 1 := s[j]]
    ensures Sinking(t, i, j - 1) && SameTies(s, t)
  {
    SwapKeepsTies(s, t, j);
    hide SameTies;
  }

  lemma OneIsDescending(hits: seq<Hit>)
    requires |hits| <= 1
    ensures Descending(hits)
  {
  }

  method SortResultsByScore(results: array<Hit>)
    modifies results
    ensures StableSortOf(results[..], old(results[..]))
  {
    hide SameTies;
    ghost var before := results[..];
    SameTiesRefl(before);
    var i := 1;
    OneIsDescending(results[..if i < results.Length then i else results.Length]);
    while i < results.Length
      invariant SameTies(results[..], before)
      invariant 0 < i && Descending(results[..if i < results.Length then i else results.Length])
    {
      var j := i;
      while j > 0 && results[j].score > results[j - 1].score
        invariant 0 <= j <= i
        invariant Sinking(results[..], i, j)
        invariant SameTies(results[..], before)
      {
        ghost var s := results[..];
        results[j], results[j - 1] := results[j - 1], results[j];
        Sink(s, results[..], i, j);
        SameTiesTrans(results[..], s, before);
        j := j - 1;
      }
      Sunk(results[..], i, j);
      i := i + 1;
    }
    assert results[..results.Length] == results[..];
  }

  /** The same sort for a caller that holds its results as a value. */
  method Sorted(hits: seq<Hit>) returns (sorted: seq<Hit>)
    ensures StableSortOf(sorted, hits)
  {
    var results := new Hit[|hits|](i requires 0 <= i < |hits| => hits[i]);
    assert results[..] == hits;
    SortResultsByScore(results);
    return results[..];
  }

  lemma SameTiesRefl(s: seq<Hit>)
    ensures SameTies(s, s)
  {
  }

  lemma SameTiesTrans(s: seq<Hit>, t: seq<Hit>, u: seq<Hit>)
    requires SameTies(t, s) && SameTies(t, u)
    ensures SameTies(s, u)
  {
  }

  lemma Sunk(s: seq<Hit>, i: nat, j: nat)
    requires j <= i < |s| && Sinking(s, i, j)
    requires j > 0 ==> s[j].score <= s[j - 1].score
    ensures Descending(s[..i + 1])
  {
    forall p, q | 0 <= p < q <= i
      ensures s[p].score >= s[q].score
    {
      if q == j && p < j - 1 {
        assert s[p].score >= s[j - 1].score;
      }
    }
  }

  // What the contract pins down.

  lemma {:induction false} CountInTies(s: seq<Hit>, h: Hit)
    ensures multiset(s)[h] == multiset(Ties(s, h.score))[h]
  {
    if s != [] {
      assert s == [s[0]] + s[1..];
      CountInTies(s[1..], h);
    }
  }

  lemma StableSortIsPermutation(sorted: seq<Hit>, hits: seq<Hit>)
    requires SameTies(sorted, hits)
    ensures multiset(sorted) == multiset(hits)
  {
    forall h
      ensures multiset(sorted)[h] == multiset(hits)[h]
    {
      CountInTies(sorted, h);
      CountInTies(hits, h);
      assert Ties(sorted, h.score) == Ties(hits, h.score);
    }
  }

  lemma TiesTail(s: seq<Hit>, x: real)
    requires s != []
    ensures s[0].score == x ==> Ties(s, x) != [] && Ties(s, x)[0] == s[0]
    ensures Ties(s[1..], x) == if s[0].score == x then Ties(s, x)[1..] else Ties(s, x)
  {
  }

  lemma TailsTie(s: seq<Hit>, t: seq<Hit>)
    requires s != [] && t != [] && s[0] == t[0] && SameTies(s, t)
    ensures SameTies(s[1..], t[1..])
  {
    forall x
      ensures Ties(s[1..], x) == Ties(t[1..], x)
    {
      assert Ties(s, x) == Ties(t, x);
      TiesTail(s, x);
      TiesTail(t, x);
    }
  }

  lemma SameHead(s: seq<Hit>, t: seq<Hit>)
    requires s != [] && Descending(s) && Descending(t) && SameTies(s, t)
    ensures t != [] && s[0] == t[0]
  {
    StableSortIsPermutation(s, t);
    Sorting.SameMembers(s, t);
    assert s[0] in t && t[0] in s;
    assert Ties(s, s[0].score) == Ties(t, s[0].score);
    TiesTail(s, s[0].score);
    TiesTail(t, t[0].score);
  }

  /** There is only one stable descending order of the same results. */
  lemma {:induction false} StableSortIsUnique(s: seq<Hit>, t: seq<Hit>)
    requires Descending(s) && Descending(t) && SameTies(s, t)
    ensures s == t
  {
    hide SameTies;
    if s == [] {
      StableSortIsPermutation(s, t);
      Sorting.SameMembers(s, t);
    } else {
      SameHead(s, t);
      TailsTie(s, t);
      StableSortIsUnique(s[1..], t[1..]);
      assert s == [s[0]] + s[1..] && t == [t[0]] + t[1..];
    }
  }

  /** Any results can be put in stable order. */
  lemma {:induction false} StableSortExists(hits: seq<Hit>) returns (sorted: seq<Hit>)
    ensures StableSortOf(sorted, hits)
  {
    if hits == [] {
      sorted := [];
    } else {
      var rest := StableSortExists(hits[1..]);
      var p := 0;
      while p < |rest| && rest[p].score > hits[0].score
        invariant p <= |rest| && forall k :: 0 <= k < p ==> rest[k].score > hits[0].score
      {
        p := p + 1;
      }
      sorted := rest[..p] + [hits[0]] + rest[p..];
      forall x
        ensures Ties(sorted, x) == Ties(hits, x)
      {
        TiesPlaced(rest, hits[1..], hits[0], p, x);
        assert hits == [hits[0]] + hits[1..];
      }
    }
  }

  lemma TiesPlaced(rest: seq<Hit>, tail: seq<Hit>, h: Hit, p: nat, x: real)
    requires p <= |rest| && SameTies(rest, tail)
    requires forall k :: 0 <= k < p ==> rest[k].score > h.score
    ensures Ties(rest[..p] + [h] + rest[p..], x) == Ties([h] + tail, x)
  {
    var front, back := rest[..p], rest[p..];
    assert rest == front + back && front + [h] + back == front + ([h] + back);
    TiesConcat(front, back, x);
    TiesConcat(front, [h] + back, x);
    TiesConcat([h], back, x);
    TiesConcat([h], tail, x);
    assert Ties(rest, x) == Ties(tail, x);
    if x == h.score {
      NoTies(front, x);
    } else {
      assert [h][1..] == [];
    }
  }

  lemma {:induction false} NoTies(s: seq<Hit>, x: real)
    requires forall k :: 0 <= k < |s| ==> s[k].score != x
    ensures Ties(s, x) == []
  {
    if s != [] {
      NoTies(s[1..], x);
    }
  }

  lemma {:induction false} TieAt(s: seq<Hit>, x: real, j: nat) returns (v: nat)
    requires j < |s| && s[j].score == x
    ensures v < |Ties(s, x)| && Ties(s, x)[v] == s[j]
  {
    if j == 0 {
      v := 0;
    } else {
      v := TieAt(s[1..], x, j - 1);
      v := v + if s[0].score == x then 1 else 0;
    }
  }

  lemma {:induction false} TiesInOrder(s: seq<Hit>, x: real, i: nat, j: nat) returns (u: nat, v: nat)
    requires i < j < |s| && s[i].score == s[j].score == x
    ensures u < v < |Ties(s, x)| && Ties(s, x)[u] == s[i] && Ties(s, x)[v] == s[j]
  {
    if i == 0 {
      u := 0;
      v := TieAt(s[1..], x, j - 1);
      v := v + 1;
    } else {
      u, v := TiesInOrder(s[1..], x, i - 1, j - 1);
      var shift := if s[0].score == x then 1 else 0;
      u, v := u + shift, v + shift;
    }
  }

  lemma {:induction false} TiesDoNotRepeat(s: seq<Hit>, x: real)
    requires Sorting.NoRepeats(s)
    ensures Sorting.NoRepeats(Ties(s, x)) && forall h :: h in Ties(s, x) ==> h in s
  {
    if s != [] {
      TiesDoNotRepeat(s[1..], x);
      assert s[0] !in s[1..];
    }
  }

  /** In a stable order of different results one comes before another exactly when its score is
      higher, or the same and it came before. */
  lemma StableOrder(sorted: seq<Hit>, hits: seq<Hit>, p: nat, q: nat, i: nat, j: nat)
    requires StableSortOf(sorted, hits) && Sorting.NoRepeats(hits)
    requires p < |hits| && q < |hits| && p != q && i < |sorted| && j < |sorted|
    requires sorted[i] == hits[p] && sorted[j] == hits[q]
    ensures i < j <==> hits[p].score > hits[q].score || (hits[p].score == hits[q].score && p < q)
  {
    hide Ties, SameTies;
    var x := hits[p].score;
    assert i != j;
    if hits[q].score == x {
      TiesDoNotRepeat(hits, x);
      assert Ties(sorted, x) == Ties(hits, x) by {
        SameTiesAt(sorted, hits, x);
      }
      if p < q {
        var u, v := TiesInOrder(hits, x, p, q);
        if j < i {
          var v', u' := TiesInOrder(sorted, x, j, i);
          assert false;
        }
      } else {
        var v, u := TiesInOrder(hits, x, q, p);
        if i < j {
          var u', v' := TiesInOrder(sorted, x, i, j);
          assert false;
        }
      }
    }
  }

  lemma SameTiesAt(s: seq<Hit>, t: seq<Hit>, x: real)
    requires SameTies(s, t)
    ensures Ties(s, x) == Ties(t, x)
  {
  }

  lemma PermutationKeepsHits(s: seq<Hit>, t: seq<Hit>)
    requires multiset(s) == multiset(t)
    ensures forall h :: h in s <==> h in t
    ensures forall id :: HasHit(s, id) <==> HasHit(t, id)
    ensures DistinctHits(s) ==> DistinctHits(t)
  {
    Sorting.SameMembers(s, t);
    if DistinctHits(s) {
      assert Sorting.NoRepeats(s);
      Sorting.PermutationKeepsNoRepeats(s, t);
      forall i, j | 0 <= i < j < |t|
        ensures t[i].entry.id != t[j].entry.id
      {
        assert t[i] in s && t[j] in s && t[i] != t[j];
      }
    }
  }
}
