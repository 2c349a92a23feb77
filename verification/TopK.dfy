/** The best `k` of a set: what ranking and cutting a list selects. */
module TopK {
  import opened Sorting

  function Min(a: nat, b: nat): nat {
    if a < b then a else b
  }

  /** `top` has `k` members of `all`, or all of them, and nothing left out is better than one of them. */
  ghost predicate IsTop<T(!new)>(all: set<T>, k: nat, less: (T, T) -> bool, top: set<T>) {
    && top <= all
    && |top| == Min(k, |all|)
    && forall a, b :: a in top && b in all - top ==> !less(b, a)
  }

  ghost function Members<T>(s: seq<T>): set<T> {
    set x | x in s
  }

  lemma MembersSnoc<T>(s: seq<T>, x: T)
    ensures Members(s + [x]) == Members(s) + {x}
    ensures NoRepeats(s) && x !in Members(s) ==> NoRepeats(s + [x])
  {
  }

  lemma {:induction false} MembersCount<T>(s: seq<T>)
    ensures |Members(s)| <= |s|
    ensures NoRepeats(s) <==> |Members(s)| == |s|
  {
    if s != [] {
      var n := |s| - 1;
      MembersCount(s[..n]);
      assert s == s[..n] + [s[n]];
      assert Members(s) == Members(s[..n]) + {s[n]};
      assert NoRepeats(s) <==> NoRepeats(s[..n]) && s[n] !in s[..n];
    }
  }

  /** The front of an ordered list is the top of its members. */
  lemma FrontIsTop<T(!new)>(s: seq<T>, k: nat, less: (T, T) -> bool)
    requires NoRepeats(s) && InOrder(s, less)
    ensures IsTop(Members(s), k, less, Members(s[..Min(k, |s|)]))
  {
    var n := Min(k, |s|);
    MembersCount(s);
    MembersCount(s[..n]);
    forall a, b | a in Members(s[..n]) && b in Members(s) - Members(s[..n])
      ensures !less(b, a)
    {
      var i :| 0 <= i < n && s[i] == a;
      var j :| 0 <= j < |s| && s[j] == b;
      assert forall l :: 0 <= l < n ==> s[..n][l] == s[l] && s[l] in Members(s[..n]);
    }
  }

  lemma {:induction false} LeastExists<T(!new)>(all: set<T>, less: (T, T) -> bool) returns (least: T)
    requires Ordering(less) && all != {}
    ensures least in all && forall b :: b in all ==> !less(b, least)
    decreases |all|
  {
    var x :| x in all;
    least := x;
    if all != {x} {
      var y := LeastExists(all - {x}, less);
      if !less(x, y) {
        least := y;
      }
    }
  }

  lemma {:induction false} TopExists<T(!new)>(all: set<T>, k: nat, less: (T, T) -> bool) returns (top: set<T>)
    requires Ordering(less)
    ensures IsTop(all, k, less, top)
    decreases k
  {
    top := {};
    if k > 0 && all != {} {
      var least := LeastExists(all, less);
      var rest := TopExists(all - {least}, k - 1, less);
      top := rest + {least};
    }
  }

  ghost predicate TotalOn<T(!new)>(all: set<T>, less: (T, T) -> bool) {
    forall a, b :: a in all && b in all && a != b ==> less(a, b) || less(b, a)
  }

  lemma TopIsUnique<T(!new)>(all: set<T>, k: nat, less: (T, T) -> bool, top: set<T>, top': set<T>)
    requires TotalOn(all, less) && IsTop(all, k, less, top) && IsTop(all, k, less, top')
    ensures top == top'
  {
    assert forall a, b :: a in top && a !in top' && b in top' ==> b in top;
    if top <= top' {
      SubsetSize(top, top');
    } else {
      SubsetSize(top', top);
    }
  }

  lemma SubsetSize<T>(s: set<T>, t: set<T>)
    requires s <= t
    ensures |s| <= |t|
    ensures |s| == |t| ==> s == t
    ensures |t - s| == |t| - |s|
  {
    assert t == s + (t - s);
  }

  // Fetching more than needed.

  ghost function Kept<T(!new)>(all: set<T>, keep: T -> bool): set<T> {
    set x | x in all && keep(x)
  }

  /** Fetch the top `m`, drop what is not kept, take the top `k`: nothing is lost as long as
      `m - k` is room for everything that can be dropped. */
  lemma OverfetchIsTop<T(!new)>(all: set<T>, m: nat, k: nat, less: (T, T) -> bool, keep: T -> bool,
                                fetched: set<T>, top: set<T>)
    requires |all - Kept(all, keep)| + k <= m
    requires IsTop(all, m, less, fetched) && IsTop(Kept(fetched, keep), k, less, top)
    ensures IsTop(Kept(all, keep), k, less, top)
  {
    var kept, all' := Kept(fetched, keep), Kept(all, keep);
    SubsetSize(kept, fetched);
    SubsetSize(all', all);
    SubsetSize(kept, all');
    SubsetSize(fetched - kept, all - all');
    if |all| <= m {
      SubsetSize(fetched, all);
    }
  }

  /** A threshold on top costs nothing: what is no worse than a passing member passes, too. */
  lemma ThresholdedIsTop<T(!new)>(all: set<T>, m: nat, k: nat, less: (T, T) -> bool, keep: T -> bool, pass: T -> bool,
                                  both: T -> bool, fetched: set<T>, top: set<T>)
    requires |all - Kept(all, keep)| + k <= m
    requires forall x :: both(x) <==> keep(x) && pass(x)
    requires forall a, b :: a in all && b in all && pass(b) && !less(b, a) ==> pass(a)
    requires IsTop(all, m, less, fetched) && IsTop(Kept(fetched, both), k, less, top)
    ensures IsTop(Kept(all, both), k, less, top)
  {
    var kept, all' := Kept(fetched, both), Kept(all, both);
    SubsetSize(kept, all');
    if all' != kept {
      var b :| b in all' && b !in kept;
      assert forall a :: a in fetched ==> pass(a);
      assert kept == Kept(fetched, keep);
      SubsetSize(kept, fetched);
      SubsetSize(fetched, all);
      SubsetSize(fetched - kept, all - Kept(all, keep));
    }
  }

  ghost function NoFurther<T(!new)>(all: set<T>, e: T, less: (T, T) -> bool): set<T> {
    set c | c in all && !less(e, c)
  }

  /** Whoever has room for itself and everything no further away is always fetched. */
  lemma AlwaysFetched<T(!new)>(all: set<T>, m: nat, less: (T, T) -> bool, fetched: set<T>, e: T)
    requires IsTop(all, m, less, fetched) && e in all && Ordering(less)
    requires |NoFurther(all, e, less)| <= m
    ensures e in fetched
  {
    var near := NoFurther(all, e, less);
    if e !in fetched {
      assert fetched + {e} <= near;
      SubsetSize(fetched + {e}, near);
      SubsetSize(fetched, all);
    }
  }

  /** And whoever has not can be left out of the fetch. */
  lemma SometimesLeftOut<T(!new)>(all: set<T>, m: nat, less: (T, T) -> bool, e: T) returns (fetched: set<T>)
    requires Ordering(less) && e in all && |NoFurther(all, e, less)| > m
    ensures IsTop(all, m, less, fetched) && e !in fetched
  {
    var near := NoFurther(all, e, less);
    fetched := TopExists(all - {e}, m, less);
    SubsetSize(near, all);
    forall a | a in fetched
      ensures !less(e, a)
    {
      if less(e, a) {
        var others := near - {e};
        forall x | x in others
          ensures x in fetched
        {
        }
        SubsetSize(others + {a}, fetched);
      }
    }
  }

  ghost function Ahead<T(!new)>(all: set<T>, e: T, less: (T, T) -> bool): set<T> {
    set c | c in all && less(c, e)
  }

  /** Whoever has fewer than `m` ahead of itself can be taken. */
  lemma SometimesTaken<T(!new)>(all: set<T>, m: nat, less: (T, T) -> bool, e: T) returns (top: set<T>)
    requires Ordering(less) && e in all && |Ahead(all, e, less)| < m
    ensures IsTop(all, m, less, top) && e in top
  {
    var rest := TopExists(all - {e}, m - 1, less);
    top := rest + {e};
    forall b | b in all - top
      ensures !less(b, e)
    {
      var others, ahead := all - {e}, Ahead(all, e, less);
      assert b in others - rest;
      if less(b, e) {
        forall x | x in rest
          ensures x in ahead - {b}
        {
          assert !less(b, x) && less(x, e);
        }
        SubsetSize(rest + {b}, others);
        SubsetSize(rest, ahead - {b});
      }
    }
  }

  /** And whoever has not is never taken. */
  lemma NeverTaken<T(!new)>(all: set<T>, m: nat, less: (T, T) -> bool, e: T, top: set<T>)
    requires IsTop(all, m, less, top) && e in all && |Ahead(all, e, less)| >= m
    requires Ordering(less)
    ensures e !in top
  {
    if e in top {
      assert Ahead(all, e, less) + {e} <= top;
      SubsetSize(Ahead(all, e, less) + {e}, top);
    }
  }

  /** The ranked answer made from a fetch is the same for every legal fetch exactly when each
      of the best entries always has room in it. */
  lemma SameForEveryFetch<T(!new)>(all: set<T>, m: nat, k: nat, near: (T, T) -> bool, keep: T -> bool,
                                   before: (T, T) -> bool, best: set<T>)
    requires Ordering(near) && Ordering(before) && TotalOn(all, before)
    requires IsTop(Kept(all, keep), k, before, best)
    ensures (forall fetched, top ::
        IsTop(all, m, near, fetched) && IsTop(Kept(fetched, keep), k, before, top) ==> top == best)
      <==> (forall e :: e in best ==> |NoFurther(all, e, near)| <= m)
  {
    if forall e :: e in best ==> |NoFurther(all, e, near)| <= m {
      forall fetched, top | IsTop(all, m, near, fetched) && IsTop(Kept(fetched, keep), k, before, top)
        ensures top == best
      {
        EveryFetchGivesBest(all, m, k, near, keep, before, best, fetched, top);
      }
    } else {
      var e :| e in best && |NoFurther(all, e, near)| > m;
      var fetched := SometimesLeftOut(all, m, near, e);
      var top := TopExists(Kept(fetched, keep), k, before);
      assert e !in top;
    }
  }

  lemma EveryFetchGivesBest<T(!new)>(all: set<T>, m: nat, k: nat, near: (T, T) -> bool, keep: T -> bool,
                                     before: (T, T) -> bool, best: set<T>, fetched: set<T>, top: set<T>)
    requires Ordering(near) && TotalOn(all, before)
    requires IsTop(Kept(all, keep), k, before, best)
    requires IsTop(all, m, near, fetched) && IsTop(Kept(fetched, keep), k, before, top)
    requires forall e :: e in best ==> |NoFurther(all, e, near)| <= m
    ensures top == best
  {
    forall e | e in best
      ensures e in fetched
    {
      AlwaysFetched(all, m, near, fetched, e);
    }
    var kept := Kept(fetched, keep);
    SubsetSize(best, kept);
    SubsetSize(kept, Kept(all, keep));
    TopIsUnique(kept, k, before, top, best);
  }

  // When every fetch has room.

  /** What may not be kept and is no further away than `e`. */
  ghost function Rivals<T(!new)>(all: set<T>, keep: T -> bool, e: T, less: (T, T) -> bool): set<T> {
    set c | c in all && !keep(c) && !less(e, c)
  }

  lemma FetchHasRoom<T(!new)>(all: set<T>, m: nat, k: nat, less: (T, T) -> bool, keep: T -> bool,
                              best: set<T>, fetched: set<T>)
    requires IsTop(Kept(all, keep), k, less, best) && IsTop(all, m, less, fetched)
    requires forall e :: e in best ==> |best| + |Rivals(all, keep, e, less)| <= m
    ensures |Kept(fetched, keep)| >= |best|
  {
    var kept := Kept(fetched, keep);
    if best <= fetched {
      SubsetSize(best, kept);
    } else {
      var e :| e in best && e !in fetched;
      SubsetSize(kept, fetched);
      SubsetSize(fetched - kept, Rivals(all, keep, e, less));
      SubsetSize(fetched, all);
    }
  }

  /** Nearer first, and what may not be kept before what ties with it. */
  function DroppedFirst<T>(less: (T, T) -> bool, keep: T -> bool): (T, T) -> bool {
    (a, b) => less(a, b) || (!less(b, a) && !keep(a) && keep(b))
  }

  lemma DroppedFirstIsOrdering<T(!new)>(less: (T, T) -> bool, keep: T -> bool)
    requires Ordering(less)
    ensures Ordering(DroppedFirst(less, keep))
  {
    var worst := DroppedFirst(less, keep);
    forall x, y, z | !worst(y, x) && !worst(z, y)
      ensures !worst(z, x)
    {
      assert !less(y, x) && !less(z, y);
      assert !less(z, x);
    }
  }

  /** The fetch that takes as much as it can of what is dropped afterwards. */
  lemma CrowdedFetch<T(!new)>(all: set<T>, m: nat, k: nat, less: (T, T) -> bool, keep: T -> bool,
                              best: set<T>, e: T) returns (fetched: set<T>)
    requires Ordering(less) && IsTop(Kept(all, keep), k, less, best)
    requires e in best && |best| + |Rivals(all, keep, e, less)| > m
    ensures IsTop(all, m, less, fetched) && |Kept(fetched, keep)| < |best|
  {
    var worst := DroppedFirst(less, keep);
    DroppedFirstIsOrdering(less, keep);
    fetched := TopExists(all, m, worst);
    var kept, rivals := Kept(fetched, keep), Rivals(all, keep, e, less);
    assert forall a, b :: less(a, b) ==> worst(a, b);
    assert best + rivals <= all && best !! rivals;
    SubsetSize(best + rivals, all);
    if rivals <= fetched {
      assert kept + rivals <= fetched && kept !! rivals;
      SubsetSize(kept + rivals, fetched);
    } else {
      var r :| r in rivals && r !in fetched;
      forall a | a in kept
        ensures a in best - {e}
      {
        assert !worst(r, a);
        assert less(a, r) && less(a, e);
      }
      SubsetSize(kept, best - {e});
    }
  }

  /** Whatever legal fetch is made, what is taken from it is a top of all that may be kept,
      exactly when it has room for the best of them and for the rivals of each. */
  lemma TopForEveryFetch<T(!new)>(all: set<T>, m: nat, k: nat, less: (T, T) -> bool, keep: T -> bool, best: set<T>)
    requires Ordering(less) && IsTop(Kept(all, keep), k, less, best)
    ensures (forall fetched, top ::
        IsTop(all, m, less, fetched) && IsTop(Kept(fetched, keep), k, less, top) ==>
          IsTop(Kept(all, keep), k, less, top))
      <==> (forall e :: e in best ==> |best| + |Rivals(all, keep, e, less)| <= m)
  {
    if forall e :: e in best ==> |best| + |Rivals(all, keep, e, less)| <= m {
      forall fetched, top | IsTop(all, m, less, fetched) && IsTop(Kept(fetched, keep), k, less, top)
        ensures IsTop(Kept(all, keep), k, less, top)
      {
        RoomyFetchIsTop(all, m, k, less, keep, best, fetched, top);
      }
    } else {
      var e :| e in best && |best| + |Rivals(all, keep, e, less)| > m;
      var fetched := CrowdedFetch(all, m, k, less, keep, best, e);
      var top := TopExists(Kept(fetched, keep), k, less);
      assert |top| < |best| && !IsTop(Kept(all, keep), k, less, top);
    }
  }

  lemma RoomyFetchIsTop<T(!new)>(all: set<T>, m: nat, k: nat, less: (T, T) -> bool, keep: T -> bool, best: set<T>,
                                 fetched: set<T>, top: set<T>)
    requires IsTop(Kept(all, keep), k, less, best)
    requires forall e :: e in best ==> |best| + |Rivals(all, keep, e, less)| <= m
    requires IsTop(all, m, less, fetched) && IsTop(Kept(fetched, keep), k, less, top)
    ensures IsTop(Kept(all, keep), k, less, top)
  {
    FetchHasRoom(all, m, k, less, keep, best, fetched);
    SubsetSize(Kept(fetched, keep), Kept(all, keep));
  }

  // When every fetch has the best by another order.

  /** What may be kept and is no worse than some member of `best`. */
  ghost function AsGood<T(!new)>(all: set<T>, keep: T -> bool, before: (T, T) -> bool, best: set<T>): set<T> {
    set c | c in all && keep(c) && exists e :: e in best && !before(e, c)
  }

  /** What may be kept and is better than some member of `best`: it cannot be done without. */
  ghost function Needed<T(!new)>(all: set<T>, keep: T -> bool, before: (T, T) -> bool, best: set<T>): set<T> {
    set c | c in all && keep(c) && exists e :: e in best && before(c, e)
  }

  /** A fetch with all that is needed, and with enough that is as good, has a top of everything. */
  lemma RichFetch<T(!new)>(all: set<T>, k: nat, keep: T -> bool, before: (T, T) -> bool, best: set<T>,
                           fetched: set<T>, top: set<T>)
    requires Ordering(before) && IsTop(Kept(all, keep), k, before, best)
    requires fetched <= all && IsTop(Kept(fetched, keep), k, before, top)
    requires Needed(all, keep, before, best) <= fetched
    requires |AsGood(all, keep, before, best) * fetched| >= |best|
    ensures IsTop(Kept(all, keep), k, before, top)
  {
    var kept, good := Kept(fetched, keep), AsGood(all, keep, before, best) * fetched;
    SubsetSize(good, kept);
    SubsetSize(kept, Kept(all, keep));
    forall a, b | a in top && b in Kept(all, keep) - top
      ensures !before(b, a)
    {
      if before(b, a) {
        assert b !in kept && b !in Needed(all, keep, before, best);
        forall x | x in good
          ensures x in top
        {
          var e :| e in best && !before(e, x);
          assert before(e, a);
        }
        SubsetSize(good + {a}, top);
      }
    }
  }

  /** Without something that is needed it has none. */
  lemma LacksNeeded<T(!new)>(all: set<T>, k: nat, keep: T -> bool, before: (T, T) -> bool, best: set<T>,
                             b: T, top: set<T>)
    requires Ordering(before) && IsTop(Kept(all, keep), k, before, best)
    requires b in Needed(all, keep, before, best) && b !in top
    ensures !IsTop(Kept(all, keep), k, before, top)
  {
    if IsTop(Kept(all, keep), k, before, top) {
      var e :| e in best && before(b, e);
      forall a | a in top
        ensures a in best - {e}
      {
        assert b in Kept(all, keep) - top && !before(b, a);
        assert before(a, e);
      }
      SubsetSize(top, best - {e});
    }
  }

  /** Nor with too little that is as good. */
  lemma LacksGood<T(!new)>(all: set<T>, k: nat, keep: T -> bool, before: (T, T) -> bool, best: set<T>,
                           fetched: set<T>, top: set<T>)
    requires Ordering(before) && IsTop(Kept(all, keep), k, before, best)
    requires top <= fetched && |AsGood(all, keep, before, best) * fetched| < |best|
    ensures !IsTop(Kept(all, keep), k, before, top)
  {
    if IsTop(Kept(all, keep), k, before, top) {
      forall a | a in top
        ensures a in AsGood(all, keep, before, best)
      {
        if best <= top {
          SubsetSize(best, top);
          assert !before(a, a);
        } else {
          var e :| e in best && e !in top;
          assert !before(e, a);
        }
      }
      SubsetSize(top, AsGood(all, keep, before, best) * fetched);
    }
  }

  ghost function In<T(!new)>(good: set<T>): T -> bool {
    x => x in good
  }

  /** Room in every fetch for what is needed, and for enough that is as good. */
  ghost predicate HasRoomFor<T(!new)>(all: set<T>, m: nat, near: (T, T) -> bool, keep: T -> bool,
                                      before: (T, T) -> bool, best: set<T>, nearest: set<T>) {
    && (forall c :: c in Needed(all, keep, before, best) ==> |NoFurther(all, c, near)| <= m)
    && (forall e :: e in nearest ==> |best| + |Rivals(all, In(AsGood(all, keep, before, best)), e, near)| <= m)
  }

  lemma GoodOnes<T(!new)>(all: set<T>, k: nat, keep: T -> bool, before: (T, T) -> bool, best: set<T>)
    requires Ordering(before) && IsTop(Kept(all, keep), k, before, best)
    ensures |best| <= |AsGood(all, keep, before, best)|
  {
    var good := AsGood(all, keep, before, best);
    forall e | e in best
      ensures e in good
    {
      assert !before(e, e);
    }
    SubsetSize(best, good);
  }

  lemma AllGood<T(!new)>(all: set<T>, keep: T -> bool, before: (T, T) -> bool, best: set<T>)
    ensures Kept(all, In(AsGood(all, keep, before, best))) == AsGood(all, keep, before, best)
  {
    KeptIn(all, AsGood(all, keep, before, best));
  }

  lemma KeptIn<T(!new)>(all: set<T>, good: set<T>)
    ensures Kept(all, In(good)) == good * all
  {
  }

  /** Fetch by one order, rank by another: whatever legal fetch is made, what is taken from it
      is a top of all that may be kept, exactly when the fetch has room for each that is better
      than one of the best, and for as many as are wanted of those that are as good. */
  lemma BestForEveryFetch<T(!new)>(all: set<T>, m: nat, k: nat, near: (T, T) -> bool, keep: T -> bool,
                                   before: (T, T) -> bool, best: set<T>, nearest: set<T>)
    requires Ordering(near) && Ordering(before) && IsTop(Kept(all, keep), k, before, best)
    requires IsTop(AsGood(all, keep, before, best), |best|, near, nearest)
    ensures (forall fetched, top ::
        IsTop(all, m, near, fetched) && IsTop(Kept(fetched, keep), k, before, top) ==>
          IsTop(Kept(all, keep), k, before, top))
      <==> HasRoomFor(all, m, near, keep, before, best, nearest)
  {
    hide IsTop, Ordering, HasRoomFor, Kept;
    if HasRoomFor(all, m, near, keep, before, best, nearest) {
      forall fetched, top | IsTop(all, m, near, fetched) && IsTop(Kept(fetched, keep), k, before, top)
        ensures IsTop(Kept(all, keep), k, before, top)
      {
        RoomyFetchHasBest(all, m, k, near, keep, before, best, nearest, fetched, top);
      }
    } else {
      var fetched := PoorFetch(all, m, k, near, keep, before, best, nearest);
      var top := TopExists(Kept(fetched, keep), k, before);
    }
  }

  lemma RoomyFetchHasBest<T(!new)>(all: set<T>, m: nat, k: nat, near: (T, T) -> bool, keep: T -> bool,
                                   before: (T, T) -> bool, best: set<T>, nearest: set<T>,
                                   fetched: set<T>, top: set<T>)
    requires Ordering(near) && Ordering(before) && IsTop(Kept(all, keep), k, before, best)
    requires IsTop(AsGood(all, keep, before, best), |best|, near, nearest)
    requires HasRoomFor(all, m, near, keep, before, best, nearest)
    requires IsTop(all, m, near, fetched) && IsTop(Kept(fetched, keep), k, before, top)
    ensures IsTop(Kept(all, keep), k, before, top)
  {
    hide Ordering, AsGood, Needed, Rivals, NoFurther, Kept;
    GoodOnes(all, k, keep, before, best);
    KeptIn(fetched, AsGood(all, keep, before, best));
    AllGood(all, keep, before, best);
    FetchHasRoom(all, m, |best|, near, In(AsGood(all, keep, before, best)), nearest, fetched);
    forall c | c in Needed(all, keep, before, best)
      ensures c in fetched
    {
      NeededIsThere(all, keep, before, best, c);
      AlwaysFetched(all, m, near, fetched, c);
    }
    RichFetch(all, k, keep, before, best, fetched, top);
  }

  lemma NeededIsThere<T(!new)>(all: set<T>, keep: T -> bool, before: (T, T) -> bool, best: set<T>, c: T)
    requires c in Needed(all, keep, before, best)
    ensures c in all
  {
  }

  /** Without that room there is a fetch from which no top can be taken. */
  lemma PoorFetch<T(!new)>(all: set<T>, m: nat, k: nat, near: (T, T) -> bool, keep: T -> bool,
                           before: (T, T) -> bool, best: set<T>, nearest: set<T>) returns (fetched: set<T>)
    requires Ordering(near) && Ordering(before) && IsTop(Kept(all, keep), k, before, best)
    requires IsTop(AsGood(all, keep, before, best), |best|, near, nearest)
    requires !HasRoomFor(all, m, near, keep, before, best, nearest)
    ensures IsTop(all, m, near, fetched)
    ensures forall top :: IsTop(Kept(fetched, keep), k, before, top) ==> !IsTop(Kept(all, keep), k, before, top)
  {
    hide Ordering, AsGood, Needed, Rivals, NoFurther;
    var good := AsGood(all, keep, before, best);
    if c :| c in Needed(all, keep, before, best) && |NoFurther(all, c, near)| > m {
      NeededIsThere(all, keep, before, best, c);
      fetched := SometimesLeftOut(all, m, near, c);
      forall top | IsTop(Kept(fetched, keep), k, before, top)
        ensures !IsTop(Kept(all, keep), k, before, top)
      {
        LacksNeeded(all, k, keep, before, best, c, top);
      }
    } else {
      GoodOnes(all, k, keep, before, best);
      AllGood(all, keep, before, best);
      var e :| e in nearest && |best| + |Rivals(all, In(good), e, near)| > m;
      fetched := CrowdedFetch(all, m, |best|, near, In(good), nearest, e);
      KeptIn(fetched, good);
      forall top | IsTop(Kept(fetched, keep), k, before, top)
        ensures !IsTop(Kept(all, keep), k, before, top)
      {
        LacksGood(all, k, keep, before, best, fetched, top);
      }
    }
  }

  /** A set can be listed in order. */
  lemma {:induction false} ListExists<T(!new)>(all: set<T>, less: (T, T) -> bool) returns (list: seq<T>)
    requires Ordering(less)
    ensures NoRepeats(list) && InOrder(list, less) && Members(list) == all
    decreases |all|
  {
    if all == {} {
      list := [];
    } else {
      var least := LeastExists(all, less);
      var rest := ListExists(all - {least}, less);
      list := [least] + rest;
      assert forall i :: 0 <= i < |rest| ==> rest[i] in Members(rest);
      assert forall i :: 0 < i < |list| ==> list[i] == rest[i - 1];
      forall x
        ensures x in Members(list) <==> x in all
      {
        assert x in Members(rest) <==> x in all - {least};
      }
    }
  }

  /** And in only one way if the order is total. */
  lemma {:induction false} ListIsUnique<T(!new)>(all: set<T>, s: seq<T>, t: seq<T>, less: (T, T) -> bool)
    requires TotalOn(all, less) && Members(s) == Members(t) <= all
    requires NoRepeats(s) && NoRepeats(t) && InOrder(s, less) && InOrder(t, less)
    ensures s == t
  {
    MembersCount(s);
    MembersCount(t);
    if s != [] {
      assert s[0] in Members(s) && t[0] in Members(t);
      var i :| 0 <= i < |t| && t[i] == s[0];
      var j :| 0 <= j < |s| && s[j] == t[0];
      assert s[0] == t[0];
      forall x
        ensures x in Members(s[1..]) <==> x in Members(s) - {s[0]}
        ensures x in Members(t[1..]) <==> x in Members(t) - {s[0]}
      {
      }
      ListIsUnique(all, s[1..], t[1..], less);
    }
  }

  // The same ranking seen through another representation.

  /** `f` tells the members of `all` apart. */
  ghost predicate InjectiveOn<S(!new), T(!new)>(all: set<S>, f: S -> T) {
    forall a, b :: a in all && b in all && f(a) == f(b) ==> a == b
  }

  ghost function Image<S(!new), T>(all: set<S>, f: S -> T): set<T> {
    set x | x in all :: f(x)
  }

  lemma {:induction false} ImageSize<S(!new), T(!new)>(all: set<S>, f: S -> T)
    ensures |Image(all, f)| <= |all|
    ensures InjectiveOn(all, f) ==> |Image(all, f)| == |all|
    decreases |all|
  {
    if all != {} {
      var x :| x in all;
      ImageSize(all - {x}, f);
      assert Image(all, f) == Image(all - {x}, f) + {f(x)};
    }
  }

  lemma ImageIsTop<S(!new), T(!new)>(all: set<S>, k: nat, less: (S, S) -> bool, top: set<S>,
                                     f: S -> T, less': (T, T) -> bool)
    requires IsTop(all, k, less, top) && InjectiveOn(all, f)
    requires forall a, b :: a in all && b in all && less'(f(a), f(b)) ==> less(a, b)
    ensures IsTop(Image(all, f), k, less', Image(top, f))
  {
    ImageSize(all, f);
    ImageSize(top, f);
    forall a, b | a in Image(top, f) && b in Image(all, f) - Image(top, f)
      ensures !less'(b, a)
    {
      var x :| x in top && f(x) == a;
      var y :| y in all && f(y) == b;
      assert y !in top;
    }
  }
}
