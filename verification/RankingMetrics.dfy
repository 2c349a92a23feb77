/** Graded ranking metrics (`bench/metrics.go`). The rank discount, a logarithm in the
    program, is any function that is positive and falls with the position. */
module RankingMetrics {
  import opened Model
  import opened RealPower
  import Sorting

  type Judgments = map<ID, int>

  function Grade(rel: Judgments, id: ID): int {
    if id in rel then rel[id] else 0
  }

  /** `2^grade - 1`, and nothing for grades that are not positive. */
  function Gain(grade: int): real {
    if grade <= 0 then 0.0 else Pow(2.0, grade) - 1.0
  }

  /** Grades that are not positive gain nothing, and each other one gains one more than twice
      what the grade below it does. */
  lemma GainDoubles(g: int)
    ensures g <= 0 ==> Gain(g) == 0.0
    ensures g >= 0 ==> Gain(g + 1) == 2.0 * Gain(g) + 1.0
  {
    if g > 0 {
      assert Pow(2.0, g + 1) == 2.0 * Pow(2.0, g);
    } else if g == 0 {
      assert Pow(2.0, 1) == 2.0 * Pow(2.0, 0);
    }
  }

  ghost predicate IsDiscount(d: nat -> real) {
    (forall i :: d(i) > 0.0) && (forall i, j :: i < j ==> d(j) < d(i))
  }

  function Scaled(x: real, f: real): real {
    x * f
  }

  /** The discounted sum of gains. */
  function Dcg(gains: seq<real>, d: nat -> real): real {
    if gains == [] then 0.0
    else
      var n := |gains| - 1;
      Dcg(gains[..n], d) + Scaled(gains[n], d(n))
  }

  function Sum(gains: seq<real>): real {
    if gains == [] then 0.0 else Sum(gains[..|gains| - 1]) + gains[|gains| - 1]
  }

  // Prefix sums decide.

  function Front(x: seq<real>): seq<real>
    requires x != []
  {
    x[..|x| - 1]
  }

  /** No prefix of `x` sums to more than the same prefix of `y`. */
  ghost predicate Dominated(x: seq<real>, y: seq<real>) {
    |x| == |y| && (x != [] ==> Sum(x) <= Sum(y) && Dominated(Front(x), Front(y)))
  }

  lemma DominatedFront(x: seq<real>, y: seq<real>)
    requires Dominated(x, y) && x != []
    ensures Dominated(Front(x), Front(y))
    ensures Sum(Front(x)) <= Sum(Front(y)) && Sum(x) <= Sum(y)
  {
  }

  lemma Unfold(x: seq<real>, d: nat -> real)
    requires x != []
    ensures var n := |x| - 1;
      Dcg(x, d) == Dcg(Front(x), d) + Scaled(x[n], d(n)) && Sum(x) == Sum(Front(x)) + x[n]
    ensures |x| == 1 ==> Dcg(Front(x), d) == 0.0 && Sum(Front(x)) == 0.0
  {
  }

  /** One step of summation by parts. */
  lemma AbelStep(diff: real, gap: real, d0: real, d1: real, step: real)
    requires gap >= 0.0 && d0 > d1 && diff >= d0 * gap
    ensures diff + step * d1 >= d1 * (gap + step)
    ensures gap > 0.0 ==> diff + step * d1 > d1 * (gap + step)
  {
    assert d1 * (gap + step) == d1 * gap + step * d1;
    Product(d0 - d1, gap);
    assert (d0 - d1) * gap == d0 * gap - d1 * gap;
  }

  lemma Product(a: real, b: real)
    requires a > 0.0 && b >= 0.0
    ensures a * b >= 0.0
    ensures a * b == 0.0 <==> b == 0.0
  {
  }

  lemma DcgStep(x: seq<real>, y: seq<real>, d: nat -> real)
    requires IsDiscount(d) && |x| == |y| > 0
    requires Sum(Front(x)) <= Sum(Front(y)) && Sum(x) <= Sum(y)
    requires |x| > 1 ==> Dcg(Front(y), d) - Dcg(Front(x), d) >= Scaled(Sum(Front(y)) - Sum(Front(x)), d(|x| - 2))
    requires |x| == 1 ==> Dcg(Front(y), d) == Dcg(Front(x), d) && Sum(Front(y)) == Sum(Front(x))
    ensures Dcg(y, d) - Dcg(x, d) >= Scaled(Sum(y) - Sum(x), d(|x| - 1)) >= 0.0
    ensures Dcg(x, d) == Dcg(y, d) ==> Dcg(Front(x), d) == Dcg(Front(y), d) && x[|x| - 1] == y[|y| - 1]
  {
    hide Dcg, Sum, Front, IsDiscount, Scaled;
    var n := |x| - 1;
    Unfold(x, d);
    Unfold(y, d);
    DiscountAt(d, n);
    ScaledZero(d(n) + 1.0);
    Later(Dcg(x, d), Dcg(y, d), Dcg(Front(x), d), Dcg(Front(y), d), Sum(Front(y)) - Sum(Front(x)), x[n], y[n],
          if n == 0 then d(n) + 1.0 else d(n - 1), d(n), Sum(y) - Sum(x));
  }

  lemma ScaledZero(f: real)
    ensures Scaled(0.0, f) == 0.0
  {
  }

  lemma DiscountAt(d: nat -> real, n: nat)
    requires IsDiscount(d)
    ensures d(n) > 0.0
    ensures n > 0 ==> d(n - 1) > d(n)
  {
  }

  lemma Later(dx: real, dy: real, dx': real, dy': real, gap: real, x: real, y: real, d0: real, d1: real, total: real)
    requires dx == dx' + Scaled(x, d1) && dy == dy' + Scaled(y, d1)
    requires gap >= 0.0 && d0 > d1 > 0.0 && dy' - dx' >= Scaled(gap, d0) && total == gap + (y - x) && total >= 0.0
    ensures dy - dx >= Scaled(total, d1)
    ensures Scaled(total, d1) >= 0.0
    ensures dx == dy ==> dx' == dy' && x == y
  {
    LaterStep(dy' - dx', gap, x, y, d0, d1, total);
  }

  lemma LaterStep(diff: real, gap: real, x: real, y: real, d0: real, d1: real, total: real)
    requires gap >= 0.0 && d0 > d1 > 0.0 && diff >= d0 * gap && total == gap + (y - x) && total >= 0.0
    ensures diff + y * d1 - x * d1 >= d1 * total
    ensures d1 * total >= 0.0
    ensures diff + y * d1 - x * d1 == 0.0 ==> diff == 0.0 && x == y
  {
    var step := y - x;
    assert y * d1 - x * d1 == step * d1;
    AbelStep(diff, gap, d0, d1, step);
    Product(d1, total);
    if diff + y * d1 - x * d1 == 0.0 {
      assert d1 * total == 0.0;
      assert total == 0.0;
      assert gap == 0.0;
    }
  }

  /** Discounting keeps the order, and only equal sequences tie. */
  lemma {:induction false} DominatedDcg(x: seq<real>, y: seq<real>, d: nat -> real)
    requires Dominated(x, y) && IsDiscount(d)
    ensures x != [] ==> Dcg(y, d) - Dcg(x, d) >= Scaled(Sum(y) - Sum(x), d(|x| - 1))
    ensures Dcg(x, d) <= Dcg(y, d)
    ensures Dcg(x, d) == Dcg(y, d) ==> x == y
  {
    hide Scaled;
    if x != [] {
      DominatedFront(x, y);
      DominatedDcg(Front(x), Front(y), d);
      DcgStep(x, y, d);
      assert x == Front(x) + [x[|x| - 1]] && y == Front(y) + [y[|y| - 1]];
    }
  }

  // Gains.

  lemma {:induction false} PowGrows(m: nat, n: nat)
    requires m < n
    ensures 1.0 <= Pow(2.0, m) < Pow(2.0, n)
    decreases n
  {
    if m > 0 {
      PowGrows(m - 1, n - 1);
    } else if n > 1 {
      PowGrows(0, n - 1);
    }
  }

  lemma GainGrows(a: int, b: int)
    ensures 0.0 <= Gain(a)
    ensures Gain(a) < Gain(b) <==> a < b && 0 < b
  {
    if 0 < a { PowGrows(0, a); }
    if 0 < b { PowGrows(0, b); }
    if 0 < a < b { PowGrows(a, b); }
    if 0 < b < a { PowGrows(b, a); }
  }

  function SumGains(grades: seq<int>): real {
    if grades == [] then 0.0 else Gain(grades[0]) + SumGains(grades[1..])
  }

  lemma {:induction false} SumGainsConcat(s: seq<int>, t: seq<int>)
    ensures SumGains(s + t) == SumGains(s) + SumGains(t)
  {
    if s == [] {
      assert s + t == t;
    } else {
      assert (s + t)[1..] == s[1..] + t;
      SumGainsConcat(s[1..], t);
    }
  }

  function Without<T>(s: seq<T>, i: nat): seq<T>
    requires i < |s|
  {
    s[..i] + s[i + 1..]
  }

  lemma WithoutMembers<T>(s: seq<T>, i: nat)
    requires i < |s|
    ensures multiset(s) == multiset{s[i]} + multiset(Without(s, i))
  {
    assert s == s[..i] + ([s[i]] + s[i + 1..]);
  }

  lemma SumGainsOne(g: int)
    ensures SumGains([g]) == Gain(g)
  {
    assert [g][1..] == [];
  }

  lemma SumGainsWithout(s: seq<int>, i: nat)
    requires i < |s|
    ensures SumGains(s) == Gain(s[i]) + SumGains(Without(s, i))
  {
    hide SumGains, Gain;
    assert s == s[..i] + ([s[i]] + s[i + 1..]);
    SumGainsConcat(s[..i], [s[i]] + s[i + 1..]);
    SumGainsConcat([s[i]], s[i + 1..]);
    SumGainsConcat(s[..i], s[i + 1..]);
    SumGainsOne(s[i]);
  }

  ghost predicate Falling(grades: seq<int>) {
    forall i, j :: 0 <= i < j < |grades| ==> grades[i] >= grades[j]
  }

  /** Of a falling sequence, no choice of as many members sums to more than the front. */
  lemma {:induction false} TopSum(p: seq<int>, y: seq<int>)
    requires Falling(y) && multiset(p) <= multiset(y)
    ensures |p| <= |y| && SumGains(p) <= SumGains(y[..|p|])
    decreases |p|
  {
    hide SumGains, Gain, Falling;
    if p == [] {
      assert y[..0] == [];
    } else {
      var i := Pick(p, y);
      var p' := Without(p, i);
      FallingTail(y);
      TopSum(p', y[1..]);
      SumGainsWithout(p, i);
      GainGrows(y[0], p[i]);
      assert y[..|p|] == [y[0]] + y[1..][..|p'|];
      SumGainsConcat([y[0]], y[1..][..|p'|]);
      SumGainsOne(y[0]);
    }
  }

  lemma FallingTail(y: seq<int>)
    requires Falling(y) && y != []
    ensures Falling(y[1..])
  {
  }

  /** The member to set against the head: the head itself if it was chosen. */
  lemma Pick(p: seq<int>, y: seq<int>) returns (i: nat)
    requires Falling(y) && multiset(p) <= multiset(y) && p != []
    ensures i < |p| && y != [] && p[i] <= y[0]
    ensures multiset(Without(p, i)) <= multiset(y[1..])
  {
    i := 0;
    if y != [] && y[0] in p {
      i :| i < |p| && p[i] == y[0];
    }
    assert p[i] in multiset(p);
    assert p[i] in multiset(y);
    assert p[i] in y;
    WithoutMembers(p, i);
    WithoutMembers(y, 0);
    assert Without(y, 0) == y[1..];
    SmallerChoice(p, y, Without(p, i), i);
  }

  lemma SmallerChoice(p: seq<int>, y: seq<int>, p': seq<int>, i: nat)
    requires i < |p| && y != [] && multiset(p) <= multiset(y)
    requires multiset(p) == multiset{p[i]} + multiset(p')
    requires multiset(y) == multiset{y[0]} + multiset(y[1..])
    requires p[i] == y[0] || y[0] !in p
    ensures multiset(p') <= multiset(y[1..])
  {
    forall g
      ensures multiset(p')[g] <= multiset(y[1..])[g]
    {
      assert multiset(p)[g] <= multiset(y)[g];
      if g == y[0] && p[i] != y[0] {
        assert g !in multiset(p);
      }
    }
  }

  lemma {:induction false} SumGainsGrows(y: seq<int>, m: nat, n: nat)
    requires m <= n <= |y|
    ensures SumGains(y[..m]) <= SumGains(y[..n])
    decreases n - m
  {
    if m < n {
      SumGainsGrows(y, m, n - 1);
      assert y[..n] == y[..n - 1] + [y[n - 1]];
      SumGainsConcat(y[..n - 1], [y[n - 1]]);
      assert [y[n - 1]][1..] == [];
      GainGrows(y[n - 1], y[n - 1]);
    }
  }

  // The ideal ranking.

  function GradesOf(rel: Judgments, ids: seq<ID>): (grades: seq<int>)
    ensures |grades| == |ids|
  {
    seq(|ids|, i requires 0 <= i < |ids| => Grade(rel, ids[i]))
  }

  ghost predicate IsRelevantSet(rel: Judgments, ids: seq<ID>) {
    Sorting.NoRepeats(ids) && forall id :: id in ids <==> id in rel && rel[id] > 0
  }

  /** The positive grades, best first. */
  ghost predicate IsIdeal(rel: Judgments, grades: seq<int>) {
    && Falling(grades)
    && exists ids :: IsRelevantSet(rel, ids) && multiset(grades) == multiset(GradesOf(rel, ids))
  }

  /** Distinct members `q` of `ids` leave the grades of the others. */
  lemma {:induction false} SplitGrades(rel: Judgments, q: seq<ID>, ids: seq<ID>) returns (rest: seq<ID>)
    requires Sorting.NoRepeats(q) && Sorting.NoRepeats(ids) && forall id :: id in q ==> id in ids
    ensures multiset(GradesOf(rel, ids)) == multiset(GradesOf(rel, q)) + multiset(GradesOf(rel, rest))
    ensures forall id :: id in rest <==> id in ids && id !in q
    decreases |q|
  {
    if q == [] {
      rest := ids;
    } else {
      assert q[0] in q;
      var i: nat :| i < |ids| && ids[i] == q[0];
      var others, tail := Without(ids, i), Without(q, 0);
      WithoutIds(rel, ids, i);
      WithoutIds(rel, q, 0);
      hide Sorting.NoRepeats, Without, GradesOf;
      rest := SplitGrades(rel, tail, others);
    }
  }

  lemma WithoutIds(rel: Judgments, ids: seq<ID>, i: nat)
    requires i < |ids| && Sorting.NoRepeats(ids)
    ensures Sorting.NoRepeats(Without(ids, i))
    ensures |Without(ids, i)| == |ids| - 1
    ensures forall id :: id in Without(ids, i) <==> id in ids && id != ids[i]
    ensures multiset(GradesOf(rel, ids)) == multiset{Grade(rel, ids[i])} + multiset(GradesOf(rel, Without(ids, i)))
  {
    var grades := GradesOf(rel, ids);
    assert Without(grades, i) == GradesOf(rel, Without(ids, i));
    WithoutMembers(grades, i);
    assert ids == ids[..i] + [ids[i]] + ids[i + 1..];
  }

  /** The gains along the ranking and along the ideal one, up to position `k`. */
  function RankedGains(ranked: seq<ID>, rel: Judgments, k: nat): (gains: seq<real>)
    ensures |gains| == k
  {
    seq(k, i requires 0 <= i < k => if i < |ranked| then Gain(Grade(rel, ranked[i])) else 0.0)
  }

  function IdealGains(grades: seq<int>, k: nat): (gains: seq<real>)
    ensures |gains| == k
  {
    seq(k, i requires 0 <= i < k => if i < |grades| then Gain(grades[i]) else 0.0)
  }

  function Min(a: nat, b: nat): nat {
    if a < b then a else b
  }

  lemma {:induction false} SumIdeal(grades: seq<int>, k: nat)
    ensures Sum(IdealGains(grades, k)) == SumGains(grades[..Min(k, |grades|)])
  {
    hide SumGains, Gain;
    if k == 0 {
      assert grades[..0] == [];
      NoGains();
    } else {
      SumIdeal(grades, k - 1);
      assert IdealGains(grades, k)[..k - 1] == IdealGains(grades, k - 1);
      if k <= |grades| {
        assert grades[..k] == grades[..k - 1] + [grades[k - 1]];
        SumGainsConcat(grades[..k - 1], [grades[k - 1]]);
        SumGainsOne(grades[k - 1]);
      }
    }
  }

  lemma NoGains()
    ensures SumGains([]) == 0.0 && Sum([]) == 0.0
  {
  }

  /** The relevant ones among the first `k` ranked. */
  function Relevant(ranked: seq<ID>, rel: Judgments, k: nat): seq<ID> {
    if k == 0 then []
    else
      Relevant(ranked, rel, k - 1) +
      if k <= |ranked| && Grade(rel, ranked[k - 1]) > 0 then [ranked[k - 1]] else []
  }

  lemma {:induction false} RelevantMembers(ranked: seq<ID>, rel: Judgments, k: nat)
    requires Sorting.NoRepeats(ranked)
    ensures |Relevant(ranked, rel, k)| <= Min(k, |ranked|)
    ensures Sorting.NoRepeats(Relevant(ranked, rel, k))
    ensures forall id :: id in Relevant(ranked, rel, k) <==>
      exists i :: 0 <= i < k && i < |ranked| && ranked[i] == id && Grade(rel, id) > 0
  {
    if k > 0 {
      RelevantMembers(ranked, rel, k - 1);
    }
  }

  lemma {:induction false} SumRanked(ranked: seq<ID>, rel: Judgments, k: nat)
    ensures Sum(RankedGains(ranked, rel, k)) == SumGains(GradesOf(rel, Relevant(ranked, rel, k)))
  {
    hide SumGains;
    if k == 0 {
      NoGains();
    } else {
      SumRanked(ranked, rel, k - 1);
      assert RankedGains(ranked, rel, k)[..k - 1] == RankedGains(ranked, rel, k - 1);
      if k <= |ranked| && Grade(rel, ranked[k - 1]) > 0 {
        var q, g := Relevant(ranked, rel, k - 1), Grade(rel, ranked[k - 1]);
        assert GradesOf(rel, q + [ranked[k - 1]]) == GradesOf(rel, q) + [g];
        SumGainsConcat(GradesOf(rel, q), [g]);
        SumGainsOne(g);
      } else {
        assert Relevant(ranked, rel, k) == Relevant(ranked, rel, k - 1);
        assert RankedGains(ranked, rel, k)[k - 1] == 0.0;
      }
    }
  }

  /** The relevant ones among the first `k` are part of the ideal ranking. */
  lemma RelevantIsPart(ranked: seq<ID>, rel: Judgments, grades: seq<int>, k: nat) returns (rest: seq<ID>)
    requires Sorting.NoRepeats(ranked) && IsIdeal(rel, grades)
    ensures var q := Relevant(ranked, rel, k);
      && multiset(grades) == multiset(GradesOf(rel, q)) + multiset(GradesOf(rel, rest))
      && forall id :: id in rest <==> id in rel && rel[id] > 0 && id !in q
  {
    var ids :| IsRelevantSet(rel, ids) && multiset(grades) == multiset(GradesOf(rel, ids));
    RelevantMembers(ranked, rel, k);
    rest := SplitGrades(rel, Relevant(ranked, rel, k), ids);
  }

  lemma {:induction false} RankedIsDominated(ranked: seq<ID>, rel: Judgments, grades: seq<int>, k: nat)
    requires Sorting.NoRepeats(ranked) && IsIdeal(rel, grades)
    ensures Dominated(RankedGains(ranked, rel, k), IdealGains(grades, k))
  {
    if k > 0 {
      RankedIsDominated(ranked, rel, grades, k - 1);
      assert Front(RankedGains(ranked, rel, k)) == RankedGains(ranked, rel, k - 1);
      assert Front(IdealGains(grades, k)) == IdealGains(grades, k - 1);
      SumIsBest(ranked, rel, grades, k);
    }
  }

  lemma SumIsBest(ranked: seq<ID>, rel: Judgments, grades: seq<int>, k: nat)
    requires Sorting.NoRepeats(ranked) && IsIdeal(rel, grades)
    ensures Sum(RankedGains(ranked, rel, k)) <= Sum(IdealGains(grades, k))
  {
    hide SumGains, Sum, Gain;
    var rest := RelevantIsPart(ranked, rel, grades, k);
    var p := GradesOf(rel, Relevant(ranked, rel, k));
    RelevantMembers(ranked, rel, k);
    TopSum(p, grades);
    SumGainsGrows(grades, |p|, Min(k, |grades|));
    SumRanked(ranked, rel, k);
    SumIdeal(grades, k);
  }

  // When a ranking is ideal.

  /** Grades do not rise along the first `k`, and no better judgment is left out. */
  ghost predicate IsPerfect(ranked: seq<ID>, rel: Judgments, k: nat) {
    && (forall i, j :: 0 <= i < j < k && j < |ranked| && Grade(rel, ranked[j]) > 0 ==>
          Grade(rel, ranked[i]) >= Grade(rel, ranked[j]))
    && (forall id :: id in rel && rel[id] > 0 && !Among(ranked, k, id) ==>
          k <= |ranked| && forall i :: 0 <= i < k ==> rel[id] <= Grade(rel, ranked[i]))
  }

  predicate Among(ranked: seq<ID>, k: nat, id: ID) {
    exists i :: 0 <= i < k && i < |ranked| && ranked[i] == id
  }

  ghost predicate Above(p: seq<int>, r: seq<int>) {
    forall a, b :: a in p && b in r ==> b <= a
  }

  /** A falling front that the rest does not exceed is the front of the whole. */
  lemma {:induction false} FrontOfFalling(p: seq<int>, r: seq<int>, y: seq<int>)
    requires Falling(p) && Falling(y) && multiset(y) == multiset(p) + multiset(r) && Above(p, r)
    ensures |p| <= |y| && y[..|p|] == p
    decreases |p|
  {
    hide Falling, Above;
    assert |multiset(y)| == |y| && |multiset(p)| == |p|;
    if p != [] {
      HeadOfFalling(p, r, y);
      TailsOf(p, r, y);
      FallingTail(p);
      FallingTail(y);
      FrontOfFalling(p[1..], r, y[1..]);
      assert y[..|p|] == [y[0]] + y[1..][..|p| - 1];
    }
  }

  lemma HeadOfFalling(p: seq<int>, r: seq<int>, y: seq<int>)
    requires Falling(p) && Falling(y) && multiset(y) == multiset(p) + multiset(r) && Above(p, r) && p != []
    ensures y != [] && y[0] == p[0]
  {
    UnionMembers(p, r, y);
    assert p[0] in p && p[0] in y;
    assert y[0] in y;
    var i :| 0 <= i < |y| && y[i] == p[0];
    if y[0] in p {
      var j :| 0 <= j < |p| && p[j] == y[0];
      assert y[0] <= p[0];
    }
    assert y[0] >= y[i];
  }

  lemma UnionMembers(p: seq<int>, r: seq<int>, y: seq<int>)
    requires multiset(y) == multiset(p) + multiset(r)
    ensures forall g :: g in y <==> g in p || g in r
  {
    assert forall g :: g in y <==> g in multiset(y);
    assert forall g :: g in p <==> g in multiset(p);
    assert forall g :: g in r <==> g in multiset(r);
  }

  lemma TailsOf(p: seq<int>, r: seq<int>, y: seq<int>)
    requires p != [] && y != [] && p[0] == y[0] && multiset(y) == multiset(p) + multiset(r) && Above(p, r)
    ensures multiset(y[1..]) == multiset(p[1..]) + multiset(r) && Above(p[1..], r)
    ensures p == [p[0]] + p[1..] && y == [y[0]] + y[1..]
  {
    var p', y' := p[1..], y[1..];
    WithoutMembers(p, 0);
    WithoutMembers(y, 0);
    assert Without(p, 0) == p' && Without(y, 0) == y';
    assert forall a :: a in p' ==> a in p;
    CancelHead(p[0], multiset(p'), multiset(r), multiset(y'));
  }

  lemma CancelHead(g: int, p: multiset<int>, r: multiset<int>, y: multiset<int>)
    requires multiset{g} + y == multiset{g} + p + r
    ensures y == p + r
  {
    forall h
      ensures y[h] == (p + r)[h]
    {
      assert (multiset{g} + y)[h] == (multiset{g} + p + r)[h];
    }
  }

  /** The grade at a position, with nothing below zero. */
  function GradeAt(ranked: seq<ID>, rel: Judgments, i: nat): int {
    if i < |ranked| && Grade(rel, ranked[i]) > 0 then Grade(rel, ranked[i]) else 0
  }

  /** `q` is where the ranking starts, falling and relevant, and then nothing is. */
  ghost predicate Leads(ranked: seq<ID>, rel: Judgments, q: seq<ID>, n: nat) {
    && |q| <= n && |q| <= |ranked|
    && (forall i :: 0 <= i < |q| ==> q[i] == ranked[i] && Grade(rel, q[i]) > 0)
    && (forall i :: |q| <= i < n ==> GradeAt(ranked, rel, i) == 0)
  }

  /** In a perfect ranking the relevant ones come first. */
  lemma {:induction false} PerfectFront(ranked: seq<ID>, rel: Judgments, k: nat, n: nat)
    requires IsPerfect(ranked, rel, k) && n <= k
    ensures Leads(ranked, rel, Relevant(ranked, rel, n), n)
  {
    if n == 0 {
    } else {
      PerfectFront(ranked, rel, k, n - 1);
      var q := Relevant(ranked, rel, n - 1);
      if n <= |ranked| && Grade(rel, ranked[n - 1]) > 0 {
        NoGapBefore(ranked, rel, k, n - 1);
        LeadsAll(ranked, rel, q, n - 1);
        LeadsMore(ranked, rel, q, n - 1);
      } else {
        LeadsSame(ranked, rel, q, n - 1);
        assert Relevant(ranked, rel, n) == q;
      }
      hide Leads, IsPerfect;
    }
  }

  lemma NoGapBefore(ranked: seq<ID>, rel: Judgments, k: nat, n: nat)
    requires IsPerfect(ranked, rel, k) && n < k && n < |ranked| && Grade(rel, ranked[n]) > 0
    ensures forall i :: 0 <= i < n ==> GradeAt(ranked, rel, i) > 0
  {
  }

  lemma LeadsMore(ranked: seq<ID>, rel: Judgments, q: seq<ID>, n: nat)
    requires Leads(ranked, rel, q, n) && |q| == n < |ranked| && Grade(rel, ranked[n]) > 0
    ensures Leads(ranked, rel, q + [ranked[n]], n + 1)
  {
  }

  lemma LeadsSame(ranked: seq<ID>, rel: Judgments, q: seq<ID>, n: nat)
    requires Leads(ranked, rel, q, n) && GradeAt(ranked, rel, n) == 0
    ensures Leads(ranked, rel, q, n + 1)
  {
  }

  lemma LeadsAll(ranked: seq<ID>, rel: Judgments, q: seq<ID>, n: nat)
    requires Leads(ranked, rel, q, n) && forall i :: 0 <= i < n ==> GradeAt(ranked, rel, i) > 0
    ensures |q| == n
  {
    var next := GradeAt(ranked, rel, |q|);
  }

  lemma PerfectFalls(ranked: seq<ID>, rel: Judgments, k: nat)
    requires IsPerfect(ranked, rel, k)
    ensures Falling(GradesOf(rel, Relevant(ranked, rel, k)))
  {
    PerfectFront(ranked, rel, k, k);
    var q := Relevant(ranked, rel, k);
    forall i, j | 0 <= i < j < |q|
      ensures Grade(rel, q[i]) >= Grade(rel, q[j])
    {
      assert q[i] == ranked[i] && q[j] == ranked[j];
    }
  }

  lemma PerfectIsIdeal(ranked: seq<ID>, rel: Judgments, grades: seq<int>, k: nat)
    requires Sorting.NoRepeats(ranked) && IsIdeal(rel, grades) && IsPerfect(ranked, rel, k)
    ensures RankedGains(ranked, rel, k) == IdealGains(grades, k)
  {
    hide Gain, Falling, IsPerfect;
    var q := Relevant(ranked, rel, k);
    var rest := RelevantIsPart(ranked, rel, grades, k);
    PerfectFront(ranked, rel, k, k);
    PerfectFalls(ranked, rel, k);
    RelevantMembers(ranked, rel, k);
    var p, r := GradesOf(rel, q), GradesOf(rel, rest);
    forall a, b | a in p && b in r
      ensures b <= a && |q| == k
    {
      var i :| 0 <= i < |p| && p[i] == a;
      var j :| 0 <= j < |r| && r[j] == b;
      NotAmong(ranked, rel, k, rest[j]);
      LeftOutFills(ranked, rel, k, rest[j]);
    }
    FrontOfFalling(p, r, grades);
    assert |multiset(grades)| == |grades| == |p| + |r|;
    if rest != [] {
      NotAmong(ranked, rel, k, rest[0]);
      LeftOutFills(ranked, rel, k, rest[0]);
    }
    forall i | 0 <= i < k
      ensures RankedGains(ranked, rel, k)[i] == IdealGains(grades, k)[i]
    {
      if i < |q| {
        assert grades[i] == p[i];
      } else {
        NoGain(ranked, rel, i);
      }
    }
  }

  lemma NoGain(ranked: seq<ID>, rel: Judgments, i: nat)
    requires GradeAt(ranked, rel, i) == 0
    ensures i < |ranked| ==> Gain(Grade(rel, ranked[i])) == 0.0
  {
  }

  lemma NotAmong(ranked: seq<ID>, rel: Judgments, k: nat, id: ID)
    requires Sorting.NoRepeats(ranked) && id in rel && rel[id] > 0
    ensures Among(ranked, k, id) <==> id in Relevant(ranked, rel, k)
  {
    RelevantMembers(ranked, rel, k);
  }

  /** A relevant entry left out of a perfect ranking leaves no position irrelevant. */
  lemma LeftOutFills(ranked: seq<ID>, rel: Judgments, k: nat, id: ID)
    requires IsPerfect(ranked, rel, k) && id in rel && rel[id] > 0 && !Among(ranked, k, id)
    ensures |Relevant(ranked, rel, k)| == k <= |ranked|
    ensures forall i :: 0 <= i < k ==> rel[id] <= Grade(rel, ranked[i])
  {
    PerfectFront(ranked, rel, k, k);
    var q := Relevant(ranked, rel, k);
    assert forall i :: 0 <= i < k ==> GradeAt(ranked, rel, i) > 0;
  }

  /** Conversely, only a perfect ranking has the ideal gains. */
  lemma IdealIsPerfect(ranked: seq<ID>, rel: Judgments, grades: seq<int>, k: nat)
    requires Sorting.NoRepeats(ranked) && IsIdeal(rel, grades)
    requires RankedGains(ranked, rel, k) == IdealGains(grades, k)
    ensures IsPerfect(ranked, rel, k)
  {
    forall i, j | 0 <= i < j < k && j < |ranked| && Grade(rel, ranked[j]) > 0
      ensures Grade(rel, ranked[i]) >= Grade(rel, ranked[j])
    {
      IdealFalls(grades, k, i, j);
      assert RankedGains(ranked, rel, k)[i] == Gain(Grade(rel, ranked[i]));
      assert RankedGains(ranked, rel, k)[j] == Gain(Grade(rel, ranked[j]));
      GainGrows(Grade(rel, ranked[i]), Grade(rel, ranked[j]));
    }
    forall id | id in rel && rel[id] > 0 && !Among(ranked, k, id)
      ensures k <= |ranked| && forall i :: 0 <= i < k ==> rel[id] <= Grade(rel, ranked[i])
    {
      NoBetterLeftOut(ranked, rel, grades, k, id);
    }
  }

  lemma IdealFalls(grades: seq<int>, k: nat, i: nat, j: nat)
    requires Falling(grades) && i < j < k
    ensures IdealGains(grades, k)[i] >= IdealGains(grades, k)[j]
  {
    if i < |grades| {
      GainGrows(grades[i], if j < |grades| then grades[j] else 0);
    }
  }

  /** The sums of an ideal ranking leave no room for an exchange. */
  lemma NoBetterLeftOut(ranked: seq<ID>, rel: Judgments, grades: seq<int>, k: nat, id: ID)
    requires Sorting.NoRepeats(ranked) && IsIdeal(rel, grades)
    requires RankedGains(ranked, rel, k) == IdealGains(grades, k)
    requires id in rel && rel[id] > 0 && !Among(ranked, k, id)
    ensures k <= |ranked| && forall i :: 0 <= i < k ==> rel[id] <= Grade(rel, ranked[i])
  {
    hide SumGains, Sum, Gain, RankedGains, IdealGains;
    var q, g := Relevant(ranked, rel, k), rel[id];
    var p := GradesOf(rel, q);
    var rest := RelevantIsPart(ranked, rel, grades, k);
    RelevantMembers(ranked, rel, k);
    NotAmong(ranked, rel, k, id);
    SumRanked(ranked, rel, k);
    SumIdeal(grades, k);
    assert SumGains(p) == SumGains(grades[..Min(k, |grades|)]);
    assert id in rest;
    var r := GradesOf(rel, rest);
    var x :| 0 <= x < |rest| && rest[x] == id;
    assert r[x] == g;
    assert g in multiset(r);
    OneMoreFits(p, r, grades, k, g);
    assert |q| == k;
    forall i | 0 <= i < k
      ensures g <= Grade(rel, ranked[i])
    {
      AllRelevant(ranked, rel, k, i);
      var j :| 0 <= j < |q| && q[j] == ranked[i];
      ExchangeFits(p, r, grades, j, g);
    }
  }

  lemma {:induction false} AllRelevant(ranked: seq<ID>, rel: Judgments, k: nat, i: nat)
    requires |Relevant(ranked, rel, k)| == k && i < k
    ensures k <= |ranked| && ranked[i] in Relevant(ranked, rel, k)
  {
    AtMost(ranked, rel, k - 1);
    if i < k - 1 {
      AllRelevant(ranked, rel, k - 1, i);
    }
  }

  lemma {:induction false} AtMost(ranked: seq<ID>, rel: Judgments, k: nat)
    ensures |Relevant(ranked, rel, k)| <= k
  {
    if k > 0 {
      AtMost(ranked, rel, k - 1);
    }
  }

  /** With a position to spare, one more relevant grade would raise the sum. */
  lemma OneMoreFits(p: seq<int>, r: seq<int>, y: seq<int>, k: nat, g: int)
    requires Falling(y) && multiset(y) == multiset(p) + multiset(r) && g in multiset(r) && g > 0
    requires |p| <= k && SumGains(p) == SumGains(y[..Min(k, |y|)])
    ensures |p| == k
  {
    hide SumGains, Gain, Falling;
    if |p| < k {
      MoreIsPart(p, r, y, g);
      TopSum(p + [g], y);
      SumGainsGrows(y, |p| + 1, Min(k, |y|));
      SumGainsConcat(p, [g]);
      SumGainsOne(g);
      GainGrows(0, g);
      NoGainAtZero();
    }
  }

  lemma NoGainAtZero()
    ensures Gain(0) == 0.0
  {
  }

  lemma MoreIsPart(p: seq<int>, r: seq<int>, y: seq<int>, g: int)
    requires multiset(y) == multiset(p) + multiset(r) && g in multiset(r)
    ensures multiset(p + [g]) <= multiset(y)
  {
    assert multiset(p + [g]) == multiset(p) + multiset{g};
  }

  lemma SwapIsPart(p: seq<int>, r: seq<int>, y: seq<int>, j: nat, g: int)
    requires multiset(y) == multiset(p) + multiset(r) && g in multiset(r) && j < |p|
    ensures multiset(Without(p, j) + [g]) <= multiset(y)
  {
    var p' := Without(p, j);
    WithoutMembers(p, j);
    hide Without;
    assert multiset(p' + [g]) == multiset(p') + multiset{g};
  }

  /** And exchanging a grade for a better one would, too. */
  lemma ExchangeFits(p: seq<int>, r: seq<int>, y: seq<int>, j: nat, g: int)
    requires Falling(y) && multiset(y) == multiset(p) + multiset(r) && g in multiset(r) && g > 0 && j < |p|
    requires |p| <= |y| ==> SumGains(p) == SumGains(y[..|p|])
    ensures g <= p[j]
  {
    hide SumGains, Gain, Falling;
    var p' := Without(p, j);
    SwapIsPart(p, r, y, j, g);
    TopSum(p' + [g], y);
    SumGainsConcat(p', [g]);
    SumGainsOne(g);
    SumGainsWithout(p, j);
    GainGrows(p[j], g);
  }

  // The metrics.

  function Depth(k: int): nat {
    if k < 0 then 0 else k
  }

  /** Positions beyond the ranking add nothing. */
  lemma {:induction false} DcgStopsAtEnd(ranked: seq<ID>, rel: Judgments, k: nat, d: nat -> real)
    ensures Dcg(RankedGains(ranked, rel, k), d) == Dcg(RankedGains(ranked, rel, Min(k, |ranked|)), d)
  {
    if k > |ranked| {
      assert RankedGains(ranked, rel, k)[..k - 1] == RankedGains(ranked, rel, k - 1);
      DcgStopsAtEnd(ranked, rel, k - 1, d);
    }
  }

  lemma {:induction false} IdealStopsAtEnd(grades: seq<int>, k: nat, d: nat -> real)
    ensures Dcg(IdealGains(grades, k), d) == Dcg(IdealGains(grades, Min(k, |grades|)), d)
  {
    if k > |grades| {
      assert IdealGains(grades, k)[..k - 1] == IdealGains(grades, k - 1);
      IdealStopsAtEnd(grades, k - 1, d);
    }
  }

  lemma NextPosition(ranked: seq<ID>, rel: Judgments, i: nat, d: nat -> real)
    requires i < |ranked|
    ensures Dcg(RankedGains(ranked, rel, i + 1), d)
         == Dcg(RankedGains(ranked, rel, i), d) + Gain(Grade(rel, ranked[i])) * d(i)
  {
    hide Gain, Grade;
    assert RankedGains(ranked, rel, i + 1)[..i] == RankedGains(ranked, rel, i);
  }

  lemma NextIdealPosition(grades: seq<int>, i: nat, d: nat -> real)
    requires i < |grades|
    ensures Dcg(IdealGains(grades, i + 1), d) == Dcg(IdealGains(grades, i), d) + Gain(grades[i]) * d(i)
  {
    hide Gain;
    assert IdealGains(grades, i + 1)[..i] == IdealGains(grades, i);
  }

  method DCGAtK(ranked: seq<ID>, rel: Judgments, k: int, d: nat -> real) returns (dcg: real)
    ensures dcg == Dcg(RankedGains(ranked, rel, Depth(k)), d)
  {
    hide Gain, Grade, RankedGains;
    var n := if k > |ranked| then |ranked| else k;
    dcg := 0.0;
    assert RankedGains(ranked, rel, 0) == [];
    if n > 0 {
      for i := 0 to n
        invariant dcg == Dcg(RankedGains(ranked, rel, i), d)
      {
        NextPosition(ranked, rel, i, d);
        dcg := dcg + Gain(Grade(rel, ranked[i])) * d(i);
      }
    }
    DcgStopsAtEnd(ranked, rel, Depth(k), d);
  }

  /** Collects the positive grades from the map in any order. */
  method PositiveGrades(rel: Judgments) returns (grades: seq<int>, ghost ids: seq<ID>)
    ensures IsRelevantSet(rel, ids) && grades == GradesOf(rel, ids)
  {
    grades, ids := [], [];
    var keys := rel.Keys;
    while keys != {}
      invariant keys <= rel.Keys
      invariant grades == GradesOf(rel, ids)
      invariant Sorting.NoRepeats(ids) && forall id :: id in ids <==> id in rel && id !in keys && rel[id] > 0
      decreases keys
    {
      var id :| id in keys;
      if rel[id] > 0 {
        assert GradesOf(rel, ids + [id]) == GradesOf(rel, ids) + [rel[id]];
        grades, ids := grades + [rel[id]], ids + [id];
      }
      keys := keys - {id};
    }
  }

  function Descending(): (int, int) -> bool {
    (a, b) => a > b
  }

  lemma SortedIsIdeal(rel: Judgments, ids: seq<ID>, collected: seq<int>, sorted: seq<int>)
    requires IsRelevantSet(rel, ids) && collected == GradesOf(rel, ids)
    requires multiset(sorted) == multiset(collected) && Sorting.InOrder(sorted, Descending())
    ensures IsIdeal(rel, sorted)
  {
    forall i, j | 0 <= i < j < |sorted|
      ensures sorted[i] >= sorted[j]
    {
      assert !Descending()(sorted[j], sorted[i]);
    }
  }

  method IDCGAtK(rel: Judgments, k: int, d: nat -> real) returns (idcg: real)
    ensures exists grades :: IsIdeal(rel, grades) && idcg == Dcg(IdealGains(grades, Depth(k)), d)
  {
    hide Gain, Grade, GradesOf, IsIdeal, IsRelevantSet, IdealGains, Sorting.InOrder;
    var collected, ids := PositiveGrades(rel);
    var sorted := Sorting.SortSlice(collected, Descending());
    SortedIsIdeal(rel, ids, collected, sorted);
    var n := if k > |sorted| then |sorted| else k;
    idcg := 0.0;
    assert IdealGains(sorted, 0) == [];
    if n > 0 {
      for i := 0 to n
        invariant idcg == Dcg(IdealGains(sorted, i), d)
      {
        NextIdealPosition(sorted, i, d);
        idcg := idcg + Gain(sorted[i]) * d(i);
      }
    }
    IdealStopsAtEnd(sorted, Depth(k), d);
  }

  ghost predicate HasRelevant(rel: Judgments) {
    exists id :: id in rel && rel[id] > 0
  }

  method NDCGAtK(ranked: seq<ID>, rel: Judgments, k: int, d: nat -> real) returns (ndcg: real)
    requires IsDiscount(d)
    ensures Sorting.NoRepeats(ranked) ==> 0.0 <= ndcg <= 1.0
    ensures !(HasRelevant(rel) && k >= 1) ==> ndcg == 0.0
    ensures Sorting.NoRepeats(ranked) ==>
      (ndcg == 1.0 <==> HasRelevant(rel) && k >= 1 && IsPerfect(ranked, rel, Depth(k)))
    ensures HasRelevant(rel) && k >= 1 ==> exists grades ::
      && IsIdeal(rel, grades)
      && ndcg * Dcg(IdealGains(grades, k), d) == Dcg(RankedGains(ranked, rel, k), d)
  {
    hide Dcg, IdealGains, RankedGains, IsDiscount, IsIdeal, IsPerfect, HasRelevant, Sorting.NoRepeats;
    var ideal := IDCGAtK(rel, k, d);
    ghost var grades :| IsIdeal(rel, grades) && ideal == Dcg(IdealGains(grades, Depth(k)), d);
    IdealIsPositive(rel, grades, Depth(k), d);
    if ideal == 0.0 {
      return 0.0;
    }
    var dcg := DCGAtK(ranked, rel, k, d);
    if Sorting.NoRepeats(ranked) {
      Normalised(ranked, rel, grades, Depth(k), d, dcg, ideal);
    }
    Restores(dcg, ideal);
    return dcg / ideal;
  }

  lemma Restores(x: real, y: real)
    requires y != 0.0
    ensures x / y * y == x
  {
  }

  lemma {:induction false} DcgNonNegative(gains: seq<real>, d: nat -> real)
    requires IsDiscount(d) && forall i :: 0 <= i < |gains| ==> gains[i] >= 0.0
    ensures Dcg(gains, d) >= 0.0
    ensures gains != [] && gains[0] > 0.0 ==> Dcg(gains, d) > 0.0
  {
    if gains != [] {
      var n := |gains| - 1;
      DcgNonNegative(gains[..n], d);
      Product(d(n), gains[n]);
      assert Scaled(gains[n], d(n)) == d(n) * gains[n];
    }
  }

  lemma IdealIsPositive(rel: Judgments, grades: seq<int>, k: nat, d: nat -> real)
    requires IsIdeal(rel, grades) && IsDiscount(d)
    ensures Dcg(IdealGains(grades, k), d) >= 0.0
    ensures Dcg(IdealGains(grades, k), d) > 0.0 <==> k >= 1 && HasRelevant(rel)
  {
    var ids :| IsRelevantSet(rel, ids) && multiset(grades) == multiset(GradesOf(rel, ids));
    Sorting.SameMembers(grades, GradesOf(rel, ids));
    assert HasRelevant(rel) <==> ids != [] by {
      if ids != [] {
        assert ids[0] in ids;
      }
    }
    forall i | 0 <= i < k
      ensures IdealGains(grades, k)[i] >= 0.0
      ensures i < |grades| ==> IdealGains(grades, k)[i] > 0.0
    {
      if i < |grades| {
        assert grades[i] in grades;
        var j :| 0 <= j < |ids| && GradesOf(rel, ids)[j] == grades[i];
        assert ids[j] in ids;
        GainGrows(0, grades[i]);
      }
    }
    DcgNonNegative(IdealGains(grades, k), d);
    if k == 0 || grades == [] {
      IdealStopsAtEnd(grades, k, d);
    }
  }

  lemma Normalised(ranked: seq<ID>, rel: Judgments, grades: seq<int>, k: nat, d: nat -> real, dcg: real, ideal: real)
    requires Sorting.NoRepeats(ranked) && IsIdeal(rel, grades) && IsDiscount(d)
    requires dcg == Dcg(RankedGains(ranked, rel, k), d) && ideal == Dcg(IdealGains(grades, k), d) && ideal > 0.0
    ensures 0.0 <= dcg / ideal
    ensures dcg / ideal <= 1.0
    ensures dcg / ideal == 1.0 <==> IsPerfect(ranked, rel, k)
  {
    RankedIsDominated(ranked, rel, grades, k);
    DominatedDcg(RankedGains(ranked, rel, k), IdealGains(grades, k), d);
    forall i | 0 <= i < k
      ensures RankedGains(ranked, rel, k)[i] >= 0.0
    {
      if i < |ranked| {
        GainGrows(Grade(rel, ranked[i]), 0);
      }
    }
    DcgNonNegative(RankedGains(ranked, rel, k), d);
    if IsPerfect(ranked, rel, k) {
      PerfectIsIdeal(ranked, rel, grades, k);
    } else if RankedGains(ranked, rel, k) == IdealGains(grades, k) {
      IdealIsPerfect(ranked, rel, grades, k);
    }
    hide IsPerfect, Dcg, RankedGains, IdealGains;
    Quotient(dcg, ideal);
  }

  lemma Quotient(x: real, y: real)
    requires 0.0 <= x <= y && y > 0.0
    ensures 0.0 <= x / y
    ensures x / y <= 1.0
    ensures x / y == 1.0 <==> x == y
  {
  }
}
