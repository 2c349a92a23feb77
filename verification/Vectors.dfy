/** Distances between embeddings (`storage/sqlite/vec.go`) and the scores made of them
    (`query/query.go`), over the reals; the square root is any function that is one. */
module Vectors {
  type Vector = seq<real>

  ghost predicate IsSqrt(sqrt: real -> real) {
    forall x :: x >= 0.0 ==> sqrt(x) >= 0.0 && sqrt(x) * sqrt(x) == x
  }

  function Dot(a: Vector, b: Vector): real
    requires |a| == |b|
  {
    if a == [] then 0.0
    else
      var n := |a| - 1;
      Dot(a[..n], b[..n]) + a[n] * b[n]
  }

  /** `s * a + t * b`. */
  function Combine(s: real, a: Vector, t: real, b: Vector): (c: Vector)
    requires |a| == |b|
    ensures |c| == |a| && forall i :: 0 <= i < |a| ==> c[i] == s * a[i] + t * b[i]
  {
    seq(|a|, i requires 0 <= i < |a| => s * a[i] + t * b[i])
  }

  function Difference(a: Vector, b: Vector): Vector
    requires |a| == |b|
  {
    Combine(1.0, a, -1.0, b)
  }

  // Algebra of the dot product.

  lemma {:induction false} DotCommutes(a: Vector, b: Vector)
    requires |a| == |b|
    ensures Dot(a, b) == Dot(b, a)
  {
    if a != [] {
      DotCommutes(a[..|a| - 1], b[..|a| - 1]);
    }
  }

  lemma {:induction false} DotCombine(s: real, a: Vector, t: real, b: Vector, c: Vector)
    requires |a| == |b| == |c|
    ensures Dot(Combine(s, a, t, b), c) == s * Dot(a, c) + t * Dot(b, c)
  {
    hide Combine;
    if a != [] {
      var n := |a| - 1;
      CombineFront(s, a, t, b);
      DotCombine(s, a[..n], t, b[..n], c[..n]);
      Distribute(s, Dot(a[..n], c[..n]), a[n], t, Dot(b[..n], c[..n]), b[n], c[n]);
    }
  }

  lemma CombineFront(s: real, a: Vector, t: real, b: Vector)
    requires |a| == |b| > 0
    ensures var n := |a| - 1; Combine(s, a, t, b)[..n] == Combine(s, a[..n], t, b[..n])
  {
    var n := |a| - 1;
    var c, c' := Combine(s, a, t, b), Combine(s, a[..n], t, b[..n]);
    forall i | 0 <= i < n
      ensures c[i] == c'[i]
    {
      assert a[..n][i] == a[i] && b[..n][i] == b[i];
    }
  }

  lemma Distribute(s: real, x: real, a: real, t: real, y: real, b: real, c: real)
    ensures s * x + t * y + (s * a + t * b) * c == s * (x + a * c) + t * (y + b * c)
  {
  }

  ghost predicate IsZero(a: Vector) {
    forall i :: 0 <= i < |a| ==> a[i] == 0.0
  }

  lemma {:induction false} SquareIsZero(a: Vector)
    ensures Dot(a, a) >= 0.0
    ensures Dot(a, a) == 0.0 <==> IsZero(a)
  {
    if a != [] {
      var n := |a| - 1;
      SquareIsZero(a[..n]);
      RealSquare(a[n]);
      if forall i :: 0 <= i < n ==> a[..n][i] == 0.0 {
        assert forall i :: 0 <= i < n ==> a[i] == 0.0;
      } else {
        assert exists i :: 0 <= i < n && a[i] != 0.0;
      }
    }
  }

  lemma RealSquare(x: real)
    ensures x * x >= 0.0
    ensures x * x == 0.0 <==> x == 0.0
  {
    if x > 0.0 {
      Sign(x, x);
    } else if x < 0.0 {
      Sign(-x, -x);
    }
  }

  lemma Sign(x: real, d: real)
    requires d > 0.0
    ensures x * d > 0.0 <==> x > 0.0
    ensures x * d < 0.0 <==> x < 0.0
    ensures x * d == 0.0 <==> x == 0.0
  {
  }

  /** The squared length of a combination. */
  lemma SquareOfCombine(s: real, a: Vector, t: real, b: Vector)
    requires |a| == |b|
    ensures var c := Combine(s, a, t, b);
      Dot(c, c) == s * (s * Dot(a, a) + t * Dot(a, b)) + t * (s * Dot(a, b) + t * Dot(b, b))
  {
    hide Dot, Combine;
    var c := Combine(s, a, t, b);
    DotCombine(s, a, t, b, c);
    DotCommutes(a, c);
    DotCommutes(b, c);
    DotCommutes(a, b);
    DotCombine(s, a, t, b, a);
    DotCombine(s, a, t, b, b);
  }

  /** `t` times `b` is `s` times `a`, at every position. */
  ghost predicate Proportional(s: real, a: Vector, t: real, b: Vector)
    requires |a| == |b|
  {
    forall i :: 0 <= i < |a| ==> s * a[i] == t * b[i]
  }

  /** Cauchy-Schwarz, and when it is an equality. */
  lemma CauchySchwarz(a: Vector, b: Vector)
    requires |a| == |b|
    ensures Dot(a, b) * Dot(a, b) <= Dot(a, a) * Dot(b, b)
    ensures Dot(b, b) > 0.0 ==>
      (Dot(a, b) * Dot(a, b) == Dot(a, a) * Dot(b, b) <==> Proportional(Dot(b, b), a, Dot(a, b), b))
  {
    hide Dot, Combine;
    var dot, na, nb := Dot(a, b), Dot(a, a), Dot(b, b);
    SquareIsZero(b);
    if nb == 0.0 {
      DotWithZero(a, b);
    } else {
      var c := Combine(nb, a, -dot, b);
      SquareOfCombine(nb, a, -dot, b);
      SquareIsZero(c);
      Discriminant(dot, na, nb, Dot(c, c));
      CombineIsZero(nb, a, dot, b);
    }
  }

  lemma {:induction false} DotWithZero(a: Vector, b: Vector)
    requires |a| == |b| && IsZero(b)
    ensures Dot(a, b) == 0.0
  {
    if a != [] {
      DotWithZero(a[..|a| - 1], b[..|a| - 1]);
    }
  }

  lemma Discriminant(dot: real, na: real, nb: real, square: real)
    requires nb > 0.0 && square >= 0.0
    requires square == nb * (nb * na + -dot * dot) + -dot * (nb * dot + -dot * nb)
    ensures dot * dot <= na * nb
    ensures dot * dot == na * nb <==> square == 0.0
  {
    assert square == nb * (na * nb - dot * dot);
  }

  lemma CombineIsZero(s: real, a: Vector, t: real, b: Vector)
    requires |a| == |b|
    ensures Proportional(s, a, t, b) <==> IsZero(Combine(s, a, -t, b))
  {
    var c := Combine(s, a, -t, b);
    forall i | 0 <= i < |a|
      ensures c[i] == 0.0 <==> s * a[i] == t * b[i]
    {
      assert c[i] == s * a[i] + -t * b[i];
    }
  }

  // Cosine distance.

  function CosineOf(a: Vector, b: Vector, sqrt: real -> real): real
    requires |a| == |b|
  {
    FromNorms(Dot(a, b), sqrt(Dot(a, a)), sqrt(Dot(b, b)))
  }

  function FromNorms(dot: real, x: real, y: real): real {
    if x * y == 0.0 then 2.0 else 1.0 - dot / (x * y)
  }

  lemma NextComponent(a: Vector, b: Vector, i: nat)
    requires |a| <= |b| && i < |a|
    ensures Dot(a[..i + 1], b[..i + 1]) == Dot(a[..i], b[..i]) + a[i] * b[i]
  {
    assert a[..i + 1][..i] == a[..i] && b[..i + 1][..i] == b[..i];
  }

  method CosineDistance(a: Vector, b: Vector, sqrt: real -> real) returns (distance: real)
    requires |a| <= |b|
    ensures distance == CosineOf(a, b[..|a|], sqrt)
  {
    var dot, normA, normB := 0.0, 0.0, 0.0;
    for i := 0 to |a|
      invariant dot == Dot(a[..i], b[..i])
      invariant normA == Dot(a[..i], a[..i])
      invariant normB == Dot(b[..i], b[..i])
    {
      NextComponent(a, b, i);
      NextComponent(a, a, i);
      NextComponent(b[..|a|], b[..|a|], i);
      assert b[..|a|][..i] == b[..i] && b[..|a|][..i + 1] == b[..i + 1];
      dot := dot + a[i] * b[i];
      normA := normA + a[i] * a[i];
      normB := normB + b[i] * b[i];
    }
    assert a[..|a|] == a;
    var denominator := sqrt(normA) * sqrt(normB);
    if denominator == 0.0 {
      return 2.0;
    }
    return 1.0 - dot / denominator;
  }

  /** `a` and `b` point the same way, or, with a negative factor, opposite ways. */
  ghost predicate Along(a: Vector, b: Vector, positive: bool)
    requires |a| == |b|
  {
    exists f :: (if positive then f > 0.0 else f < 0.0) && IsMultiple(a, f, b)
  }

  ghost predicate IsMultiple(a: Vector, f: real, b: Vector)
    requires |a| == |b|
  {
    forall i :: 0 <= i < |a| ==> a[i] == f * b[i]
  }

  /** Cosine distance is symmetric and lies between 0 and 2; it is 0 exactly between vectors
      that point the same way, and 2 exactly when they point opposite ways or one is zero. */
  lemma CosineLaws(a: Vector, b: Vector, sqrt: real -> real)
    requires IsSqrt(sqrt) && |a| == |b|
    ensures CosineOf(a, b, sqrt) == CosineOf(b, a, sqrt)
    ensures CosineOf(a, b, sqrt) >= 0.0
    ensures CosineOf(a, b, sqrt) <= 2.0
    ensures CosineOf(a, b, sqrt) == 0.0 <==> !IsZero(a) && !IsZero(b) && Along(a, b, true)
    ensures CosineOf(a, b, sqrt) == 2.0 <==> IsZero(a) || IsZero(b) || Along(a, b, false)
  {
    hide Dot, IsSqrt, Along, IsZero, Proportional, FromNorms;
    var dot, na, nb := Dot(a, b), Dot(a, a), Dot(b, b);
    DotCommutes(a, b);
    NormIsZero(a, sqrt);
    NormIsZero(b, sqrt);
    CauchySchwarz(a, b);
    SqrtAt(sqrt, na);
    SqrtAt(sqrt, nb);
    if sqrt(na) != 0.0 && sqrt(nb) != 0.0 {
      Ratio(dot, sqrt(na), sqrt(nb), na, nb);
      Directions(a, b);
    } else {
      NoNorm(dot, sqrt(na), sqrt(nb));
    }
    NormsCommute(dot, sqrt(na), sqrt(nb));
  }

  lemma ZeroProduct(x: real, y: real)
    ensures x * y == 0.0 <==> x == 0.0 || y == 0.0
  {
  }

  lemma NoNorm(dot: real, x: real, y: real)
    requires x == 0.0 || y == 0.0
    ensures FromNorms(dot, x, y) == 2.0
  {
  }

  lemma NormsCommute(dot: real, x: real, y: real)
    ensures FromNorms(dot, x, y) == FromNorms(dot, y, x)
  {
  }

  lemma SqrtAt(sqrt: real -> real, x: real)
    requires IsSqrt(sqrt) && x >= 0.0
    ensures sqrt(x) >= 0.0
    ensures sqrt(x) * sqrt(x) == x
  {
  }

  lemma NormIsZero(a: Vector, sqrt: real -> real)
    requires IsSqrt(sqrt)
    ensures Dot(a, a) >= 0.0
    ensures sqrt(Dot(a, a)) == 0.0 <==> IsZero(a)
    ensures Dot(a, a) == 0.0 <==> IsZero(a)
  {
    SquareIsZero(a);
    SqrtAt(sqrt, Dot(a, a));
    RealSquare(sqrt(Dot(a, a)));
  }

  lemma Ratio(dot: real, ra: real, rb: real, na: real, nb: real)
    requires ra > 0.0 && rb > 0.0 && ra * ra == na && rb * rb == nb && dot * dot <= na * nb
    ensures FromNorms(dot, ra, rb) >= 0.0
    ensures FromNorms(dot, ra, rb) <= 2.0
    ensures FromNorms(dot, ra, rb) == 0.0 <==> dot > 0.0 && dot * dot == na * nb
    ensures FromNorms(dot, ra, rb) == 2.0 <==> dot < 0.0 && dot * dot == na * nb
  {
    var d := ra * rb;
    Sign(ra, rb);
    assert d * d == na * nb by {
      assert d * d == (ra * ra) * (rb * rb);
    }
    var q := dot / d;
    assert q * d == dot;
    Bounds(q, d, dot);
  }

  lemma Bounds(q: real, d: real, dot: real)
    requires d > 0.0 && q * d == dot && dot * dot <= d * d
    ensures -1.0 <= q
    ensures q <= 1.0
    ensures q == 1.0 <==> dot > 0.0 && dot * dot == d * d
    ensures q == -1.0 <==> dot < 0.0 && dot * dot == d * d
  {
    RootsOrdered(dot, d);
    RootsOrdered(-dot, d);
    assert (q - 1.0) * d == dot - d;
    assert (q + 1.0) * d == dot + d;
    Sign(q - 1.0, d);
    Sign(q + 1.0, d);
    assert (d - dot) * (d + dot) == d * d - dot * dot;
    ZeroProduct(d - dot, d + dot);
  }

  lemma Directions(a: Vector, b: Vector)
    requires |a| == |b| && !IsZero(a) && Dot(b, b) > 0.0
    ensures Along(a, b, true) <==> Dot(a, b) > 0.0 && Proportional(Dot(b, b), a, Dot(a, b), b)
    ensures Along(a, b, false) <==> Dot(a, b) < 0.0 && Proportional(Dot(b, b), a, Dot(a, b), b)
  {
    hide Dot;
    var dot, nb := Dot(a, b), Dot(b, b);
    if Proportional(nb, a, dot, b) {
      var f := dot / nb;
      forall i | 0 <= i < |a|
        ensures a[i] == f * b[i]
      {
        Divide(nb, a[i], dot, b[i]);
      }
      assert IsMultiple(a, f, b);
      QuotientSign(dot, nb);
      assert dot == 0.0 ==> IsZero(a);
    }
    forall f | IsMultiple(a, f, b)
      ensures dot == f * nb && Proportional(nb, a, dot, b)
    {
      DotMultiple(a, f, b);
      forall i | 0 <= i < |a|
        ensures nb * a[i] == dot * b[i]
      {
        Regroup(nb, f, b[i]);
      }
    }
    forall f | IsMultiple(a, f, b)
      ensures (f > 0.0 ==> dot > 0.0) && (f < 0.0 ==> dot < 0.0)
    {
      FactorSign(f, nb);
    }
  }

  lemma Divide(n: real, x: real, d: real, y: real)
    requires n > 0.0 && n * x == d * y
    ensures x == d / n * y
  {
    assert d / n * n == d;
    assert n * (x - d / n * y) == n * x - (d / n * n) * y;
    ZeroProduct(n, x - d / n * y);
  }

  lemma QuotientSign(x: real, y: real)
    requires y > 0.0
    ensures x > 0.0 <==> x / y > 0.0
    ensures x < 0.0 <==> x / y < 0.0
    ensures x == 0.0 ==> x / y == 0.0
  {
  }

  lemma FactorSign(f: real, n: real)
    requires n > 0.0
    ensures f > 0.0 ==> f * n > 0.0
    ensures f < 0.0 ==> f * n < 0.0
  {
  }

  lemma Regroup(n: real, f: real, x: real)
    ensures n * (f * x) == f * n * x
  {
  }

  lemma DotMultiple(a: Vector, f: real, b: Vector)
    requires |a| == |b| && IsMultiple(a, f, b)
    ensures Dot(a, b) == f * Dot(b, b)
  {
    var c := Combine(f, b, 0.0, b);
    assert forall i :: 0 <= i < |a| ==> c[i] == f * b[i] + 0.0 * b[i];
    assert a == c;
    DotCombine(f, b, 0.0, b, b);
  }

  // Euclidean distance.

  function EuclideanOf(a: Vector, b: Vector, sqrt: real -> real): real
    requires |a| == |b|
  {
    sqrt(Dot(Difference(a, b), Difference(a, b)))
  }

  lemma NextDifference(a: Vector, b: Vector, i: nat)
    requires |a| <= |b| && i < |a|
    ensures var d, d' := Difference(a[..i], b[..i]), Difference(a[..i + 1], b[..i + 1]);
      Dot(d', d') == Dot(d, d) + (a[i] - b[i]) * (a[i] - b[i])
  {
    var d, d' := Difference(a[..i], b[..i]), Difference(a[..i + 1], b[..i + 1]);
    assert d'[..i] == d && d'[i] == a[i] - b[i];
  }

  method L2Distance(a: Vector, b: Vector, sqrt: real -> real) returns (distance: real)
    requires |a| <= |b|
    ensures distance == EuclideanOf(a, b[..|a|], sqrt)
  {
    hide Difference, Dot;
    var sum := 0.0;
    EmptyDot(a, b);
    for i := 0 to |a|
      invariant sum == Dot(Difference(a[..i], b[..i]), Difference(a[..i], b[..i]))
    {
      NextDifference(a, b, i);
      var d := a[i] - b[i];
      sum := sum + d * d;
    }
    assert a[..|a|] == a;
    return sqrt(sum);
  }

  lemma EmptyDot(a: Vector, b: Vector)
    ensures Dot(Difference(a[..0], b[..0]), Difference(a[..0], b[..0])) == 0.0
  {
  }

  /** Euclidean distance is a metric. */
  lemma EuclideanIsMetric(a: Vector, b: Vector, c: Vector, sqrt: real -> real)
    requires IsSqrt(sqrt) && |a| == |b| == |c|
    ensures EuclideanOf(a, b, sqrt) == EuclideanOf(b, a, sqrt)
    ensures EuclideanOf(a, b, sqrt) >= 0.0
    ensures EuclideanOf(a, b, sqrt) == 0.0 <==> a == b
    ensures EuclideanOf(a, c, sqrt) <= EuclideanOf(a, b, sqrt) + EuclideanOf(b, c, sqrt)
  {
    hide Dot, Combine, Difference, IsZero, IsSqrt;
    var u, v := Difference(a, b), Difference(b, c);
    DifferenceReversed(a, b);
    SquareOfCombine(-1.0, u, 0.0, u);
    NormIsZero(u, sqrt);
    SqrtAt(sqrt, Dot(u, u));
    DifferencesAdd(a, b, c);
    Minkowski(u, v, sqrt);
  }

  lemma DifferenceReversed(a: Vector, b: Vector)
    requires |a| == |b|
    ensures Difference(b, a) == Combine(-1.0, Difference(a, b), 0.0, Difference(a, b))
    ensures |Difference(a, b)| == |a|
    ensures IsZero(Difference(a, b)) <==> a == b
  {
    var u, u' := Difference(a, b), Difference(b, a);
    assert forall i :: 0 <= i < |a| ==> u[i] == a[i] - b[i] && u'[i] == b[i] - a[i];
    assert u' == Combine(-1.0, u, 0.0, u);
  }

  lemma DifferencesAdd(a: Vector, b: Vector, c: Vector)
    requires |a| == |b| == |c|
    ensures |Difference(a, b)| == |Difference(b, c)|
    ensures Difference(a, c) == Combine(1.0, Difference(a, b), 1.0, Difference(b, c))
  {
    var u, v, w := Difference(a, b), Difference(b, c), Difference(a, c);
    assert forall i :: 0 <= i < |a| ==> u[i] == a[i] - b[i] && v[i] == b[i] - c[i] && w[i] == a[i] - c[i];
    assert w == Combine(1.0, u, 1.0, v);
  }

  lemma Minkowski(u: Vector, v: Vector, sqrt: real -> real)
    requires IsSqrt(sqrt) && |u| == |v|
    ensures var w := Combine(1.0, u, 1.0, v);
      sqrt(Dot(w, w)) <= sqrt(Dot(u, u)) + sqrt(Dot(v, v))
  {
    hide Dot, Combine, IsSqrt;
    var w := Combine(1.0, u, 1.0, v);
    SquareOfCombine(1.0, u, 1.0, v);
    CauchySchwarz(u, v);
    NormIsZero(u, sqrt);
    NormIsZero(v, sqrt);
    NormIsZero(w, sqrt);
    SqrtAt(sqrt, Dot(u, u));
    SqrtAt(sqrt, Dot(v, v));
    SqrtAt(sqrt, Dot(w, w));
    TriangleOfRoots(sqrt(Dot(u, u)), sqrt(Dot(v, v)), sqrt(Dot(w, w)), Dot(u, v));
  }

  lemma TriangleOfRoots(x: real, y: real, z: real, dot: real)
    requires x >= 0.0 && y >= 0.0 && z >= 0.0
    requires z * z == x * x + dot + (dot + y * y) && dot * dot <= (x * x) * (y * y)
    ensures z <= x + y
  {
    var p := x * y;
    NonNegative(x, y);
    assert p * p == (x * x) * (y * y);
    RootsOrdered(dot, p);
    assert (x + y) * (x + y) == x * x + 2.0 * p + y * y;
    RootsOrdered(z, x + y);
  }

  lemma NonNegative(x: real, y: real)
    requires x >= 0.0 && y >= 0.0
    ensures x * y >= 0.0
  {
  }

  lemma RootsOrdered(x: real, y: real)
    requires y >= 0.0 && x * x <= y * y
    ensures x <= y
  {
    assert (y - x) * (y + x) == y * y - x * x;
    if x > y {
      Sign(y - x, y + x);
    }
  }

  // Inner product.

  method InnerProductDistance(a: Vector, b: Vector) returns (distance: real)
    requires |a| <= |b|
    ensures distance == -Dot(a, b[..|a|])
  {
    var dot := 0.0;
    for i := 0 to |a|
      invariant dot == Dot(a[..i], b[..i])
    {
      NextComponent(a, b, i);
      dot := dot + a[i] * b[i];
    }
    assert a[..|a|] == a;
    return -dot;
  }

  // Scores.

  datatype Metric = Cosine | L2 | InnerProduct

  function DistanceOf(metric: Metric, a: Vector, b: Vector, sqrt: real -> real): real
    requires |a| == |b|
  {
    match metric
    case Cosine => CosineOf(a, b, sqrt)
    case L2 => EuclideanOf(a, b, sqrt)
    case InnerProduct => -Dot(a, b)
  }

  function Clamp(x: real): real {
    if x < 0.0 then 0.0 else if x > 1.0 then 1.0 else x
  }

  /** `1 - d/2` for cosine distances. */
  function CosineScore(distance: real): real {
    Clamp(1.0 - distance / 2.0)
  }

  /** On a cosine distance the clamp changes nothing, so that nearer means strictly better. */
  lemma CosineScoreIsExact(q: Vector, a: Vector, b: Vector, sqrt: real -> real)
    requires IsSqrt(sqrt) && |q| == |a| == |b|
    ensures CosineScore(CosineOf(q, a, sqrt)) == 1.0 - CosineOf(q, a, sqrt) / 2.0
    ensures CosineScore(CosineOf(q, a, sqrt)) > CosineScore(CosineOf(q, b, sqrt))
       <==> CosineOf(q, a, sqrt) < CosineOf(q, b, sqrt)
  {
    CosineLaws(q, a, sqrt);
    CosineLaws(q, b, sqrt);
  }
}
