/** Edit distance and the flag suggestion built on it (`cmd/add.go`). */
module EditDistance {

  /** `t` is `s` with a stretch `x` of at most one character replaced by another such
      stretch `y`: an insertion, a deletion or a substitution. */
  ghost predicate Splice(s: string, t: string, p: string, x: string, y: string, q: string) {
    s == p + x + q && t == p + y + q && |x| <= 1 && |y| <= 1 && |x| + |y| > 0
  }

  ghost predicate OneEdit(s: string, t: string) {
    exists p, x, y, q :: Splice(s, t, p, x, y, q)
  }

  /** `n` edits in a row turn `s` into `t`. */
  ghost predicate Edits(s: string, t: string, n: nat)
    decreases n
  {
    if n == 0 then s == t else exists c :: OneEdit(s, c) && Edits(c, t, n - 1)
  }

  /** `n` is the least number of edits that turns `s` into `t`. */
  ghost predicate IsEditDistance(s: string, t: string, n: nat) {
    Edits(s, t, n) && forall m: nat :: Edits(s, t, m) ==> n <= m
  }

  function Min3(a: int, b: int, c: int): (m: int)
    ensures m <= a && m <= b && m <= c && (m == a || m == b || m == c)
  {
    if a < b then
      if a < c then a else c
    else if b < c then b
    else c
  }

  function Front(s: string): string
    requires s != ""
  {
    s[..|s| - 1]
  }

  function Last(s: string): char
    requires s != ""
  {
    s[|s| - 1]
  }

  function Cost(a: char, b: char): nat {
    if a == b then 0 else 1
  }

  /** The table the two rows walk through, indexed by prefixes. */
  function Lev(a: string, b: string): nat
    decreases |a| + |b|
  {
    if a == "" then |b|
    else if b == "" then |a|
    else Min3(Lev(Front(a), b) + 1, Lev(a, Front(b)) + 1, Lev(Front(a), Front(b)) + Cost(Last(a), Last(b)))
  }

  // The table is no larger than the least number of edits.

  /** Changing the last character of the left string, or dropping or adding one. */
  lemma {:induction false} LevLastEdit(p: string, x: string, y: string, b: string)
    requires |x| <= 1 && |y| <= 1
    ensures Lev(p + x, b) <= Lev(p + y, b) + 1
    decreases |b|
  {
    assert x == "" ==> p + x == p;
    assert y == "" ==> p + y == p;
    assert x != "" ==> Front(p + x) == p;
    assert y != "" ==> Front(p + y) == p;
    if b != "" {
      LevLastEdit(p, x, y, Front(b));
    }
  }

  lemma {:induction false} LevOneEdit(s: string, t: string, p: string, x: string, y: string, q: string, b: string)
    requires Splice(s, t, p, x, y, q)
    ensures Lev(s, b) <= Lev(t, b) + 1
    decreases |q| + |b|
  {
    if q == "" {
      assert s == p + x && t == p + y;
      LevLastEdit(p, x, y, b);
    } else {
      assert Front(s) == p + x + Front(q) && Front(t) == p + y + Front(q);
      assert Last(s) == Last(q) == Last(t);
      LevOneEdit(Front(s), Front(t), p, x, y, Front(q), b);
      if b != "" {
        LevOneEdit(s, t, p, x, y, q, Front(b));
        LevOneEdit(Front(s), Front(t), p, x, y, Front(q), Front(b));
      }
    }
  }

  lemma {:induction false} LevSelf(s: string)
    ensures Lev(s, s) == 0
  {
    if s != "" {
      LevSelf(Front(s));
    }
  }

  lemma {:induction false} LevIsLowerBound(s: string, t: string, n: nat)
    requires Edits(s, t, n)
    ensures Lev(s, t) <= n
    decreases n
  {
    if n == 0 {
      LevSelf(s);
    } else {
      var c :| OneEdit(s, c) && Edits(c, t, n - 1);
      var p, x, y, q :| Splice(s, c, p, x, y, q);
      LevIsLowerBound(c, t, n - 1);
      LevOneEdit(s, c, p, x, y, q, t);
    }
  }

  // And that many edits are enough.

  lemma OneEditSuffix(s: string, t: string, z: string)
    requires OneEdit(s, t)
    ensures OneEdit(s + z, t + z)
  {
    var p, x, y, q :| Splice(s, t, p, x, y, q);
    assert s + z == p + x + (q + z) && t + z == p + y + (q + z);
    assert Splice(s + z, t + z, p, x, y, q + z);
  }

  lemma {:induction false} EditsSuffix(s: string, t: string, n: nat, z: string)
    requires Edits(s, t, n)
    ensures Edits(s + z, t + z, n)
    decreases n
  {
    hide OneEdit;
    if n > 0 {
      var c :| OneEdit(s, c) && Edits(c, t, n - 1);
      OneEditSuffix(s, c, z);
      EditsSuffix(c, t, n - 1, z);
      assert OneEdit(s + z, c + z) && Edits(c + z, t + z, n - 1);
    }
  }

  lemma {:induction false} EditsConcat(s: string, t: string, u: string, m: nat, n: nat)
    requires Edits(s, t, m) && Edits(t, u, n)
    ensures Edits(s, u, m + n)
    decreases m
  {
    if m > 0 {
      var c :| OneEdit(s, c) && Edits(c, t, m - 1);
      EditsConcat(c, t, u, m - 1, n);
    }
  }

  lemma OneEditIsEdits(s: string, t: string, p: string, x: string, y: string, q: string)
    requires Splice(s, t, p, x, y, q)
    ensures Edits(s, t, 1)
  {
    assert OneEdit(s, t) && Edits(t, t, 0);
  }

  lemma EditsNone(s: string)
    ensures Edits(s, s, 0)
  {
  }

  lemma DropLast(a: string, b: string, n: nat)
    requires a != "" && Edits(Front(a), b, n)
    ensures Edits(a, b, n + 1)
  {
    OneEditIsEdits(a, Front(a), Front(a), [Last(a)], "", "");
    EditsConcat(a, Front(a), b, 1, n);
  }

  lemma AddLast(a: string, b: string, n: nat)
    requires b != "" && Edits(a, Front(b), n)
    ensures Edits(a, b, n + 1)
  {
    OneEditIsEdits(Front(b), b, Front(b), "", [Last(b)], "");
    EditsConcat(a, Front(b), b, n, 1);
  }

  lemma MatchLast(a: string, b: string, n: nat)
    requires a != "" && b != "" && Edits(Front(a), Front(b), n)
    ensures Edits(a, b, n + Cost(Last(a), Last(b)))
  {
    var mid := Front(b) + [Last(a)];
    EditsSuffix(Front(a), Front(b), n, [Last(a)]);
    assert a == Front(a) + [Last(a)] && b == Front(b) + [Last(b)];
    if Last(a) != Last(b) {
      OneEditIsEdits(mid, b, Front(b), [Last(a)], [Last(b)], "");
      EditsConcat(a, mid, b, n, 1);
    }
  }

  lemma {:induction false} LevIsReached(a: string, b: string)
    ensures Edits(a, b, Lev(a, b))
    decreases |a| + |b|
  {
    EditsNone(a);
    hide Edits;
    if a != "" {
      LevIsReached(Front(a), b);
      DropLast(a, b, Lev(Front(a), b));
    }
    if b != "" {
      LevIsReached(a, Front(b));
      AddLast(a, b, Lev(a, Front(b)));
    }
    if a != "" && b != "" {
      LevIsReached(Front(a), Front(b));
      MatchLast(a, b, Lev(Front(a), Front(b)));
    }
    LevEdge(a, b);
    if a == "" && b != "" {
      LevEdge(a, Front(b));
    } else if b == "" && a != "" {
      LevEdge(Front(a), b);
    }
  }

  lemma LevIsEditDistance(a: string, b: string)
    ensures IsEditDistance(a, b, Lev(a, b))
  {
    LevIsReached(a, b);
    forall m: nat | Edits(a, b, m)
      ensures Lev(a, b) <= m
    {
      LevIsLowerBound(a, b, m);
    }
  }

  // The metric laws.

  lemma {:induction false} EditsReverse(s: string, t: string, n: nat)
    requires Edits(s, t, n)
    ensures Edits(t, s, n)
    decreases n
  {
    if n > 0 {
      var c :| OneEdit(s, c) && Edits(c, t, n - 1);
      var p, x, y, q :| Splice(s, c, p, x, y, q);
      EditsReverse(c, t, n - 1);
      OneEditIsEdits(c, s, p, y, x, q);
      EditsConcat(t, c, s, n - 1, 1);
    }
  }

  lemma {:induction false} ZeroOnlyOnEqual(a: string, b: string)
    ensures Lev(a, b) == 0 <==> a == b
  {
    LevIsReached(a, b);
    LevSelf(a);
  }

  lemma {:induction false} Symmetric(a: string, b: string)
    ensures Lev(a, b) == Lev(b, a)
  {
    LevIsReached(a, b);
    LevIsReached(b, a);
    EditsReverse(a, b, Lev(a, b));
    EditsReverse(b, a, Lev(b, a));
    LevIsLowerBound(b, a, Lev(a, b));
    LevIsLowerBound(a, b, Lev(b, a));
  }

  lemma {:induction false} Triangle(a: string, b: string, c: string)
    ensures Lev(a, c) <= Lev(a, b) + Lev(b, c)
  {
    LevIsReached(a, b);
    LevIsReached(b, c);
    EditsConcat(a, b, c, Lev(a, b), Lev(b, c));
    LevIsLowerBound(a, c, Lev(a, b) + Lev(b, c));
  }

  /** One cell of the table, from its three neighbours. */
  lemma LevCell(a: string, b: string, i: nat, j: nat)
    requires 0 < i <= |a| && 0 < j <= |b|
    ensures Lev(a[..i], b[..j]) ==
            Min3(Lev(a[..i - 1], b[..j]) + 1, Lev(a[..i], b[..j - 1]) + 1,
                 Lev(a[..i - 1], b[..j - 1]) + Cost(a[i - 1], b[j - 1]))
  {
    assert Front(a[..i]) == a[..i - 1] && Front(b[..j]) == b[..j - 1];
  }

  lemma LevEdge(a: string, b: string)
    ensures Lev(a, "") == |a| && Lev("", b) == |b|
  {
  }

  method Levenshtein(a: string, b: string) returns (d: nat)
    ensures d == Lev(a, b) && IsEditDistance(a, b, d)
  {
    LevIsEditDistance(a, b);
    LevEdge(a, b);
    hide IsEditDistance, Lev;
    var la, lb := |a|, |b|;
    if la == 0 {
      return lb;
    }
    if lb == 0 {
      return la;
    }
    var prev, curr := new nat[lb + 1], new nat[lb + 1];
    for j := 0 to lb + 1
      invariant forall k :: 0 <= k < j ==> prev[k] == Lev(a[..0], b[..k])
    {
      LevEdge(a, b[..j]);
      prev[j] := j;
    }
    for i := 1 to la + 1
      invariant fresh(prev) && fresh(curr) && prev != curr && prev.Length == curr.Length == lb + 1
      invariant forall k :: 0 <= k <= lb ==> prev[k] == Lev(a[..i - 1], b[..k])
    {
      LevEdge(a[..i], b);
      curr[0] := i;
      for j := 1 to lb + 1
        invariant forall k :: 0 <= k <= lb ==> prev[k] == Lev(a[..i - 1], b[..k])
        invariant forall k :: 0 <= k < j ==> curr[k] == Lev(a[..i], b[..k])
      {
        var cost := if a[i - 1] == b[j - 1] then 0 else 1;
        var del, ins, sub := prev[j] + 1, curr[j - 1] + 1, prev[j - 1] + cost;
        LevCell(a, b, i, j);
        curr[j] := Min3(del, ins, sub);
      }
      prev, curr := curr, prev;
    }
    assert a[..la] == a && b[..lb] == b;
    return prev[lb];
  }

  // Suggesting the nearest flag.

  /** Distances count characters; lengths, as Go takes them, the bytes of their UTF-8 encoding. */
  function Bytes(s: string): nat {
    if s == "" then 0 else Bytes(s[..|s| - 1]) + Width(s[|s| - 1])
  }

  function Width(c: char): nat {
    if c < 0x80 as char then 1 else if c < 0x800 as char then 2 else if c < 0x10000 as char then 3 else 4
  }

  predicate Closest(name: string, candidates: seq<string>, i: nat)
    requires i < |candidates|
  {
    forall c :: c in candidates ==> Lev(name, candidates[i]) <= Lev(name, c)
  }

  predicate Extends(name: string, candidates: seq<string>, i: nat)
    requires i < |candidates|
  {
    Closest(name, candidates, i) && name <= candidates[i]
  }

  /** Among the closest candidates: the shortest that extends the name, or else the
      first; earlier candidates win ties. */
  ghost predicate Preferred(name: string, candidates: seq<string>, i: nat)
    requires i < |candidates|
  {
    && Closest(name, candidates, i)
    && if exists j :: 0 <= j < |candidates| && Extends(name, candidates, j) then
         && Extends(name, candidates, i)
         && forall j :: 0 <= j < |candidates| && Extends(name, candidates, j) ==>
              Bytes(candidates[i]) < Bytes(candidates[j]) || (Bytes(candidates[i]) == Bytes(candidates[j]) && i <= j)
       else
         forall j :: 0 <= j < i ==> !Closest(name, candidates, j)
  }

  function Threshold(name: string, best: string): nat {
    var maxLen := if Bytes(best) > Bytes(name) then Bytes(best) else Bytes(name);
    var threshold := (maxLen * 8) / 10;
    if threshold < 1 then 1 else threshold
  }

  /** UTF-8 takes another byte from 0x80, from 0x800 and from 0x10000 on. */
  lemma BytesOfOne(c: char)
    ensures 1 <= Bytes([c]) <= 4
    ensures Bytes([c]) >= 2 <==> c >= 0x80 as char
    ensures Bytes([c]) >= 3 <==> c >= 0x800 as char
    ensures Bytes([c]) >= 4 <==> c >= 0x10000 as char
  {
    assert Bytes([]) == 0;
  }

  lemma {:induction false} AsciiBytes(s: string)
    requires forall c :: c in s ==> c < 0x80 as char
    ensures Bytes(s) == |s|
  {
    if s != "" {
      var front, last := s[..|s| - 1], s[|s| - 1];
      assert s == front + [last];
      assert forall c :: c in front ==> c in s;
      assert last in s;
      AsciiBytes(front);
    }
  }

  /** Between ASCII names a distance is small enough if it is zero, or if one more than it is at
      most four fifths of the longer length. */
  lemma AcceptedMeans(name: string, best: string, distance: nat)
    requires forall c :: c in name || c in best ==> c < 0x80 as char
    ensures distance < Threshold(name, best) <==>
      distance == 0 || 5 * (distance + 1) <= 4 * if |best| > |name| then |best| else |name|
  {
    AsciiBytes(name);
    AsciiBytes(best);
  }

  /** The candidates tied at the best distance among the first `n`, by position. */
  ghost predicate Tied(name: string, candidates: seq<string>, n: nat, bestDist: nat, places: seq<nat>,
                       tied: seq<string>)
    requires n <= |candidates|
  {
    && |tied| == |places|
    && (forall k :: 0 <= k < |places| ==>
          places[k] < n && tied[k] == candidates[places[k]] && Lev(name, tied[k]) == bestDist)
    && (forall k, m :: 0 <= k < m < |places| ==> places[k] < places[m])
    && (forall j :: 0 <= j < n ==> bestDist <= Lev(name, candidates[j]))
    && (forall j :: 0 <= j < n && Lev(name, candidates[j]) == bestDist ==> j in places)
  }

  /** The first loop's state: no candidate within reach yet, or the ties so far. */
  ghost predicate Scan(name: string, candidates: seq<string>, n: nat, bestDist: nat, places: seq<nat>,
                       tied: seq<string>)
    requires n <= |candidates|
  {
    if tied == [] then
      places == [] && bestDist == Bytes(name) + 1 && forall j :: 0 <= j < n ==> Lev(name, candidates[j]) > bestDist
    else
      Tied(name, candidates, n, bestDist, places, tied)
  }

  lemma ScanNext(name: string, candidates: seq<string>, n: nat, bestDist: nat, places: seq<nat>, tied: seq<string>)
    requires n < |candidates| && Scan(name, candidates, n, bestDist, places, tied)
    ensures var c, d := candidates[n], Lev(name, candidates[n]);
      if d < bestDist then Scan(name, candidates, n + 1, d, [n], [c])
      else if d == bestDist then Scan(name, candidates, n + 1, bestDist, places + [n], tied + [c])
      else Scan(name, candidates, n + 1, bestDist, places, tied)
  {
    hide Lev;
    var c, d := candidates[n], Lev(name, candidates[n]);
    if d == bestDist && tied != [] {
      assert Tied(name, candidates, n + 1, bestDist, places + [n], tied + [c]);
    }
  }

  /** Scanning the first `m` tied candidates has settled on the one at `best`. */
  ghost predicate Settled(name: string, tied: seq<string>, m: nat, best: nat)
    requires m <= |tied|
  {
    && best < |tied| && (best == 0 || best < m)
    && ((forall k :: 0 <= k < m ==> !(name <= tied[k])) ==> best == 0)
    && ((exists k :: 0 <= k < m && name <= tied[k]) ==> name <= tied[best])
    && (forall k :: 0 <= k < m && name <= tied[k] ==>
          Bytes(tied[best]) < Bytes(tied[k]) || (Bytes(tied[best]) == Bytes(tied[k]) && best <= k))
  }

  /** The tied candidates are the closest ones. */
  lemma TiedAreClosest(name: string, candidates: seq<string>, bestDist: nat, places: seq<nat>, tied: seq<string>)
    requires Tied(name, candidates, |candidates|, bestDist, places, tied) && tied != []
    ensures forall i :: 0 <= i < |candidates| ==> (Closest(name, candidates, i) <==> i in places)
  {
    assert candidates[places[0]] in candidates;
    forall i | 0 <= i < |candidates|
      ensures Closest(name, candidates, i) <==> i in places
    {
      if i in places {
        var k :| 0 <= k < |places| && places[k] == i;
        assert Lev(name, tied[k]) == bestDist;
      }
    }
  }

  lemma SettledOnExtension(name: string, candidates: seq<string>, places: seq<nat>, tied: seq<string>, best: nat)
    requires |tied| == |places|
    requires forall k :: 0 <= k < |places| ==> places[k] < |candidates| && tied[k] == candidates[places[k]]
    requires forall k, m :: 0 <= k < m < |places| ==> places[k] < places[m]
    requires Settled(name, tied, |tied|, best)
    requires forall i :: 0 <= i < |candidates| ==> (Closest(name, candidates, i) <==> i in places)
    requires exists j :: 0 <= j < |candidates| && Extends(name, candidates, j)
    ensures Preferred(name, candidates, places[best])
  {
    hide Lev, Closest;
    var i := places[best];
    var j0 :| 0 <= j0 < |candidates| && Extends(name, candidates, j0);
    var k0 :| 0 <= k0 < |places| && places[k0] == j0;
    assert name <= tied[k0];
    forall j | 0 <= j < |candidates| && Extends(name, candidates, j)
      ensures Bytes(candidates[i]) < Bytes(candidates[j]) || (Bytes(candidates[i]) == Bytes(candidates[j]) && i <= j)
    {
      var k :| 0 <= k < |places| && places[k] == j;
      assert name <= tied[k];
    }
  }

  lemma SettledOnFirst(name: string, candidates: seq<string>, places: seq<nat>, tied: seq<string>, best: nat)
    requires |tied| == |places|
    requires forall k :: 0 <= k < |places| ==> places[k] < |candidates| && tied[k] == candidates[places[k]]
    requires forall k, m :: 0 <= k < m < |places| ==> places[k] < places[m]
    requires Settled(name, tied, |tied|, best)
    requires forall i :: 0 <= i < |candidates| ==> (Closest(name, candidates, i) <==> i in places)
    requires !exists j :: 0 <= j < |candidates| && Extends(name, candidates, j)
    ensures Preferred(name, candidates, places[best])
  {
    hide Lev, Closest;
    forall k | 0 <= k < |tied|
      ensures !(name <= tied[k])
    {
      assert Extends(name, candidates, places[k]) <==> name <= tied[k];
    }
    assert best == 0;
    assert forall k :: 0 <= k < |places| ==> places[0] <= places[k];
  }

  lemma SettledIsPreferred(name: string, candidates: seq<string>, bestDist: nat, places: seq<nat>, tied: seq<string>,
                           best: nat)
    requires Tied(name, candidates, |candidates|, bestDist, places, tied)
    requires Settled(name, tied, |tied|, best)
    ensures places[best] < |candidates| && candidates[places[best]] == tied[best]
    ensures Preferred(name, candidates, places[best]) && Lev(name, tied[best]) == bestDist
  {
    TiedAreClosest(name, candidates, bestDist, places, tied);
    hide Lev, Closest, Preferred;
    if exists j :: 0 <= j < |candidates| && Extends(name, candidates, j) {
      SettledOnExtension(name, candidates, places, tied, best);
    } else {
      SettledOnFirst(name, candidates, places, tied, best);
    }
  }

  lemma SettleNext(name: string, tied: seq<string>, m: nat, best: nat)
    requires m < |tied| && Settled(name, tied, m, best)
    ensures Settled(name, tied, m + 1,
              if name <= tied[m] && (!(name <= tied[best]) || Bytes(tied[m]) < Bytes(tied[best])) then m else best)
  {
  }

  method NearestFlag(name: string, candidates: seq<string>) returns (flag: string)
    ensures flag != "" ==> exists i ::
      0 <= i < |candidates| && candidates[i] == flag && Preferred(name, candidates, i) &&
      Lev(name, flag) < Threshold(name, flag) && Lev(name, flag) <= Bytes(name) + 1
    ensures flag == "" && (exists c :: c in candidates && Lev(name, c) <= Bytes(name) + 1) ==> exists i ::
      0 <= i < |candidates| && Preferred(name, candidates, i) &&
      (candidates[i] == "" || Lev(name, candidates[i]) >= Threshold(name, candidates[i]))
  {
    hide Lev, Closest, Preferred, Bytes;
    var bestDist: nat := Bytes(name) + 1;
    var tied: seq<string> := [];
    ghost var places: seq<nat> := [];
    for i := 0 to |candidates|
      invariant Scan(name, candidates, i, bestDist, places, tied) && bestDist <= Bytes(name) + 1
    {
      ghost var place: nat := i;
      var d := Levenshtein(name, candidates[i]);
      ScanNext(name, candidates, i, bestDist, places, tied);
      if d < bestDist {
        bestDist := d;
        tied, places := [candidates[i]], [place];
      } else if d == bestDist {
        tied, places := tied + [candidates[i]], places + [place];
      }
    }
    if |tied| == 0 {
      return "";
    }
    hide Tied;
    var best := tied[0];
    ghost var at: nat := 0;
    assert Settled(name, tied, 0, at);
    if |tied| == 1 {
      SettleNext(name, tied, 0, at);
    }
    hide Settled;
    if |tied| > 1 {
      for m := 0 to |tied|
        invariant at < |tied| && best == tied[at] && Settled(name, tied, m, at)
      {
        SettleNext(name, tied, m, at);
        if name <= tied[m] {
          if !(name <= best) || Bytes(tied[m]) < Bytes(best) {
            best := tied[m];
            at := m;
          }
        }
      }
    }
    SettledIsPreferred(name, candidates, bestDist, places, tied, at);
    hide Threshold;
    if bestDist >= Threshold(name, best) {
      return "";
    }
    return best;
  }
}
