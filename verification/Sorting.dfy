/** What the library sorts promise: a permutation in order, with ties in any order. */
module Sorting {

  /** `less` is a strict weak order: "not after" is transitive, and never both before and after. */
  ghost predicate Ordering<T(!new)>(less: (T, T) -> bool) {
    && (forall x, y :: less(x, y) ==> !less(y, x))
    && (forall x, y, z :: !less(y, x) && !less(z, y) ==> !less(z, x))
  }

  ghost predicate InOrder<T>(s: seq<T>, less: (T, T) -> bool) {
    forall i, j :: 0 <= i < j < |s| ==> !less(s[j], s[i])
  }

  ghost predicate NoRepeats<T>(s: seq<T>) {
    forall i, j :: 0 <= i < j < |s| ==> s[i] != s[j]
  }

  /** `sort.Slice`. */
  method SortSlice<T(!new)>(s: seq<T>, less: (T, T) -> bool) returns (sorted: seq<T>)
    requires Ordering(less)
    ensures multiset(sorted) == multiset(s)
    ensures InOrder(sorted, less)
  {
    sorted := [];
    for i := 0 to |s|
      invariant multiset(sorted) == multiset(s[..i])
      invariant InOrder(sorted, less)
    {
      var p := |sorted|;
      while p > 0 && less(s[i], sorted[p - 1])
        invariant 0 <= p <= |sorted|
        invariant forall k :: p <= k < |sorted| ==> less(s[i], sorted[k])
      {
        p := p - 1;
      }
      assert s[..i + 1] == s[..i] + [s[i]];
      Insert(sorted, p, s[i], less);
      sorted := sorted[..p] + [s[i]] + sorted[p..];
    }
    assert s[..|s|] == s;
  }

  lemma Insert<T(!new)>(s: seq<T>, p: nat, x: T, less: (T, T) -> bool)
    requires Ordering(less) && InOrder(s, less) && p <= |s|
    requires p > 0 ==> !less(x, s[p - 1])
    requires forall k :: p <= k < |s| ==> less(x, s[k])
    ensures InOrder(s[..p] + [x] + s[p..], less)
    ensures multiset(s[..p] + [x] + s[p..]) == multiset(s) + multiset{x}
  {
    hide InOrder, Ordering;
    var front, back := s[..p], s[p..];
    var next := front + [x] + back;
    assert forall k :: 0 <= k < p ==> next[k] == s[k];
    assert forall k :: p < k < |next| ==> next[k] == s[k - 1];
    InsertInOrder(s, next, p, x, less);
    assert multiset(s) == multiset(front) + multiset(back) by {
      assert s == front + back;
    }
    assert multiset(next) == multiset(front) + multiset{x} + multiset(back);
  }

  lemma InsertInOrder<T(!new)>(s: seq<T>, next: seq<T>, p: nat, x: T, less: (T, T) -> bool)
    requires Ordering(less) && InOrder(s, less) && p <= |s|
    requires p > 0 ==> !less(x, s[p - 1])
    requires forall k :: p <= k < |s| ==> less(x, s[k])
    requires |next| == |s| + 1 && next[p] == x
    requires forall k :: 0 <= k < p ==> next[k] == s[k]
    requires forall k :: p < k < |next| ==> next[k] == s[k - 1]
    ensures InOrder(next, less)
  {
    forall i, j | 0 <= i < j < |next|
      ensures !less(next[j], next[i])
    {
      if j < p {
        assert !less(s[j], s[i]);
      } else if j == p {
        assert i < p - 1 ==> !less(s[p - 1], s[i]);
      } else if i == p {
        assert less(x, s[j - 1]);
      } else {
        assert !less(s[j - 1], if i < p then s[i] else s[i - 1]);
      }
    }
  }

  lemma SameMembers<T>(s: seq<T>, t: seq<T>)
    requires multiset(s) == multiset(t)
    ensures |s| == |t| && forall x :: x in s <==> x in t
  {
    assert |multiset(s)| == |s| && |multiset(t)| == |t|;
    assert forall x :: x in s <==> x in multiset(s);
    assert forall x :: x in t <==> x in multiset(t);
  }

  lemma {:induction false} OnceEach<T>(s: seq<T>, x: T)
    requires NoRepeats(s) && x in s
    ensures multiset(s)[x] == 1
  {
    assert s == [s[0]] + s[1..];
    if x == s[0] {
      assert x !in s[1..];
    } else {
      OnceEach(s[1..], x);
    }
  }

  lemma PermutationKeepsNoRepeats<T>(s: seq<T>, t: seq<T>)
    requires multiset(s) == multiset(t) && NoRepeats(s)
    ensures NoRepeats(t)
  {
    SameMembers(s, t);
    forall i, j | 0 <= i < j < |t|
      ensures t[i] != t[j]
    {
      OnceEach(s, t[i]);
      assert t == t[..j] + t[j..];
      assert t[i] in t[..j] && t[j] in t[j..];
    }
  }
}
