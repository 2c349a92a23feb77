/** The scopes a path stands in: itself and everything above it (`storage/sqlite/scope.go`). */
module Hierarchy {
  import opened ScopePath
  import Like

  /** The path and its front up to each dot. */
  ghost function Chain(path: string): set<string> {
    {path} + (set p | 0 <= p < |path| && path[p] == '.' :: path[..p])
  }

  function Ancestor(path: string, n: nat): string
    requires n < |Split(path)|
  {
    Join(Split(path)[..n + 1])
  }

  /** The first `n` scopes that `EnsureHierarchy` inserts. */
  ghost function FirstOf(path: string, n: nat): set<string> {
    set i: nat | i < n && i < |Split(path)| :: Ancestor(path, i)
  }

  ghost predicate Closed(scopes: set<string>) {
    forall s, p :: s in scopes && 0 <= p < |s| && s[p] == '.' ==> s[..p] in scopes
  }

  /** The front of a path up to a dot joins some but not all of its segments. */
  lemma CutIsJoin(path: string, p: nat) returns (n: nat)
    requires p < |path| && path[p] == '.'
    ensures 0 < n < |Split(path)| && path[..p] == Join(Split(path)[..n])
  {
    var front, back := path[..p], path[p + 1..];
    assert path == front + "." + back;
    SplitConcat(front, back);
    n := |Split(front)|;
    assert Split(path)[..n] == Split(front);
    JoinSplit(front);
  }

  lemma JoinIsCut(path: string, n: nat) returns (p: nat)
    requires 0 < n < |Split(path)|
    ensures p < |path| && path[p] == '.' && path[..p] == Join(Split(path)[..n])
  {
    var front, back := Split(path)[..n], Split(path)[n..];
    assert Split(path) == front + back;
    JoinConcat(front, back);
    JoinSplit(path);
    p := |Join(front)|;
    assert path == Join(front) + ("." + Join(back));
  }

  /** Joining the segments one longer front at a time visits exactly the chain. */
  lemma AllOfChain(path: string)
    ensures FirstOf(path, |Split(path)|) == Chain(path)
  {
    hide Join, Split;
    var segments := Split(path);
    var n := |segments|;
    assert Ancestor(path, n - 1) == path by {
      assert segments[..n] == segments;
      JoinSplit(path);
    }
    forall i: nat | i < n
      ensures Ancestor(path, i) in Chain(path)
    {
      if i + 1 < n {
        var p := JoinIsCut(path, i + 1);
      }
    }
    forall p | 0 <= p < |path| && path[p] == '.'
      ensures path[..p] in FirstOf(path, n)
    {
      var k := CutIsJoin(path, p);
      assert path[..p] == Ancestor(path, k - 1);
    }
  }

  /** However far the insertions get, a closed set of scopes stays closed. */
  lemma EnsuringKeepsClosed(scopes: set<string>, path: string, n: nat)
    requires Closed(scopes)
    ensures Closed(scopes + FirstOf(path, n))
  {
    hide Join, Split;
    forall s, p | s in scopes + FirstOf(path, n) && 0 <= p < |s| && s[p] == '.'
      ensures s[..p] in scopes + FirstOf(path, n)
    {
      if s !in scopes {
        var i: nat :| i < n && i < |Split(path)| && s == Ancestor(path, i);
        var k := CutIsJoin(s, p);
        FrontOfAncestor(path, i, k);
        assert s[..p] == Ancestor(path, k - 1);
      }
    }
  }

  lemma FrontOfAncestor(path: string, i: nat, k: nat)
    requires i < |Split(path)| && 0 < k < |Split(Ancestor(path, i))|
    ensures k <= i && Join(Split(Ancestor(path, i))[..k]) == Ancestor(path, k - 1)
  {
    SegmentsArePlain(path);
    var front := Split(path)[..i + 1];
    SplitJoin(front);
    assert front[..k] == Split(path)[..k];
  }

  lemma ChainKeepsClosed(scopes: set<string>, path: string)
    ensures Closed(scopes) ==> Closed(scopes + Chain(path))
    ensures path in Chain(path)
  {
    AllOfChain(path);
    if Closed(scopes) {
      EnsuringKeepsClosed(scopes, path, |Split(path)|);
    }
  }

  /** What an insertion finds: its scope, or the one above it. */
  ghost predicate Guarded(scopes: set<string>, path: string, i: nat)
    requires i < |Split(path)|
  {
    Ancestor(path, i) in scopes || i == 0 || Ancestor(path, i - 1) in scopes
  }

  /** One insertion keeps a closed set closed exactly when it finds that. */
  lemma InsertingKeepsClosed(scopes: set<string>, path: string, i: nat)
    requires Closed(scopes) && i < |Split(path)|
    ensures Closed(scopes + {Ancestor(path, i)}) <==> Guarded(scopes, path, i)
  {
    hide Join, Split;
    var s := Ancestor(path, i);
    SegmentsArePlain(path);
    SplitJoin(Split(path)[..i + 1]);
    if i > 0 {
      var p := JoinIsCut(s, i);
      FrontOfAncestor(path, i, i);
      assert s[..p] == Ancestor(path, i - 1) && |s[..p]| < |s|;
    }
    if Guarded(scopes, path, i) && s !in scopes {
      forall p | 0 <= p < |s| && s[p] == '.'
        ensures s[..p] in scopes
      {
        var k := CutIsJoin(s, p);
        FrontOfAncestor(path, i, k);
        assert s[..p] == Ancestor(path, k - 1);
        ChainOfAncestor(scopes, path, i - 1, k - 1);
      }
    }
  }

  /** A closed set has all that is above its members. */
  lemma ChainOfAncestor(scopes: set<string>, path: string, i: nat, k: nat)
    requires Closed(scopes) && k <= i < |Split(path)| && Ancestor(path, i) in scopes
    ensures Ancestor(path, k) in scopes
  {
    hide Join, Split;
    if k < i {
      SegmentsArePlain(path);
      SplitJoin(Split(path)[..i + 1]);
      var p := JoinIsCut(Ancestor(path, i), k + 1);
      FrontOfAncestor(path, i, k + 1);
    }
  }

  /** Deleting one scope keeps the set closed exactly when nothing lies below that scope. */
  lemma DeletingKeepsClosed(scopes: set<string>, path: string)
    requires Closed(scopes)
    ensures Closed(scopes - {path}) <==> forall s :: s in scopes ==> !IsAncestorOf(path, s)
  {
    forall s | s in scopes && IsAncestorOf(path, s)
      ensures !Closed(scopes - {path})
    {
      PrefixText(path, s);
      assert s[..|path|] !in scopes - {path};
    }
    if !Closed(scopes - {path}) {
      var s, p :| s in scopes - {path} && 0 <= p < |s| && s[p] == '.' && s[..p] !in scopes - {path};
      assert s[..p] == path;
      assert s + "." == (path + ".") + (s[p + 1..] + ".");
      assert IsAncestorOf(path, s);
    }
  }

  // What the sweep of empty scopes keeps.

  ghost predicate InUse(scope: string, used: set<string>) {
    scope in used || exists u :: u in used && Like.Matches(Like.Below(scope), u)
  }

  lemma SweepKeepsClosed(scopes: set<string>, used: set<string>)
    requires Closed(scopes)
    ensures Closed(set s | s in scopes && InUse(s, used))
  {
    hide Like.Matches;
    forall s, p | s in scopes && InUse(s, used) && 0 <= p < |s| && s[p] == '.'
      ensures s[..p] in scopes && InUse(s[..p], used)
    {
      if s in used {
        Like.BelowPrefix(s, p);
      } else {
        var u :| u in used && Like.Matches(Like.Below(s), u);
        assert s == s[..p] + "." + s[p + 1..];
        Like.BelowChildIsBelow(s[..p], s[p + 1..], u);
      }
    }
  }

  // What `LIKE` finds below a scope.

  /** Another scope spelled so that the pattern for `path` cannot tell them apart. */
  ghost predicate Confusable(path: string, other: string) {
    other != path && Like.Alike(path, other)
  }

  lemma BelowPlain(path: string, s: string)
    requires '%' !in path
    ensures Like.Matches(Like.Below(path), s) <==>
      |path| < |s| && s[|path|] == '.' && Like.Alike(path, s[..|path|])
  {
    hide Like.Matches;
    Like.BelowMatches(path, s);
    forall i | 0 <= i < |s|
      ensures Like.DotAfter(path, s, i) <==> s[i] == '.' && Like.Alike(path, s[..i])
    {
      Like.PlainMatches(path, s[..i]);
    }
    if |path| < |s| && s[|path|] == '.' && Like.Alike(path, s[..|path|]) {
      assert Like.DotAfter(path, s, |path|);
    }
  }

  lemma BelowIsAncestor(path: string, s: string)
    ensures IsAncestorOf(path, s) <==> |path| < |s| && s[|path|] == '.' && s[..|path|] == path
  {
    if IsAncestorOf(path, s) {
      PrefixText(path, s);
    }
    if |path| < |s| && s[|path|] == '.' && s[..|path|] == path {
      assert s + "." == (path + ".") + (s[|path| + 1..] + ".");
    }
  }

  /** The pattern finds every descendant, and finds nothing else exactly when no other
      scope with something below it reads like `path`. */
  lemma PatternIsExact(scopes: set<string>, path: string)
    requires Closed(scopes) && '%' !in path
    ensures forall s :: s in scopes && IsAncestorOf(path, s) ==> Like.Matches(Like.Below(path), s) && s != path
    ensures (forall s :: s in scopes && s != path && Like.Matches(Like.Below(path), s) ==> IsAncestorOf(path, s))
       <==> (forall c, s :: c in scopes && Confusable(path, c) && s in scopes ==> !IsAncestorOf(c, s))
  {
    hide Like.Matches;
    forall s | s in scopes
      ensures Like.Matches(Like.Below(path), s) <==>
        |path| < |s| && s[|path|] == '.' && Like.Alike(path, s[..|path|])
      ensures IsAncestorOf(path, s) <==> |path| < |s| && s[|path|] == '.' && s[..|path|] == path
      ensures Like.Matches(Like.Below(path), s) && !IsAncestorOf(path, s) ==>
        s[..|path|] in scopes && Confusable(path, s[..|path|]) && IsAncestorOf(s[..|path|], s)
    {
      BelowPlain(path, s);
      BelowIsAncestor(path, s);
      if |path| < |s| {
        BelowIsAncestor(s[..|path|], s);
      }
    }
    forall c, s | c in scopes && Confusable(path, c) && s in scopes && IsAncestorOf(c, s)
      ensures Like.Matches(Like.Below(path), s) && !IsAncestorOf(path, s) && s != path
    {
      BelowIsAncestor(c, s);
    }
    assert Like.Alike(path, path);
  }

  function OtherCase(c: char): char
    requires IsLetter(c)
  {
    if 'a' <= c <= 'z' then c - 32 as char else c + 32 as char
  }

  /** A valid path with its first letter in the other case is a different valid path that reads
      like it. */
  lemma RespeltIsValid(path: string) returns (other: string)
    requires IsValidPath(path)
    ensures IsValidPath(other) && Confusable(path, other)
  {
    assert IsValidSegment(Split(path)[0]);
    other := path[0 := OtherCase(path[0])];
    assert other[1..] == path[1..];
    forall i | 0 <= i < |Split(other)|
      ensures IsValidSegment(Split(other)[i])
    {
      assert IsValidSegment(Split(path)[i]);
      if i > 0 {
        assert Split(other)[i] == Split(path)[i];
      } else {
        forall j | 0 <= j < |Split(other)[0]|
          ensures j > 0 ==> Split(other)[0][j] == Split(path)[0][j]
        {
        }
      }
    }
  }

  /** So below every valid path the pattern can find what is no descendant. */
  lemma PatternCanMislead(path: string) returns (scopes: set<string>, s: string)
    requires IsValidPath(path)
    ensures Closed(scopes) && path in scopes && s in scopes && IsValidPath(s)
    ensures Like.Matches(Like.Below(path), s) && !IsAncestorOf(path, s)
  {
    hide Like.Matches, Split, Join, IsAncestorOf, IsValidSegment, Chain;
    var other := RespeltIsValid(path);
    s := other + "." + "x";
    SplitConcat(other, "x");
    assert IsValidPath(s) by {
      OneLetter();
    }
    scopes := Chain(path) + Chain(s);
    ChainKeepsClosed({}, path);
    assert {} + Chain(path) == Chain(path);
    ChainKeepsClosed(Chain(path), s);
    Like.AlikeMatches(path, other);
    assert s[..|path|] == other;
    assert Like.DotAfter(path, s, |path|);
    Like.BelowMatches(path, s);
    BelowIsAncestor(path, s);
  }

  lemma OneLetter()
    ensures Split("x") == ["x"] && IsValidSegment("x")
  {
    SplitPlain("x");
  }
}
