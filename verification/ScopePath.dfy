/** Dotted scope paths and their order (`model/scope.go`). */
module ScopePath {
  import opened Model

  /** `strings.Split(path, ".")`. */
  function Split(path: string): (segments: seq<string>)
    ensures segments != []
  {
    if path == "" then [""]
    else
      var rest := Split(path[1..]);
      if path[0] == '.' then [""] + rest else [[path[0]] + rest[0]] + rest[1..]
  }

  /** `strings.Join(segments, ".")`. */
  function Join(segments: seq<string>): string {
    if segments == [] then ""
    else if |segments| == 1 then segments[0]
    else segments[0] + "." + Join(segments[1..])
  }

  predicate IsLetter(c: char) {
    'a' <= c <= 'z' || 'A' <= c <= 'Z'
  }

  predicate IsValidSegment(segment: string) {
    segment != "" && IsLetter(segment[0]) &&
    forall i :: 0 <= i < |segment| ==>
      IsLetter(segment[i]) || '0' <= segment[i] <= '9' || segment[i] == '_' || segment[i] == '-'
  }

  /** By character codes: a letter, and then letters, digits, underscores and hyphens. */
  lemma ValidByCodes(segment: string)
    ensures IsValidSegment(segment) <==>
      && |segment| >= 1
      && (65 <= segment[0] as int <= 90 || 97 <= segment[0] as int <= 122)
      && forall i :: 1 <= i < |segment| ==>
           var c := segment[i] as int;
           65 <= c <= 90 || 97 <= c <= 122 || 48 <= c <= 57 || c == 95 || c == 45
  {
  }

  predicate IsValidPath(path: string) {
    forall i :: 0 <= i < |Split(path)| ==> IsValidSegment(Split(path)[i])
  }

  method ParseScopePath(path: string) returns (parsed: Outcome<seq<string>>)
    ensures parsed == if IsValidPath(path) then Ok(Split(path)) else Err(InvalidPath)
  {
    if path == "" {
      assert Split(path)[0] == "";
      return Err(InvalidPath);
    }
    var segments := Split(path);
    for i := 0 to |segments|
      invariant forall j :: 0 <= j < i ==> IsValidSegment(segments[j])
    {
      if segments[i] == "" || !IsValidSegment(segments[i]) {
        return Err(InvalidPath);
      }
    }
    return Ok(segments);
  }

  // Splitting and joining undo each other.

  lemma {:induction false} JoinSplit(path: string)
    ensures Join(Split(path)) == path
  {
    hide Join;
    if path == "" {
      JoinOne("");
    } else {
      JoinSplit(path[1..]);
      var rest := Split(path[1..]);
      assert path == [path[0]] + path[1..];
      if path[0] == '.' {
        JoinMore("", rest);
      } else {
        JoinLonger(path[0], rest);
      }
    }
  }

  lemma JoinOne(segment: string)
    ensures Join([segment]) == segment
  {
  }

  lemma JoinMore(segment: string, rest: seq<string>)
    requires rest != []
    ensures Join([segment] + rest) == segment + "." + Join(rest)
  {
    assert ([segment] + rest)[1..] == rest;
  }

  /** One more character on the first segment. */
  lemma JoinLonger(c: char, segments: seq<string>)
    requires segments != []
    ensures Join([[c] + segments[0]] + segments[1..]) == [c] + Join(segments)
  {
    hide Join;
    var longer := [c] + segments[0];
    if |segments| == 1 {
      JoinOne(longer);
      JoinOne(segments[0]);
      assert [longer] + segments[1..] == [longer] && segments == [segments[0]];
    } else {
      JoinMore(longer, segments[1..]);
      JoinMore(segments[0], segments[1..]);
      assert segments == [segments[0]] + segments[1..];
      assert longer + "." + Join(segments[1..]) == [c] + (segments[0] + "." + Join(segments[1..]));
    }
  }

  /** One more character in front. */
  lemma SplitCons(c: char, rest: string)
    ensures Split([c] + rest) == if c == '.' then [""] + Split(rest) else [[c] + Split(rest)[0]] + Split(rest)[1..]
  {
    assert ([c] + rest)[1..] == rest;
  }

  lemma {:induction false} SplitConcat(a: string, b: string)
    ensures Split(a + "." + b) == Split(a) + Split(b)
  {
    hide Split;
    SplitEmpty();
    if a == "" {
      assert a + "." + b == ['.'] + b;
      SplitCons('.', b);
    } else {
      var c, rest := a[0], a[1..];
      assert a == [c] + rest && a + "." + b == [c] + (rest + "." + b);
      SplitConcat(rest, b);
      SplitCons(c, rest);
      SplitCons(c, rest + "." + b);
      SplitRegroup(c, Split(rest), Split(b));
    }
  }

  lemma SplitEmpty()
    ensures Split("") == [""]
  {
  }

  lemma SplitRegroup(c: char, front: seq<string>, back: seq<string>)
    requires front != []
    ensures [""] + (front + back) == ([""] + front) + back
    ensures [[c] + (front + back)[0]] + (front + back)[1..] == ([[c] + front[0]] + front[1..]) + back
  {
    assert (front + back)[1..] == front[1..] + back;
  }

  lemma {:induction false} SplitPlain(segment: string)
    requires '.' !in segment
    ensures Split(segment) == [segment]
  {
    if segment != "" {
      SplitPlain(segment[1..]);
      assert segment == [segment[0]] + segment[1..];
    }
  }

  lemma {:induction false} SegmentsArePlain(path: string)
    ensures forall i :: 0 <= i < |Split(path)| ==> '.' !in Split(path)[i]
  {
    if path != "" {
      SegmentsArePlain(path[1..]);
    }
  }

  lemma {:induction false} SplitJoin(segments: seq<string>)
    requires segments != [] && forall i :: 0 <= i < |segments| ==> '.' !in segments[i]
    ensures Split(Join(segments)) == segments
  {
    SplitPlain(segments[0]);
    if |segments| > 1 {
      SplitJoin(segments[1..]);
      SplitConcat(segments[0], Join(segments[1..]));
    }
  }

  lemma SplitIsInjective(a: string, b: string)
    requires Split(a) == Split(b)
    ensures a == b
  {
    JoinSplit(a);
    JoinSplit(b);
  }

  lemma {:induction false} JoinConcat(a: seq<string>, b: seq<string>)
    requires a != [] && b != []
    ensures Join(a + b) == Join(a) + "." + Join(b)
  {
    if |a| == 1 {
      assert (a + b)[1..] == b;
    } else {
      assert (a + b)[1..] == a[1..] + b;
      JoinConcat(a[1..], b);
      assert a[0] + "." + (Join(a[1..]) + "." + Join(b)) == a[0] + "." + Join(a[1..]) + "." + Join(b);
    }
  }

  // Ancestors.

  /** `strings.HasPrefix`. */
  predicate HasPrefix(s: string, prefix: string) {
    |prefix| <= |s| && s[..|prefix|] == prefix
  }

  predicate IsAncestorOf(a: string, b: string) {
    a != b && HasPrefix(b + ".", a + ".")
  }

  ghost predicate IsProperPrefix<T>(a: seq<T>, b: seq<T>) {
    |a| < |b| && b[..|a|] == a
  }

  /** An ancestor is exactly a proper prefix of the segments. */
  lemma AncestorIsPrefix(a: string, b: string)
    ensures IsAncestorOf(a, b) <==> IsProperPrefix(Split(a), Split(b))
  {
    if IsAncestorOf(a, b) {
      PrefixText(a, b);
      var rest := b[|a| + 1..];
      SplitConcat(a, rest);
    }
    if IsProperPrefix(Split(a), Split(b)) {
      var rest := Split(b)[|Split(a)|..];
      assert Split(b) == Split(a) + rest;
      JoinConcat(Split(a), rest);
      JoinSplit(a);
      JoinSplit(b);
      assert b == a + "." + Join(rest);
      assert b + "." == (a + ".") + (Join(rest) + ".");
    }
  }

  lemma PrefixText(a: string, b: string)
    requires IsAncestorOf(a, b)
    ensures |a| < |b| && b[..|a|] == a && b[|a|] == '.'
    ensures b == a + "." + b[|a| + 1..]
  {
    assert (a + ".")[|a|] == '.';
    assert (b + ".")[..|a| + 1] == a + ".";
    assert forall i :: 0 <= i < |a| ==> (b + ".")[i] == (a + ".")[i];
    assert (b + ".")[|a|] == '.';
    assert |a| <= |b|;
    assert b[..|a|] == a by {
      assert forall i :: 0 <= i < |a| ==> b[i] == (b + ".")[i];
    }
    assert b[..|b|] == b;
  }

  lemma AncestorIsStrictOrder(a: string, b: string, c: string)
    ensures !IsAncestorOf(a, a)
    ensures IsAncestorOf(a, b) ==> !IsAncestorOf(b, a)
    ensures IsAncestorOf(a, b) && IsAncestorOf(b, c) ==> IsAncestorOf(a, c)
  {
    AncestorIsPrefix(a, b);
    AncestorIsPrefix(b, a);
    AncestorIsPrefix(b, c);
    AncestorIsPrefix(a, c);
  }

  /** The segments of a valid path, and none for any other. */
  function Segments(path: string): seq<string> {
    if IsValidPath(path) then Split(path) else []
  }

  function Parent(path: string): string {
    var segments := Segments(path);
    if |segments| <= 1 then "" else Join(segments[..|segments| - 1])
  }

  lemma ParentSegments(path: string)
    requires IsValidPath(path) && |Split(path)| > 1
    ensures Split(Parent(path)) == Split(path)[..|Split(path)| - 1]
    ensures Parent(path) != "" && IsValidPath(Parent(path))
  {
    SegmentsArePlain(path);
    var segments := Split(path)[..|Split(path)| - 1];
    SplitJoin(segments);
    assert IsValidSegment(Split(path)[0]);
    assert Split("") == [""];
  }

  /** Climbing from parent to parent visits exactly the ancestors. */
  lemma AncestorsAreParents(a: string, path: string)
    requires IsValidPath(path)
    ensures IsAncestorOf(a, path) <==>
      Parent(path) != "" && (a == Parent(path) || IsAncestorOf(a, Parent(path)))
  {
    AncestorIsPrefix(a, path);
    AncestorIsPrefix(a, Parent(path));
    var n := |Split(path)|;
    if n > 1 {
      ParentSegments(path);
      if IsProperPrefix(Split(a), Split(path)) {
        assert Split(Parent(path))[..|Split(a)|] == Split(a);
        if |Split(a)| == n - 1 {
          SplitIsInjective(a, Parent(path));
        }
      }
      if a == Parent(path) || IsProperPrefix(Split(a), Split(Parent(path))) {
        assert Split(path)[..|Split(a)|] == Split(a);
      }
    }
  }

  // The nearest common ancestor.

  ghost predicate AtOrAbove(a: string, b: string) {
    a == b || IsAncestorOf(a, b)
  }

  lemma AtOrAboveIsPrefix(a: string, b: string)
    ensures AtOrAbove(a, b) <==> Split(a) <= Split(b)
  {
    AncestorIsPrefix(a, b);
    if Split(a) == Split(b) {
      SplitIsInjective(a, b);
    }
  }

  /** The longest path at or above both, or the empty string when there is none. */
  method CommonAncestor(a: string, b: string) returns (common: string)
    ensures !IsValidPath(a) || !IsValidPath(b) ==> common == ""
    ensures IsValidPath(a) && IsValidPath(b) && common != "" ==>
      && IsValidPath(common)
      && forall d :: AtOrAbove(d, common) <==> AtOrAbove(d, a) && AtOrAbove(d, b)
    ensures IsValidPath(a) && IsValidPath(b) ==>
      (common == "" <==> forall d :: !(AtOrAbove(d, a) && AtOrAbove(d, b)))
  {
    var segsA, segsB := Segments(a), Segments(b);
    var shared := [];
    var i := 0;
    while i < |segsA| && i < |segsB|
      invariant 0 <= i <= |segsA| && i <= |segsB|
      invariant shared == segsA[..i] == segsB[..i]
    {
      if segsA[i] != segsB[i] {
        break;
      }
      shared := shared + [segsA[i]];
      i := i + 1;
    }
    if IsValidPath(a) && IsValidPath(b) {
      SharedIsLongest(a, b, i);
    }
    if |shared| == 0 {
      return "";
    }
    return Join(shared);
  }

  lemma SharedIsLongest(a: string, b: string, n: nat)
    requires IsValidPath(a) && IsValidPath(b) && n <= |Split(a)| && n <= |Split(b)|
    requires Split(a)[..n] == Split(b)[..n]
    requires n < |Split(a)| && n < |Split(b)| ==> Split(a)[n] != Split(b)[n]
    ensures n == 0 ==> forall d :: !(AtOrAbove(d, a) && AtOrAbove(d, b))
    ensures n > 0 ==>
      var common := Join(Split(a)[..n]);
      && common != ""
      && IsValidPath(common)
      && AtOrAbove(common, a) && AtOrAbove(common, b)
      && forall d :: AtOrAbove(d, common) <==> AtOrAbove(d, a) && AtOrAbove(d, b)
  {
    hide IsAncestorOf, AtOrAbove, Join, IsValidSegment, Split;
    var shared := Split(a)[..n];
    var common := Join(shared);
    if n > 0 {
      SegmentsArePlain(a);
      SplitJoin(shared);
      NotEmpty(a, common);
      AtOrAboveIsPrefix(common, a);
      AtOrAboveIsPrefix(common, b);
    }
    forall d
      ensures AtOrAbove(d, a) && AtOrAbove(d, b) ==> n > 0
      ensures n > 0 ==> (AtOrAbove(d, common) <==> AtOrAbove(d, a) && AtOrAbove(d, b))
    {
      AtOrAboveIsPrefix(d, a);
      AtOrAboveIsPrefix(d, b);
      AtOrAboveIsPrefix(d, common);
      PrefixesAgree(Split(d), Split(a), Split(b), n);
    }
  }

  lemma PrefixesAgree(d: seq<string>, a: seq<string>, b: seq<string>, n: nat)
    requires d != [] && n <= |a| && n <= |b| && a[..n] == b[..n]
    requires n < |a| && n < |b| ==> a[n] != b[n]
    ensures d <= a && d <= b <==> d <= a[..n]
  {
    assert d <= a && d <= b ==> forall k :: 0 <= k < |d| ==> a[k] == b[k];
    if d <= a[..n] {
      assert a == a[..n] + a[n..] && b == b[..n] + b[n..];
    }
  }

  lemma NotEmpty(a: string, common: string)
    requires IsValidPath(a) && Split(common) <= Split(a)
    ensures common != ""
  {
    assert IsValidSegment(Split(a)[0]);
    assert Split("") == [""];
  }
}
