/** The part of SQLite's `LIKE` that scope filters rely on: `%` matches any text, `_` any one
    character, and letters match without regard to ASCII case. */
module Like {

  function Fold(c: char): char {
    if 'A' <= c <= 'Z' then c + 32 as char else c
  }

  predicate CharLike(p: char, c: char) {
    p == '_' || Fold(p) == Fold(c)
  }

  predicate Matches(pattern: string, text: string)
    decreases |pattern| + |text|
  {
    if pattern == "" then text == ""
    else if pattern[0] == '%' then
      Matches(pattern[1..], text) || (text != "" && Matches(pattern, text[1..]))
    else
      text != "" && CharLike(pattern[0], text[0]) && Matches(pattern[1..], text[1..])
  }

  /** `text` can be cut so that `p` matches the front and `q` the back. */
  ghost predicate MatchesCut(p: string, q: string, text: string) {
    exists i :: CutAt(p, q, text, i)
  }

  ghost predicate CutAt(p: string, q: string, text: string, i: int) {
    0 <= i <= |text| && Matches(p, text[..i]) && Matches(q, text[i..])
  }

  lemma {:induction false} MatchesConcat(p: string, q: string, text: string)
    ensures Matches(p + q, text) <==> MatchesCut(p, q, text)
    decreases |p| + |text|
  {
    if p == "" {
      assert p + q == q;
      assert text[0..] == text;
      assert Matches(q, text) <==> CutAt(p, q, text, 0);
    } else {
      assert (p + q)[1..] == p[1..] + q;
      MatchesConcat(p[1..], q, text);
      if text != "" {
        MatchesConcat(p[1..], q, text[1..]);
        if p[0] == '%' {
          MatchesConcat(p, q, text[1..]);
        }
      }
      if Matches(p + q, text) {
        CutFromHead(p, q, text);
      }
      if MatchesCut(p, q, text) {
        HeadFromCut(p, q, text);
      }
    }
  }

  lemma CutFromHead(p: string, q: string, text: string)
    requires p != "" && Matches(p + q, text)
    requires Matches(p[1..] + q, text) ==> MatchesCut(p[1..], q, text)
    requires text != "" && Matches(p[1..] + q, text[1..]) ==> MatchesCut(p[1..], q, text[1..])
    requires text != "" && p[0] == '%' && Matches(p + q, text[1..]) ==> MatchesCut(p, q, text[1..])
    ensures MatchesCut(p, q, text)
  {
    assert (p + q)[1..] == p[1..] + q;
    if p[0] == '%' && Matches(p[1..] + q, text) {
      var i :| CutAt(p[1..], q, text, i);
      assert CutAt(p, q, text, i);
    } else {
      var i :| CutAt(if p[0] == '%' then p else p[1..], q, text[1..], i);
      assert text[..i + 1][1..] == text[1..][..i];
      assert text[i + 1..] == text[1..][i..];
      assert CutAt(p, q, text, i + 1);
    }
  }

  lemma HeadFromCut(p: string, q: string, text: string)
    requires p != "" && MatchesCut(p, q, text)
    requires MatchesCut(p[1..], q, text) ==> Matches(p[1..] + q, text)
    requires text != "" && MatchesCut(p[1..], q, text[1..]) ==> Matches(p[1..] + q, text[1..])
    requires text != "" && p[0] == '%' && MatchesCut(p, q, text[1..]) ==> Matches(p + q, text[1..])
    ensures Matches(p + q, text)
  {
    assert (p + q)[1..] == p[1..] + q;
    var i :| CutAt(p, q, text, i);
    if p[0] == '%' && Matches(p[1..], text[..i]) {
      assert CutAt(p[1..], q, text, i);
    } else {
      assert i > 0;
      assert text[..i][1..] == text[1..][..i - 1];
      assert text[i..] == text[1..][i - 1..];
      assert CutAt(if p[0] == '%' then p else p[1..], q, text[1..], i - 1);
    }
  }

  /** Every text matches itself read as a pattern. */
  lemma {:induction false} MatchesItself(text: string)
    ensures Matches(text, text)
  {
    if text != "" {
      MatchesItself(text[1..]);
      if text[0] == '%' {
        MatchesRestOfItself(text);
      }
    }
  }

  lemma MatchesRestOfItself(text: string)
    requires text != "" && text[0] == '%' && Matches(text[1..], text[1..])
    ensures Matches(text, text)
  {
    assert Matches(text, text[1..]);
  }

  lemma {:induction false} AnythingMatches(text: string)
    ensures Matches("%", text)
  {
    if text != "" {
      AnythingMatches(text[1..]);
    } else {
      assert Matches("%"[1..], text);
    }
  }

  /** The pattern of the scopes below `path`. */
  function Below(path: string): string {
    path + ".%"
  }

  ghost predicate DotAfter(path: string, text: string, i: int) {
    0 <= i < |text| && text[i] == '.' && Matches(path, text[..i])
  }

  lemma DotThenAnything(text: string)
    ensures Matches(".%", text) <==> text != "" && text[0] == '.'
  {
    if text != "" {
      assert ".%"[1..] == "%";
      AnythingMatches(text[1..]);
    }
  }

  /** The pattern matches exactly the texts with a dot right after something `path` matches. */
  lemma BelowMatches(path: string, text: string)
    ensures Matches(Below(path), text) <==> exists i :: DotAfter(path, text, i)
  {
    MatchesConcat(path, ".%", text);
    forall i | 0 <= i <= |text|
      ensures CutAt(path, ".%", text, i) <==> DotAfter(path, text, i)
    {
      DotThenAnything(text[i..]);
    }
    if exists i :: DotAfter(path, text, i) {
      var i :| DotAfter(path, text, i);
      assert CutAt(path, ".%", text, i);
    }
  }

  /** Whatever lies below a path by the pattern lies below the path's parent by the pattern. */
  lemma BelowChildIsBelow(parent: string, rest: string, text: string)
    requires Matches(Below(parent + "." + rest), text)
    ensures Matches(Below(parent), text)
  {
    hide Matches;
    var child := parent + "." + rest;
    BelowMatches(child, text);
    var i :| DotAfter(child, text, i);
    var front := text[..i];
    assert child == parent + ("." + rest);
    MatchesConcat(parent, "." + rest, front);
    var j :| CutAt(parent, "." + rest, front, j);
    StartsWithDot(rest, front[j..]);
    assert text[..j] == front[..j];
    assert DotAfter(parent, text, j);
    BelowMatches(parent, text);
  }

  lemma StartsWithDot(rest: string, text: string)
    requires Matches("." + rest, text)
    ensures text != "" && text[0] == '.'
  {
  }

  /** A path lies below its own prefix. */
  lemma BelowPrefix(path: string, p: nat)
    requires p < |path| && path[p] == '.'
    ensures Matches(Below(path[..p]), path)
  {
    MatchesItself(path[..p]);
    assert DotAfter(path[..p], path, p);
    BelowMatches(path[..p], path);
  }

  // Patterns without `%`.

  ghost predicate Alike(path: string, text: string) {
    |path| == |text| && forall i :: 0 <= i < |path| ==> CharLike(path[i], text[i])
  }

  lemma {:induction false} PlainMatches(path: string, text: string)
    requires '%' !in path
    ensures Matches(path, text) <==> Alike(path, text)
  {
    if path != "" && text != "" {
      PlainMatches(path[1..], text[1..]);
      assert path[0] in path;
      if Alike(path[1..], text[1..]) && CharLike(path[0], text[0]) {
        forall i | 0 <= i < |path|
          ensures CharLike(path[i], text[i])
        {
          if i > 0 {
            assert CharLike(path[1..][i - 1], text[1..][i - 1]);
          }
        }
      }
      if Alike(path, text) {
        assert forall i :: 0 <= i < |path| - 1 ==> CharLike(path[1..][i], text[1..][i]);
      }
    }
  }

  /** A pattern matches whatever reads like it. */
  lemma {:induction false} AlikeMatches(path: string, text: string)
    requires Alike(path, text)
    ensures Matches(path, text)
  {
    if path != "" {
      assert CharLike(path[0], text[0]);
      forall i | 0 <= i < |path| - 1
        ensures CharLike(path[1..][i], text[1..][i])
      {
        assert CharLike(path[i + 1], text[i + 1]);
      }
      AlikeMatches(path[1..], text[1..]);
      if path[0] == '%' {
        assert Matches(path, text[1..]);
      }
    }
  }
}
