/** The embedding cache (`embed/cache.go`): its critical sections as methods, and any
    interleaving of them by any number of clients. */
module EmbeddingCache {
  import opened Model

  type Vector = seq<real>

  type Key = string

  type Cache = map<Key, Vector>

  /** What is in the cache is what the inner embedder answers. */
  ghost predicate Sound(cache: Cache, key: string -> Key, embed: string -> Vector) {
    forall text :: key(text) in cache ==> cache[key(text)] == embed(text)
  }

  /** Texts that share a key share their embedding, too. */
  ghost predicate Harmless(key: string -> Key, embed: string -> Vector) {
    forall a, b :: key(a) == key(b) ==> embed(a) == embed(b)
  }

  function Answers(texts: seq<string>, embed: string -> Vector): (answers: seq<Vector>)
    ensures |answers| == |texts| && forall i :: 0 <= i < |texts| ==> answers[i] == embed(texts[i])
  {
    seq(|texts|, i requires 0 <= i < |texts| => embed(texts[i]))
  }

  function Lookup(cache: Cache, k: Key): Option<Vector> {
    if k in cache then Some(cache[k]) else None
  }

  /** The positions without a result, in order. */
  function Missing(results: seq<Option<Vector>>): (missing: seq<nat>)
    ensures forall j :: 0 <= j < |missing| ==> missing[j] < |results|
  {
    if results == [] then []
    else
      var n := |results| - 1;
      Missing(results[..n]) + if results[n].None? then [n] else []
  }

  function LookUpAll(cache: Cache, texts: seq<string>, key: string -> Key): (results: seq<Option<Vector>>)
    ensures |results| == |texts|
    ensures forall i :: 0 <= i < |texts| ==> results[i] == Lookup(cache, key(texts[i]))
  {
    seq(|texts|, i requires 0 <= i < |texts| => Lookup(cache, key(texts[i])))
  }

  function TextsAt(texts: seq<string>, missing: seq<nat>): (chosen: seq<string>)
    requires forall j :: 0 <= j < |missing| ==> missing[j] < |texts|
    ensures |chosen| == |missing|
    ensures forall j :: 0 <= j < |missing| ==> chosen[j] == texts[missing[j]]
  {
    seq(|missing|, j requires 0 <= j < |missing| => texts[missing[j]])
  }

  /** The cache after storing one vector per text, in order. */
  function StoreAll(cache: Cache, texts: seq<string>, computed: seq<Vector>, key: string -> Key): Cache
    requires |texts| == |computed|
  {
    if texts == [] then cache
    else
      var n := |texts| - 1;
      StoreAll(cache, texts[..n], computed[..n], key)[key(texts[n]) := computed[n]]
  }

  /** The results with the gaps filled. */
  function FillIn(results: seq<Option<Vector>>, missing: seq<nat>, computed: seq<Vector>): (filled: seq<Option<Vector>>)
    requires |missing| == |computed| && forall j :: 0 <= j < |missing| ==> missing[j] < |results|
    ensures |filled| == |results|
  {
    if missing == [] then results
    else
      var n := |missing| - 1;
      FillIn(results, missing[..n], computed[..n])[missing[n] := Some(computed[n])]
  }

  lemma {:induction false} MissingAreGaps(results: seq<Option<Vector>>, i: nat)
    requires i < |results|
    ensures i in Missing(results) <==> results[i].None?
  {
    var n := |results| - 1;
    if i < n {
      MissingAreGaps(results[..n], i);
    }
  }

  lemma {:induction false} FilledAt(results: seq<Option<Vector>>, missing: seq<nat>, computed: seq<Vector>,
                                    answers: seq<Vector>, i: nat)
    requires |missing| == |computed| && |answers| == |results| && i < |results|
    requires forall j :: 0 <= j < |missing| ==> missing[j] < |results| && computed[j] == answers[missing[j]]
    requires results[i].None? ==> i in missing
    requires results[i].Some? ==> results[i].value == answers[i]
    ensures FillIn(results, missing, computed)[i] == Some(answers[i])
  {
    if missing != [] {
      var n := |missing| - 1;
      assert missing == missing[..n] + [missing[n]];
      if missing[n] != i {
        FilledAt(results, missing[..n], computed[..n], answers, i);
      }
    }
  }

  /** Looking up, computing what is missing and filling in gives every position its answer,
      repeated texts included, whatever was in the cache. */
  lemma FilledIsAnswers(results: seq<Option<Vector>>, texts: seq<string>, embed: string -> Vector)
    requires |results| == |texts|
    requires forall i :: 0 <= i < |texts| && results[i].Some? ==> results[i].value == embed(texts[i])
    ensures var missing := Missing(results);
      forall i :: 0 <= i < |texts| ==>
        FillIn(results, missing, Answers(TextsAt(texts, missing), embed))[i] == Some(embed(texts[i]))
  {
    hide FillIn, Missing;
    var missing := Missing(results);
    forall i | 0 <= i < |texts|
      ensures FillIn(results, missing, Answers(TextsAt(texts, missing), embed))[i] == Some(embed(texts[i]))
    {
      MissingAreGaps(results, i);
      FilledAt(results, missing, Answers(TextsAt(texts, missing), embed), Answers(texts, embed), i);
    }
  }

  lemma {:induction false} StoringIsSound(cache: Cache, texts: seq<string>, key: string -> Key, embed: string -> Vector)
    requires Harmless(key, embed) && Sound(cache, key, embed)
    ensures Sound(StoreAll(cache, texts, Answers(texts, embed), key), key, embed)
  {
    if texts != [] {
      var n := |texts| - 1;
      StoringIsSound(cache, texts[..n], key, embed);
      assert Answers(texts, embed)[..n] == Answers(texts[..n], embed);
    }
  }

  function Values(results: seq<Option<Vector>>): (values: seq<Vector>)
    requires forall i :: 0 <= i < |results| ==> results[i].Some?
    ensures |values| == |results| && forall i :: 0 <= i < |results| ==> values[i] == results[i].value
  {
    seq(|results|, i requires 0 <= i < |results| => results[i].value)
  }

  /** The texts whose keys are not in the cache, in order. */
  function Uncached(texts: seq<string>, cache: Cache, key: string -> Key): seq<string> {
    if texts == [] then []
    else (if key(texts[0]) in cache then [] else [texts[0]]) + Uncached(texts[1..], cache, key)
  }

  lemma {:induction false} UncachedSnoc(texts: seq<string>, text: string, cache: Cache, key: string -> Key)
    ensures Uncached(texts + [text], cache, key) ==
      Uncached(texts, cache, key) + if key(text) in cache then [] else [text]
  {
    if texts == [] {
      assert [text][1..] == [] && [] + [text] == [text];
    } else {
      assert (texts + [text])[1..] == texts[1..] + [text] && (texts + [text])[0] == texts[0];
      UncachedSnoc(texts[1..], text, cache, key);
      Regroup(if key(texts[0]) in cache then [] else [texts[0]], Uncached(texts[1..], cache, key),
              if key(text) in cache then [] else [text]);
    }
  }

  lemma Regroup(a: seq<string>, b: seq<string>, c: seq<string>)
    ensures a + (b + c) == (a + b) + c
  {
  }

  lemma {:induction false} MissingAreUncached(texts: seq<string>, cache: Cache, key: string -> Key, n: nat)
    requires n <= |texts|
    ensures var missing := Missing(LookUpAll(cache, texts[..n], key));
      (forall j :: 0 <= j < |missing| ==> missing[j] < n) &&
      TextsAt(texts, missing) == Uncached(texts[..n], cache, key)
  {
    if n > 0 {
      MissingAreUncached(texts, cache, key, n - 1);
      assert texts[..n] == texts[..n - 1] + [texts[n - 1]];
      UncachedSnoc(texts[..n - 1], texts[n - 1], cache, key);
      assert LookUpAll(cache, texts[..n], key)[..n - 1] == LookUpAll(cache, texts[..n - 1], key);
    }
  }

  lemma MissesAreUncached(texts: seq<string>, cache: Cache, key: string -> Key)
    ensures TextsAt(texts, Missing(LookUpAll(cache, texts, key))) == Uncached(texts, cache, key)
  {
    MissingAreUncached(texts, cache, key, |texts|);
    assert texts[..|texts|] == texts;
  }

  lemma FoundIsRight(texts: seq<string>, cache: Cache, key: string -> Key, embed: string -> Vector)
    requires Sound(cache, key, embed)
    ensures var results := LookUpAll(cache, texts, key);
      forall i :: 0 <= i < |texts| && results[i].Some? ==> results[i].value == embed(texts[i])
  {
  }

  lemma NothingToFill(results: seq<Option<Vector>>)
    ensures FillIn(results, [], []) == results
  {
  }

  lemma NothingUncached(cache: Cache, key: string -> Key)
    ensures Uncached([], cache, key) == []
  {
  }

  class CachedEmbedder {
    const key: string -> Key
    const embed: string -> Vector
    var cache: Cache
    /** Calls of the inner embedder that failed so far. */
    ghost var faults: nat
    /** What the inner embedder was asked so far, call by call. */
    ghost var asked: seq<seq<string>>
    /** What this client stored in the cache so far, write section by write section. */
    ghost var stored: seq<(seq<string>, seq<Vector>)>

    constructor (key: string -> Key, embed: string -> Vector)
      ensures cache == map[] && this.key == key && this.embed == embed && asked == [] && stored == []
    {
      this.key, this.embed, cache, faults, asked, stored := key, embed, map[], 0, [], [];
    }

    ghost predicate Valid()
      reads this
    {
      Harmless(key, embed) && Sound(cache, key, embed)
    }

    /** The inner embedder; it may fail. */
    method Inner(texts: seq<string>) returns (computed: Option<seq<Vector>>)
      modifies this`faults, this`asked
      ensures computed.Some? ==> computed.value == Answers(texts, embed)
      ensures faults == old(faults) + if computed.Some? then 0 else 1
      ensures asked == old(asked) + [texts]
    {
      asked := asked + [texts];
      if * {
        return Some(Answers(texts, embed));
      }
      faults := faults + 1;
      return None;
    }

    /** Other clients run any number of their critical sections. */
    method Others()
      requires Valid()
      modifies this`cache
      ensures Valid()
    {
      var n: nat :| true;
      for i := 0 to n
        invariant Valid()
      {
        if * {
          Clear();
        } else {
          var texts: seq<string> :| true;
          StoringIsSound(cache, texts, key, embed);
          cache := StoreAll(cache, texts, Answers(texts, embed), key);
        }
      }
    }

    method Clear()
      modifies this`cache
      ensures cache == map[]
    {
      cache := map[];
    }

    /** The write section of `Embed`. */
    method Write(text: string, vector: Vector)
      modifies this`cache, this`stored
      ensures cache == old(cache)[key(text) := vector]
      ensures stored == old(stored) + [([text], [vector])]
    {
      cache := cache[key(text) := vector];
      stored := stored + [([text], [vector])];
    }

    /** A cached text costs nothing; for another one the inner embedder is asked once, and its
        answer stored. */
    method Embed(text: string) returns (vector: Option<Vector>)
      requires Valid()
      modifies this`cache, this`faults, this`asked, this`stored
      ensures Valid()
      ensures vector.Some? ==> vector.value == embed(text)
      ensures vector.Some? <==> faults == old(faults)
      ensures key(text) in old(cache) ==> vector.Some? && asked == old(asked) && stored == old(stored)
      ensures key(text) !in old(cache) ==>
        && asked == old(asked) + [[text]]
        && stored == old(stored) + if vector.Some? then [([text], [embed(text)])] else []
    {
      var k := key(text);
      if k in cache {
        return Some(cache[k]);
      }
      Others();
      var computed := Inner([text]);
      if computed.None? {
        return None;
      }
      Others();
      Write(text, computed.value[0]);
      Others();
      return Some(computed.value[0]);
    }

    /** The read section of `EmbedBatch`. */
    method ReadAll(texts: seq<string>)
      returns (results: seq<Option<Vector>>, missingTexts: seq<string>, missingIndices: seq<nat>)
      ensures results == LookUpAll(cache, texts, key)
      ensures missingIndices == Missing(results) && missingTexts == TextsAt(texts, missingIndices)
    {
      results, missingTexts, missingIndices := [], [], [];
      for i := 0 to |texts|
        invariant results == LookUpAll(cache, texts[..i], key)
        invariant missingIndices == Missing(results) && missingTexts == TextsAt(texts, missingIndices)
      {
        var k := key(texts[i]);
        ghost var before := results;
        results := results + [Lookup(cache, k)];
        assert results[..i] == before;
        if k !in cache {
          missingTexts := missingTexts + [texts[i]];
          missingIndices := missingIndices + [i];
        }
      }
    }

    /** The write section of `EmbedBatch`. */
    method WriteAll(results: seq<Option<Vector>>, missingTexts: seq<string>, missingIndices: seq<nat>,
                    computed: seq<Vector>)
      returns (filled: seq<Option<Vector>>)
      requires |missingTexts| == |missingIndices| == |computed|
      requires forall j :: 0 <= j < |missingIndices| ==> missingIndices[j] < |results|
      modifies this`cache, this`stored
      ensures filled == FillIn(results, missingIndices, computed)
      ensures cache == StoreAll(old(cache), missingTexts, computed, key)
      ensures stored == old(stored) + [(missingTexts, computed)]
    {
      filled := results;
      stored := stored + [(missingTexts, computed)];
      for j := 0 to |missingIndices|
        invariant filled == FillIn(results, missingIndices[..j], computed[..j])
        invariant cache == StoreAll(old(cache), missingTexts[..j], computed[..j], key)
        invariant stored == old(stored) + [(missingTexts, computed)]
      {
        FirstItems(missingIndices, j);
        FirstItems(computed, j);
        FirstItems(missingTexts, j);
        filled := filled[missingIndices[j] := Some(computed[j])];
        cache := cache[key(missingTexts[j]) := computed[j]];
      }
      assert missingIndices[..|missingIndices|] == missingIndices;
      assert missingTexts[..|missingTexts|] == missingTexts;
      assert computed[..|computed|] == computed;
    }

    /** The inner embedder is asked once for all the texts that are not cached, in their order, and
        not at all if there are none; its answers are stored. */
    method EmbedBatch(texts: seq<string>) returns (vectors: Option<seq<Vector>>)
      requires Valid()
      modifies this`cache, this`faults, this`asked, this`stored
      ensures Valid()
      ensures vectors.Some? ==> vectors.value == Answers(texts, embed)
      ensures vectors.Some? <==> faults == old(faults)
      ensures var misses := Uncached(texts, old(cache), key);
        if misses == [] then vectors.Some? && asked == old(asked) && stored == old(stored)
        else
          && asked == old(asked) + [misses]
          && stored == old(stored) + if vectors.Some? then [(misses, Answers(misses, embed))] else []
    {
      hide Uncached, Missing, TextsAt, LookUpAll, FillIn, StoreAll, Harmless, Sound;
      if |texts| == 0 {
        NothingUncached(cache, key);
        return Some([]);
      }
      var results, missingTexts, missingIndices := ReadAll(texts);
      MissesAreUncached(texts, cache, key);
      FoundIsRight(texts, cache, key, embed);
      FilledIsAnswers(results, texts, embed);
      Others();
      if |missingTexts| == 0 {
        assert missingIndices == [] && Answers(missingTexts, embed) == [];
        NothingToFill(results);
        return Some(Values(results));
      }
      var computed := Inner(missingTexts);
      if computed.None? {
        return None;
      }
      Others();
      StoringIsSound(cache, missingTexts, key, embed);
      results := WriteAll(results, missingTexts, missingIndices, computed.value);
      Others();
      return Some(Values(results));
    }
  }

  lemma FirstItems<T>(s: seq<T>, j: nat)
    requires j < |s|
    ensures s[..j + 1] == s[..j] + [s[j]] && s[..j + 1][..j] == s[..j]
  {
  }

  // Any number of clients.

  datatype Client =
    | Idle
    | Missed(texts: seq<string>, results: seq<Option<Vector>>)
    | Computed(texts: seq<string>, results: seq<Option<Vector>>, computed: seq<Vector>)
    | Done(texts: seq<string>, answers: seq<Vector>)
    | Failed

  datatype State = State(cache: Cache, clients: seq<Client>)

  ghost predicate AllFound(results: seq<Option<Vector>>) {
    forall i :: 0 <= i < |results| ==> results[i].Some?
  }

  /** One critical section, or one call of the inner embedder. A single `Embed` is a batch of one. */
  ghost predicate ClientStep(c: Client, cache: Cache, c': Client, cache': Cache,
                             key: string -> Key, embed: string -> Vector)
  {
    match c
    case Idle =>
      && cache' == cache
      && (exists texts :: c' == (
            var results := LookUpAll(cache, texts, key);
            if AllFound(results) then Done(texts, Values(results)) else Missed(texts, results)))
    case Missed(texts, results) =>
      && cache' == cache
      && |results| == |texts|
      && (c' == Failed || c' == Computed(texts, results, Answers(TextsAt(texts, Missing(results)), embed)))
    case Computed(texts, results, computed) =>
      && |results| == |texts| && |computed| == |Missing(results)|
      && cache' == StoreAll(cache, TextsAt(texts, Missing(results)), computed, key)
      && AllFound(FillIn(results, Missing(results), computed))
      && c' == Done(texts, Values(FillIn(results, Missing(results), computed)))
    case Done(_, _) => cache' == cache && c' == Idle
    case Failed => cache' == cache && c' == Idle
  }

  ghost predicate Next(s: State, s': State, key: string -> Key, embed: string -> Vector) {
    || s' == s.(cache := map[])
    || exists i, c :: 0 <= i < |s.clients| && s'.clients == s.clients[i := c] &&
         ClientStep(s.clients[i], s.cache, c, s'.cache, key, embed)
  }

  ghost predicate IsRun(run: seq<State>, key: string -> Key, embed: string -> Vector) {
    && run != []
    && run[0].cache == map[]
    && (forall i :: 0 <= i < |run[0].clients| ==> run[0].clients[i] == Idle)
    && forall k :: 0 < k < |run| ==> Next(run[k - 1], run[k], key, embed)
  }

  ghost predicate Right(c: Client, embed: string -> Vector) {
    c.Done? ==> c.answers == Answers(c.texts, embed)
  }

  /** What is true of a client between its steps, whatever the others do. */
  ghost predicate OnTrack(c: Client, embed: string -> Vector) {
    && Right(c, embed)
    && (c.Missed? || c.Computed? ==>
          && |c.results| == |c.texts|
          && forall i :: 0 <= i < |c.texts| && c.results[i].Some? ==> c.results[i].value == embed(c.texts[i]))
    && (c.Computed? ==> c.computed == Answers(TextsAt(c.texts, Missing(c.results)), embed))
  }

  lemma ClientStaysOnTrack(c: Client, cache: Cache, c': Client, cache': Cache,
                           key: string -> Key, embed: string -> Vector)
    requires Harmless(key, embed) && Sound(cache, key, embed) && OnTrack(c, embed)
    requires ClientStep(c, cache, c', cache', key, embed)
    ensures Sound(cache', key, embed) && OnTrack(c', embed)
  {
    hide Missing, FillIn, StoreAll;
    if c.Computed? {
      FilledIsAnswers(c.results, c.texts, embed);
      StoringIsSound(cache, TextsAt(c.texts, Missing(c.results)), key, embed);
    }
  }

  lemma {:induction false} RunStaysOnTrack(run: seq<State>, key: string -> Key, embed: string -> Vector, k: nat)
    requires Harmless(key, embed) && IsRun(run, key, embed) && k < |run|
    ensures Sound(run[k].cache, key, embed)
    ensures forall i :: 0 <= i < |run[k].clients| ==> OnTrack(run[k].clients[i], embed)
  {
    hide OnTrack, ClientStep, Harmless, Sound;
    if k == 0 {
      StartIsOnTrack(run[0], key, embed);
    } else {
      RunStaysOnTrack(run, key, embed, k - 1);
      var s, s' := run[k - 1], run[k];
      assert Next(s, s', key, embed);
      if s' == s.(cache := map[]) {
        EmptyIsSound(key, embed);
      } else {
        var i, c :| 0 <= i < |s.clients| && s'.clients == s.clients[i := c] &&
          ClientStep(s.clients[i], s.cache, c, s'.cache, key, embed);
        ClientStaysOnTrack(s.clients[i], s.cache, c, s'.cache, key, embed);
      }
    }
  }

  lemma EmptyIsSound(key: string -> Key, embed: string -> Vector)
    ensures Sound(map[], key, embed)
  {
  }

  lemma StartIsOnTrack(s: State, key: string -> Key, embed: string -> Vector)
    requires s.cache == map[] && forall i :: 0 <= i < |s.clients| ==> s.clients[i] == Idle
    ensures Sound(s.cache, key, embed)
    ensures forall i :: 0 <= i < |s.clients| ==> OnTrack(s.clients[i], embed)
  {
  }

  ghost predicate AllRight(run: seq<State>, embed: string -> Vector) {
    forall k, i :: 0 <= k < |run| && 0 <= i < |run[k].clients| ==> Right(run[k].clients[i], embed)
  }

  /** Every client of every run gets the inner embedder's answers, position by position,
      exactly when texts that share a key share their embedding. */
  lemma AnswersAreRight(key: string -> Key, embed: string -> Vector)
    ensures Harmless(key, embed) <==> forall run: seq<State> :: IsRun(run, key, embed) ==> AllRight(run, embed)
  {
    if Harmless(key, embed) {
      forall run: seq<State> | IsRun(run, key, embed)
        ensures AllRight(run, embed)
      {
        forall k, i | 0 <= k < |run| && 0 <= i < |run[k].clients|
          ensures Right(run[k].clients[i], embed)
        {
          RunStaysOnTrack(run, key, embed, k);
          assert OnTrack(run[k].clients[i], embed);
        }
      }
    } else {
      var a, b :| key(a) == key(b) && embed(a) != embed(b);
      var run := CollidingRun(a, b, key, embed);
      assert !AllRight(run, embed);
    }
  }

  /** One client caches `a`; the next asks for `b` and is given the embedding of `a`. */
  lemma CollidingRun(a: string, b: string, key: string -> Key, embed: string -> Vector) returns (run: seq<State>)
    requires key(a) == key(b) && embed(a) != embed(b)
    ensures IsRun(run, key, embed) && !AllRight(run, embed)
  {
    hide ClientStep, Next, AllRight, Answers;
    var start := State(map[], [Idle]);
    var missed := Missed([a], [None]);
    var computed := Computed([a], [None], [embed(a)]);
    var cache := map[key(a) := embed(a)];
    var wrong := Done([b], [embed(a)]);
    FirstClient(a, key, embed);
    SecondClient(a, b, key, embed);
    var s1, s2 := State(map[], [missed]), State(map[], [computed]);
    var s3, s4, s5 := State(cache, [Done([a], [embed(a)])]), State(cache, [Idle]), State(cache, [wrong]);
    Only(start, s1, missed, key, embed);
    Only(s1, s2, computed, key, embed);
    Only(s2, s3, Done([a], [embed(a)]), key, embed);
    Only(s3, s4, Idle, key, embed);
    Only(s4, s5, wrong, key, embed);
    run := [start, s1, s2, s3, s4, s5];
    NotAllRight(run, a, b, embed);
  }

  lemma NotAllRight(run: seq<State>, a: string, b: string, embed: string -> Vector)
    requires |run| == 6 && run[5].clients == [Done([b], [embed(a)])] && embed(a) != embed(b)
    ensures !AllRight(run, embed)
  {
    assert !Right(run[5].clients[0], embed) by {
      assert Answers([b], embed)[0] == embed(b);
    }
  }

  lemma SecondClient(a: string, b: string, key: string -> Key, embed: string -> Vector)
    requires key(a) == key(b)
    ensures var cache := map[key(a) := embed(a)];
      && ClientStep(Done([a], [embed(a)]), cache, Idle, cache, key, embed)
      && ClientStep(Idle, cache, Done([b], [embed(a)]), cache, key, embed)
  {
    var cache := map[key(a) := embed(a)];
    OneFound(embed(a));
    assert LookUpAll(cache, [b], key) == [Some(embed(a))];
  }

  lemma FirstClient(a: string, key: string -> Key, embed: string -> Vector)
    ensures ClientStep(Idle, map[], Missed([a], [None]), map[], key, embed)
    ensures ClientStep(Missed([a], [None]), map[], Computed([a], [None], [embed(a)]), map[], key, embed)
    ensures var cache := map[key(a) := embed(a)];
      ClientStep(Computed([a], [None], [embed(a)]), map[], Done([a], [embed(a)]), cache, key, embed)
  {
    hide LookUpAll, Missing, TextsAt, FillIn, Values, StoreAll, Answers, AllFound;
    BatchOfOne(a, key, embed);
    StoreOne(a, key, embed);
    assert AllFound([Some(embed(a))]) by {
      OneFound(embed(a));
    }
  }

  lemma OneFound(v: Vector)
    ensures AllFound([Some(v)])
    ensures Values([Some(v)]) == [v]
  {
  }

  lemma BatchOfOne(a: string, key: string -> Key, embed: string -> Vector)
    ensures LookUpAll(map[], [a], key) == [None] && !AllFound([None])
    ensures Missing([None]) == [0]
    ensures TextsAt([a], [0]) == [a] && Answers([a], embed) == [embed(a)]
  {
    var none: seq<Option<Vector>> := [None];
    assert !AllFound(none) by {
      assert none[0].None?;
    }
    assert Missing(none[..0]) == [];
  }

  lemma StoreOne(a: string, key: string -> Key, embed: string -> Vector)
    ensures FillIn([None], [0], [embed(a)]) == [Some(embed(a))]
    ensures Values([Some(embed(a))]) == [embed(a)]
    ensures StoreAll(map[], [a], [embed(a)], key) == map[key(a) := embed(a)]
  {
    assert FillIn([None], [0][..0], [embed(a)][..0]) == [None];
    assert StoreAll(map[], [a][..0], [embed(a)][..0], key) == map[];
  }

  lemma Only(s: State, s': State, c: Client, key: string -> Key, embed: string -> Vector)
    requires |s.clients| == 1 && s'.clients == [c]
    requires ClientStep(s.clients[0], s.cache, c, s'.cache, key, embed)
    ensures Next(s, s', key, embed)
  {
    assert s'.clients == s.clients[0 := c];
  }

  // Keys.

  /** `SHA-256(model + NUL + text)`, with the digest a parameter. */
  function CacheKey(digest: string -> Key, model: string, text: string): Key {
    digest(model + [0 as char] + text)
  }

  /** With a digest free of collisions and model names free of the separator, the key tells
      models and texts apart. */
  lemma KeysAreDistinct(digest: string -> Key, model: string, text: string, model': string, text': string)
    requires forall x, y :: digest(x) == digest(y) ==> x == y
    requires 0 as char !in model && 0 as char !in model'
    ensures CacheKey(digest, model, text) == CacheKey(digest, model', text') <==> model == model' && text == text'
  {
    var x, y := model + [0 as char] + text, model' + [0 as char] + text';
    if x == y {
      assert x[|model|] == 0 as char && y[|model'|] == 0 as char;
      assert forall i :: 0 <= i < |model| ==> x[i] == model[i] && model[i] in model;
      assert forall i :: 0 <= i < |model'| ==> y[i] == model'[i] && model'[i] in model';
      assert |model| == |model'|;
      assert model == x[..|model|] && model' == y[..|model'|];
      assert text == x[|model| + 1..] && text' == y[|model'| + 1..];
    }
  }
}
